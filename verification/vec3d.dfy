/**
  The concrete three-dimensional vector `Vec3D`, the only instance of the
  generic vector algebra, with its accessors, cross product, arithmetic
  operators and norm.
 */
module Vec3 {
  import opened Vector

  const DIM: nat := 3

  type Vec3D = v: Vec | |v| == DIM witness [0.0, 0.0, 0.0]

  /** `Vec3D::new`: the accessors read back the three components given. */
  function New(x: real, y: real, z: real): (v: Vec3D)
    ensures X(v) == x && Y(v) == y && Z(v) == z
  {
    [x, y, z]
  }

  /** Indexing; an index of 3 or more is out of range. */
  function Index(v: Vec3D, i: nat): (c: real)
    requires i < DIM
    ensures i == 0 ==> c == X(v)
    ensures i == 1 ==> c == Y(v)
    ensures i == 2 ==> c == Z(v)
  {
    v[i]
  }

  function X(v: Vec3D): real { v[0] }
  function Y(v: Vec3D): real { v[1] }
  function Z(v: Vec3D): real { v[2] }

  function ZeroVec(): Vec3D { Zero(DIM) }

  function UnitVec(i: nat): Vec3D
    requires i < DIM
  {
    Unit(DIM, i)
  }

  /** The right-handed cross product `u × v`. */
  function Cross(u: Vec3D, v: Vec3D): Vec3D
  {
    New(Y(u) * Z(v) - Z(u) * Y(v),
        Z(u) * X(v) - X(u) * Z(v),
        X(u) * Y(v) - Y(u) * X(v))
  }

  /** `u + v`, component by component. */
  function Add(u: Vec3D, v: Vec3D): (w: Vec3D)
    ensures forall i :: 0 <= i < DIM ==> w[i] == u[i] + v[i]
  {
    ComponentWiseBinary(u, v, (x, y) => x + y)
  }

  /** `u - v`, component by component. */
  function Sub(u: Vec3D, v: Vec3D): (w: Vec3D)
    ensures forall i :: 0 <= i < DIM ==> w[i] == u[i] - v[i]
  {
    ComponentWiseBinary(u, v, (x, y) => x - y)
  }

  /** `u * v` between two vectors: the component-wise product, not `Cross`. */
  function Mul(u: Vec3D, v: Vec3D): (w: Vec3D)
    ensures forall i :: 0 <= i < DIM ==> w[i] == u[i] * v[i]
  {
    ComponentWiseBinary(u, v, (x, y) => x * y)
  }

  /** `v * f` for a scalar `f`. */
  function MulScalar(v: Vec3D, f: real): (w: Vec3D)
    ensures forall i :: 0 <= i < DIM ==> w[i] == v[i] * f
  {
    Scale(v, f)
  }

  /**
    `v / f`, computed as `v` scaled by `1 / f`. The source performs no check;
    a zero divisor has no real quotient, so it is excluded here.
   */
  function DivScalar(v: Vec3D, f: real): (w: Vec3D)
    requires f != 0.0
    ensures forall i :: 0 <= i < DIM ==> w[i] == v[i] / f
  {
    Scale(v, 1.0 / f)
  }

  /**
    `r` is the norm of `v`: the non-negative square root of its squared
    norm, as `f64::sqrt` returns it.
   */
  ghost predicate IsNorm(v: Vec3D, r: real) {
    r >= 0.0 && r * r == NormSquared(v)
  }

  /** The dot product of a `Vec3D` written out over its three components. */
  lemma DotExpanded(u: Vec3D, v: Vec3D)
    ensures Dot(u, v) == u[0] * v[0] + u[1] * v[1] + u[2] * v[2]
  {
    assert Dot(u, v) == Dot(u[..2], v[..2]) + u[2] * v[2];
    assert u[..2][..1] == u[..1] && v[..2][..1] == v[..1];
    assert Dot(u[..2], v[..2]) == Dot(u[..1], v[..1]) + u[1] * v[1];
    assert u[..1][..0] == [] && v[..1][..0] == [];
    assert Dot(u[..1], v[..1]) == Dot([], []) + u[0] * v[0];
  }

  /** The cross product is orthogonal to both of its operands. */
  lemma CrossOrthogonal(u: Vec3D, v: Vec3D)
    ensures Dot(Cross(u, v), u) == 0.0
    ensures Dot(Cross(u, v), v) == 0.0
  {
    var w := Cross(u, v);
    DotExpanded(w, u);
    DotExpanded(w, v);
  }

  lemma CrossAntiCommutative(u: Vec3D, v: Vec3D)
    ensures Cross(u, v) == MulScalar(Cross(v, u), -1.0)
  {
  }

  lemma CrossSelfIsZero(u: Vec3D)
    ensures Cross(u, u) == ZeroVec()
  {
  }

  /** The basis is right-handed: `e0 × e1 = e2`, and cyclically. */
  lemma CrossOfUnits(d: nat)
    requires d < DIM
    ensures Cross(UnitVec(d), UnitVec((d + 1) % DIM)) == UnitVec((d + 2) % DIM)
  {
  }

  lemma DotOfOrthogonalUnits(d: nat)
    requires d < DIM
    ensures Dot(UnitVec(d), UnitVec((d + 1) % DIM)) == 0.0
    ensures Dot(UnitVec(d), UnitVec(d)) == 1.0
  {
    UnitOrthonormal(DIM, d, (d + 1) % DIM);
    UnitOrthonormal(DIM, d, d);
  }

  /** The norm of every basis vector is one. */
  lemma NormOfUnitIsOne(d: nat, r: real)
    requires d < DIM
    ensures IsNorm(UnitVec(d), r) <==> r == 1.0
  {
    UnitOrthonormal(DIM, d, d);
    if r >= 0.0 && r != 1.0 {
      SquareOfNonNegativeOtherThanOne(r);
    }
  }

  /** Among the non-negative reals only one squares to one. */
  lemma SquareOfNonNegativeOtherThanOne(r: real)
    requires r >= 0.0 && r != 1.0
    ensures r * r != 1.0
  {
    if r < 1.0 {
      assert r * r <= r * 1.0;
    } else {
      assert r * 1.0 < r * r;
    }
  }

  /** Adding a vector to itself doubles it. */
  lemma AddSelfDoubles(v: Vec3D)
    ensures Add(v, v) == MulScalar(v, 2.0)
  {
  }

  /** A vector of length two has squared norm four. */
  lemma NormSquaredOfDoubledUnit(d: nat)
    requires d < DIM
    ensures NormSquared(Add(UnitVec(d), UnitVec(d))) == 4.0
  {
    var e := UnitVec(d);
    AddSelfDoubles(e);
    NormSquaredScale(e, 2.0);
    UnitOrthonormal(DIM, d, d);
  }

  /** Every vector is the sum of its components along the basis. */
  lemma BasisDecomposition(v: Vec3D)
    ensures v == Add(Add(MulScalar(UnitVec(0), X(v)), MulScalar(UnitVec(1), Y(v))), MulScalar(UnitVec(2), Z(v)))
  {
  }

  /** The dot product is the sum of the component-wise product's components. */
  lemma DotIsSumOfMul(u: Vec3D, v: Vec3D)
    ensures Dot(u, v) == X(Mul(u, v)) + Y(Mul(u, v)) + Z(Mul(u, v))
  {
    DotExpanded(u, v);
  }

  /** Subtraction undoes addition. */
  lemma SubUndoesAdd(u: Vec3D, v: Vec3D)
    ensures Sub(Add(u, v), v) == u
  {
  }

  /** Division undoes multiplication by the same non-zero scalar. */
  lemma DivUndoesMulScalar(v: Vec3D, f: real)
    requires f != 0.0
    ensures DivScalar(MulScalar(v, f), f) == v
  {
    var w := DivScalar(MulScalar(v, f), f);
    forall i | 0 <= i < DIM
      ensures w[i] == v[i]
    {
      assert w[i] == (v[i] * f) / f;
    }
  }
}

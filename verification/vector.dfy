/**
  The dimension-generic vector algebra: the default methods of the source's
  `Vector<D, F>` trait, with the scalar field instantiated as `real`. A vector
  of dimension `d` is a sequence of `d` components in basis order.
 */
module Vector {

  type Vec = seq<real>

  /**
    Applies `op` to each pair of corresponding components. The source builds
    the result from the index range `0..DIM`; here the recursion walks both
    vectors front to back, which yields the same sequence.
   */
  function ComponentWiseBinary(u: Vec, v: Vec, op: (real, real) -> real): (r: Vec)
    requires |u| == |v|
    ensures |r| == |u|
    ensures forall i :: 0 <= i < |r| ==> r[i] == op(u[i], v[i])
    decreases |u|
  {
    if |u| == 0 then [] else [op(u[0], v[0])] + ComponentWiseBinary(u[1..], v[1..], op)
  }

  /** Applies `op` to each component. */
  function ComponentWiseUnary(v: Vec, op: real -> real): (r: Vec)
    ensures |r| == |v|
    ensures forall i :: 0 <= i < |r| ==> r[i] == op(v[i])
    decreases |v|
  {
    if |v| == 0 then [] else [op(v[0])] + ComponentWiseUnary(v[1..], op)
  }

  /** The vector of dimension `d` whose every component is the field's zero. */
  function Zero(d: nat): (z: Vec)
    ensures |z| == d
    ensures forall i :: 0 <= i < d ==> z[i] == 0.0
  {
    seq(d, _ => 0.0)
  }

  /**
    The `i`-th standard basis vector of dimension `d`: the zero vector with
    component `i` overwritten by the field's one. The source indexes a
    `DIM`-long buffer with `i`, so `i < d` is required.
   */
  function Unit(d: nat, i: nat): (e: Vec)
    requires i < d
    ensures |e| == d
    ensures e[i] == 1.0
    ensures forall j :: 0 <= j < d && j != i ==> e[j] == 0.0
  {
    Zero(d)[i := 1.0]
  }

  /** Multiplies every component by `scalar`. */
  function Scale(v: Vec, scalar: real): (r: Vec)
    ensures |r| == |v|
    ensures forall i :: 0 <= i < |r| ==> r[i] == v[i] * scalar
  {
    ComponentWiseUnary(v, x => x * scalar)
  }

  /**
    The sum of the products of corresponding components, accumulated from
    the first index to the last as `Iterator::sum` does.
   */
  function Dot(u: Vec, v: Vec): real
    requires |u| == |v|
    decreases |u|
  {
    if |u| == 0 then 0.0
    else Dot(u[..|u| - 1], v[..|v| - 1]) + u[|u| - 1] * v[|v| - 1]
  }

  function NormSquared(v: Vec): real
  {
    Dot(v, v)
  }

  /**
    Builds a vector from the first `d` items of a sequence; items beyond
    the first `d` are never read. With fewer than `d` items the source's
    `try_into().unwrap()` panics, so at least `d` items are required.
   */
  function FromIter(items: seq<real>, d: nat): (v: Vec)
    requires d <= |items|
    ensures |v| == d
    ensures forall i :: 0 <= i < d ==> v[i] == items[i]
  {
    items[..d]
  }

  /** Collecting a vector's own components, followed by anything, gives it back. */
  lemma FromIterOfComponents(v: Vec, rest: seq<real>)
    ensures FromIter(v + rest, |v|) == v
  {
    assert (v + rest)[..|v|] == v;
  }

  /** A zero left operand makes the dot product zero. */
  lemma {:induction false} DotOfZeroLeft(u: Vec, v: Vec)
    requires |u| == |v|
    requires forall j :: 0 <= j < |u| ==> u[j] == 0.0
    ensures Dot(u, v) == 0.0
    decreases |u|
  {
    if |u| > 0 {
      DotOfZeroLeft(u[..|u| - 1], v[..|v| - 1]);
    }
  }

  /**
    When `u` is zero everywhere except possibly at `i`, the dot product
    picks out the single product at `i`.
   */
  lemma {:induction false} DotOfSparseLeft(u: Vec, v: Vec, i: nat)
    requires |u| == |v| && i < |u|
    requires forall j :: 0 <= j < |u| && j != i ==> u[j] == 0.0
    ensures Dot(u, v) == u[i] * v[i]
    decreases |u|
  {
    var n := |u| - 1;
    if i == n {
      DotOfZeroLeft(u[..n], v[..n]);
    } else {
      DotOfSparseLeft(u[..n], v[..n], i);
      assert u[n] == 0.0;
    }
  }

  /** The dot product with the `i`-th basis vector reads component `i`. */
  lemma DotUnitLeft(d: nat, i: nat, v: Vec)
    requires i < d && |v| == d
    ensures Dot(Unit(d, i), v) == v[i]
  {
    DotOfSparseLeft(Unit(d, i), v, i);
  }

  /** The basis vectors are orthonormal. */
  lemma UnitOrthonormal(d: nat, i: nat, j: nat)
    requires i < d && j < d
    ensures Dot(Unit(d, i), Unit(d, j)) == if i == j then 1.0 else 0.0
  {
    DotUnitLeft(d, i, Unit(d, j));
  }

  lemma {:induction false} DotSymmetric(u: Vec, v: Vec)
    requires |u| == |v|
    ensures Dot(u, v) == Dot(v, u)
    decreases |u|
  {
    if |u| > 0 {
      DotSymmetric(u[..|u| - 1], v[..|v| - 1]);
    }
  }

  /** Scaling either argument scales the dot product. */
  lemma {:induction false} DotScaleLeft(u: Vec, v: Vec, s: real)
    requires |u| == |v|
    ensures Dot(Scale(u, s), v) == s * Dot(u, v)
    decreases |u|
  {
    if |u| > 0 {
      var n := |u| - 1;
      var su := Scale(u, s);
      assert su[..n] == Scale(u[..n], s);
      DotScaleLeft(u[..n], v[..n], s);
    }
  }

  lemma NormSquaredScale(v: Vec, s: real)
    ensures NormSquared(Scale(v, s)) == s * s * NormSquared(v)
  {
    var sv := Scale(v, s);
    DotScaleLeft(v, sv, s);
    DotSymmetric(v, sv);
    DotScaleLeft(v, v, s);
  }

  /**
    The squared norm is never negative, and it is zero on the zero vector,
    so a real square root of it always exists.
   */
  lemma {:induction false} NormSquaredNonNegative(v: Vec)
    ensures NormSquared(v) >= 0.0
    ensures v == Zero(|v|) ==> NormSquared(v) == 0.0
    decreases |v|
  {
    if v == Zero(|v|) {
      DotOfZeroLeft(v, v);
    } else {
      var n := |v| - 1;
      NormSquaredNonNegative(v[..n]);
      assert NormSquared(v) == NormSquared(v[..n]) + v[n] * v[n];
    }
  }
}

/**
  Positions and parametric rays: `Point3D`, its translation by a `Vec3D`,
  and `Ray::at`.
 */
module Rays {
  import opened Vec3

  /** A position in space; `Point3D::new` is the constructor. */
  datatype Point3D = Point3D(x: real, y: real, z: real)

  /** `p + v`: the point `p` moved by the displacement `v`. */
  function Translate(p: Point3D, v: Vec3D): (q: Point3D)
    ensures q.x - p.x == X(v) && q.y - p.y == Y(v) && q.z - p.z == Z(v)
  {
    Point3D(p.x + X(v), p.y + Y(v), p.z + Z(v))
  }

  /** A ray from `origin` along `direction`; `Ray::new` is the constructor. */
  datatype Ray = Ray(origin: Point3D, direction: Vec3D)

  /**
    The point at parameter `t` along the ray: the origin translated by the
    direction scaled by `t`. Any real `t` is allowed, negative ones included.
   */
  function At(ray: Ray, t: real): (p: Point3D)
    ensures p.x == ray.origin.x + t * X(ray.direction)
    ensures p.y == ray.origin.y + t * Y(ray.direction)
    ensures p.z == ray.origin.z + t * Z(ray.direction)
  {
    Translate(ray.origin, MulScalar(ray.direction, t))
  }

  /** Translating by the zero vector leaves a point where it is. */
  lemma TranslateByZero(p: Point3D)
    ensures Translate(p, ZeroVec()) == p
  {
  }

  /** Two translations in a row are one translation by the sum. */
  lemma TranslateTwice(p: Point3D, u: Vec3D, v: Vec3D)
    ensures Translate(Translate(p, u), v) == Translate(p, Add(u, v))
  {
  }

  /** Different displacements move a point to different places. */
  lemma TranslateInjective(p: Point3D, u: Vec3D, v: Vec3D)
    ensures Translate(p, u) == Translate(p, v) ==> u == v
  {
    if Translate(p, u) == Translate(p, v) {
      assert u == [X(u), Y(u), Z(u)];
      assert v == [X(v), Y(v), Z(v)];
    }
  }

  lemma CancelNonZero(a: real, b: real)
    requires b != 0.0 && a * b == 0.0
    ensures a == 0.0
  {
    assert a == (a * b) / b;
  }

  lemma AtZeroIsOrigin(ray: Ray)
    ensures At(ray, 0.0) == ray.origin
  {
  }

  /** Walking `s` and then `t` along the ray is walking `s + t`. */
  lemma AtAdditive(ray: Ray, s: real, t: real)
    ensures At(ray, s + t) == Translate(At(ray, s), MulScalar(ray.direction, t))
  {
  }

  /** A ray with a non-zero direction visits each of its points only once. */
  lemma AtInjective(ray: Ray, s: real, t: real)
    requires ray.direction != ZeroVec()
    ensures At(ray, s) == At(ray, t) ==> s == t
  {
    var d := ray.direction;
    if At(ray, s) == At(ray, t) {
      assert (s - t) * X(d) == 0.0 && (s - t) * Y(d) == 0.0 && (s - t) * Z(d) == 0.0;
      if X(d) != 0.0 {
        CancelNonZero(s - t, X(d));
      } else if Y(d) != 0.0 {
        CancelNonZero(s - t, Y(d));
      } else {
        assert d == [X(d), Y(d), Z(d)];
        CancelNonZero(s - t, Z(d));
      }
    }
  }
}

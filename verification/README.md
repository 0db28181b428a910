# Vector algebra and PPM image buffer of a Rust ray tracer, in Dafny

This project models the numeric and image-buffer core of a small ray tracer
written in Rust (`ray-tracing-rust`):

- **Vector algebra.** The `Vector<D, F>` trait supplies default methods over
  an abstract scalar `Field`: zero, unit basis vectors, scale, dot product,
  squared norm, `from_iter` and component-wise combinators. `Vec3D` is its
  one concrete instance. It adds `x`/`y`/`z`, `cross`, and the `+`, `-`, `*`
  (vector and scalar) and `/` (scalar) operators. Scalars are Dafny `real`,
  so properties the Rust tests check up to an epsilon hold exactly here. A
  vector is a `seq<real>` of its components in basis order. `Vec3D` is the
  subset type of sequences of length 3.
- **Points and rays.** `Point3D` is a datatype whose constructor plays the
  part of `Point3D::new`. `Point3D + Vec3D` is `Translate`. `Ray` is a
  datatype (its constructor is `Ray::new`), and `Ray::at` is `At`.
- **Pixels.** `Pixel` is a triple of `Byte`s (the range of `u8`), so every
  channel lies in [0, 255] by its type. The constructor is `Pixel::new` and
  `DefaultPixel` is the derived `Default`. `Display` is the decimal line
  `"r g b\n"`.
- **Image buffer.** `Image` carries the const-generic `WIDTH` and `HEIGHT` as
  fields and the rows of pixels as `seq<seq<Pixel>>`. `WellShaped` is the
  shape invariant. `Default`, `Get` (`Index`), `Set` (`IndexMut` followed by
  an assignment), `Flatten` (`IntoIterator`) and `Render` (`Display`) model
  the buffer. The gradient fixture `generate_red_green_scan` is a method with
  nested loops, as in the source. `ImageCoordinate` is the pair `Coord(x, y)`.

Modules follow the source files: `Vector` and `Vec3` (`vec3d/vector.rs`),
`Rays` (`vec3d/ray.rs`), `Color` (`color/color.rs`) and `ImageBuffer`
(`image/image.rs`). `Text` holds the decimal rendering used by Rust's `{}`
formatter and the joining of newline-terminated lines.

The rendering is stated line by line. `RenderLineByLine` holds for ANY way of
cutting the output into newline-free, newline-terminated lines. There are
always `W*H + 2` such lines: the header `P3 W H 255`, an empty line, and then
the fields of the pixel at `(k % W, k / W)` for each row-major position `k`.
`JoinLinesInjective` is what makes that decomposition unique.

## Model

| member | source | states |
|---|---|---|
| Vector.ComponentWiseBinary | ray-tracing-rust/src/vec3d/vector.rs:95-103 | the result has the operands' dimension, and component `i` is `op` applied to both operands' component `i` |
| Vector.ComponentWiseUnary | ray-tracing-rust/src/vec3d/vector.rs:105-111 | the result has the operand's dimension, and component `i` is `op` of component `i` |
| Vector.Zero | ray-tracing-rust/src/vec3d/vector.rs:39-44 | exactly `d` components, every one the field's zero |
| Vector.Unit | ray-tracing-rust/src/vec3d/vector.rs:46-53 | needs `i < d`; `d` components, one at `i`, zero everywhere else |
| Vector.Scale | ray-tracing-rust/src/vec3d/vector.rs:55-60 | same dimension; every component multiplied by the scalar |
| Vector.FromIter | ray-tracing-rust/src/vec3d/vector.rs:82-93 | needs at least `d` items; the vector is exactly the first `d` items in order |
| Vector.FromIterOfComponents | ray-tracing-rust/src/vec3d/vector.rs:82-93 | collecting a vector's components followed by any extra items gives the vector back |
| Vector.Dot | ray-tracing-rust/src/vec3d/vector.rs:62-69 | definition: the sum of the products of corresponding components, accumulated from the first index; characterised by DotUnitLeft, UnitOrthonormal, DotSymmetric, DotScaleLeft and Vec3.DotExpanded |
| Vector.NormSquared | ray-tracing-rust/src/vec3d/vector.rs:71-76 | definition: the dot product of a vector with itself; characterised by NormSquaredScale and NormSquaredNonNegative |
| Vector.DotUnitLeft | ray-tracing-rust/src/vec3d/vector.rs:62-69 | the dot product with basis vector `i` reads component `i` |
| Vector.UnitOrthonormal | ray-tracing-rust/src/vec3d/vector.rs:46-69 | basis vectors `i` and `j` have dot product 1 when `i == j` and 0 otherwise |
| Vector.DotSymmetric | ray-tracing-rust/src/vec3d/vector.rs:62-69 | the dot product does not depend on the order of its operands |
| Vector.DotScaleLeft | ray-tracing-rust/src/vec3d/vector.rs:55-69 | scaling the left operand by `s` scales the dot product by `s` |
| Vector.NormSquaredScale | ray-tracing-rust/src/vec3d/vector.rs:55-76 | the squared norm of `v` scaled by `s` is `s*s` times the squared norm of `v` |
| Vector.NormSquaredNonNegative | ray-tracing-rust/src/vec3d/vector.rs:71-76 | the squared norm is never negative and is zero for the zero vector |
| Vec3.New | ray-tracing-rust/src/vec3d/vector.rs:163-168 | the accessors `x`, `y`, `z` read back the three components passed in |
| Vec3.X | ray-tracing-rust/src/vec3d/vector.rs:134-136 | definition: component 0; characterised by Vec3.New, Vec3.Index and Vec3.BasisDecomposition |
| Vec3.Y | ray-tracing-rust/src/vec3d/vector.rs:138-140 | definition: component 1; characterised by Vec3.New, Vec3.Index and Vec3.BasisDecomposition |
| Vec3.Z | ray-tracing-rust/src/vec3d/vector.rs:142-144 | definition: component 2; characterised by Vec3.New, Vec3.Index and Vec3.BasisDecomposition |
| Vec3.Index | ray-tracing-rust/src/vec3d/vector.rs:178-183 | needs an index below 3, the only ones that do not panic; indices 0, 1, 2 read the same components as `x`, `y`, `z` |
| Vec3.Cross | ray-tracing-rust/src/vec3d/vector.rs:146-155 | definition: the right-handed cross product, term for term; characterised by CrossOrthogonal, CrossAntiCommutative, CrossSelfIsZero and CrossOfUnits |
| Vec3.IsNorm | ray-tracing-rust/src/vec3d/vector.rs:170-175 | specification of `norm`: `r` is non-negative and its square is the squared norm; used by NormOfUnitIsOne |
| Vec3.Add | ray-tracing-rust/src/vec3d/vector.rs:191-196 | `(u + v)[i] == u[i] + v[i]` for every component |
| Vec3.Sub | ray-tracing-rust/src/vec3d/vector.rs:198-203 | `(u - v)[i] == u[i] - v[i]` for every component |
| Vec3.Mul | ray-tracing-rust/src/vec3d/vector.rs:205-210 | vector times vector is the component-wise product |
| Vec3.MulScalar | ray-tracing-rust/src/vec3d/vector.rs:212-217 | `(v * f)[i] == v[i] * f` for every component |
| Vec3.DivScalar | ray-tracing-rust/src/vec3d/vector.rs:219-224 | for a non-zero `f`, `(v / f)[i] == v[i] / f` for every component |
| Vec3.SubUndoesAdd | ray-tracing-rust/src/vec3d/vector.rs:191-203 | `(u + v) - v == u` |
| Vec3.DivUndoesMulScalar | ray-tracing-rust/src/vec3d/vector.rs:212-224 | `(v * f) / f == v` for a non-zero `f` |
| Vec3.AddSelfDoubles | ray-tracing-rust/src/vec3d/vector.rs:191-217 | `v + v == v * 2` |
| Vec3.BasisDecomposition | ray-tracing-rust/src/vec3d/vector.rs:134-144 | every vector is `x·e0 + y·e1 + z·e2` for its accessors `x`, `y`, `z` |
| Vec3.DotExpanded | ray-tracing-rust/src/vec3d/vector.rs:62-69 | for 3-D vectors the dot product is `u0*v0 + u1*v1 + u2*v2` |
| Vec3.DotIsSumOfMul | ray-tracing-rust/src/vec3d/vector.rs:205-210 | the dot product is the sum of the components of the component-wise product |
| Vec3.CrossAntiCommutative | ray-tracing-rust/src/vec3d/vector.rs:146-155 | `u × v` equals `v × u` scaled by -1 |
| Vec3.CrossSelfIsZero | ray-tracing-rust/src/vec3d/vector.rs:146-155 | `u × u` is the zero vector |
| Vec3.CrossOrthogonal | ray-tracing-rust/src/vec3d/vector.rs:146-155 | `u × v` has dot product 0 with both `u` and `v` |
| Vec3.CrossOfUnits | ray-tracing-rust/src/vec3d/vector.rs:146-155 | the basis is right-handed: `e_d × e_(d+1 mod 3) == e_(d+2 mod 3)` |
| Vec3.DotOfOrthogonalUnits | ray-tracing-rust/src/vec3d/vector.rs:303-314 | `e_d · e_(d+1 mod 3) == 0` and `e_d · e_d == 1` for every `d < 3` |
| Vec3.NormOfUnitIsOne | ray-tracing-rust/src/vec3d/vector.rs:170-175 | a non-negative `r` squares to the squared norm of a basis vector exactly when `r == 1` |
| Vec3.NormSquaredOfDoubledUnit | ray-tracing-rust/src/vec3d/vector.rs:322-326 | `e_d + e_d` has squared norm 4 |
| Rays.Translate | ray-tracing-rust/src/vec3d/ray.rs:17-22 | `p + v` differs from `p` by exactly `v` in each coordinate |
| Rays.TranslateByZero | ray-tracing-rust/src/vec3d/ray.rs:17-22 | translating by the zero vector leaves the point unchanged |
| Rays.TranslateTwice | ray-tracing-rust/src/vec3d/ray.rs:17-22 | `(p + u) + v == p + (u + v)` |
| Rays.TranslateInjective | ray-tracing-rust/src/vec3d/ray.rs:17-22 | different displacements move a point to different places |
| Rays.At | ray-tracing-rust/src/vec3d/ray.rs:34-36 | for every real `t`, negative ones included, each coordinate of `at(t)` is `origin + t * direction` |
| Rays.AtZeroIsOrigin | ray-tracing-rust/src/vec3d/ray.rs:34-36 | `at(0)` is the origin |
| Rays.AtAdditive | ray-tracing-rust/src/vec3d/ray.rs:34-36 | `at(s + t)` is `at(s)` translated by `direction * t` |
| Rays.AtInjective | ray-tracing-rust/src/vec3d/ray.rs:34-36 | with a non-zero direction, distinct parameters give distinct points |
| Text.Decimal | ray-tracing-rust/src/color/color.rs:18 | one to three digits for numbers below 1000, only digits, no leading zero |
| Text.DecimalRoundTrip | ray-tracing-rust/src/color/color.rs:18 | reading the decimal rendering back gives the number |
| Text.JoinLinesInjective | ray-tracing-rust/src/image/image.rs:41-51 | newline-free lines each followed by a newline can be recovered from their concatenation |
| Color.Fields | ray-tracing-rust/src/color/color.rs:16-20 | the rendered line holds no newline and is 5 to 11 characters long |
| Color.Display | ray-tracing-rust/src/color/color.rs:16-20 | definition: the fields followed by a newline; characterised by DisplayInjective and DisplayOfDefault |
| Color.DisplayInjective | ray-tracing-rust/src/color/color.rs:16-20 | distinct pixels render to distinct lines |
| Color.FieldsInjective | ray-tracing-rust/src/color/color.rs:16-20 | distinct pixels have distinct `"r g b"` fields |
| Color.DisplayOfDefault | ray-tracing-rust/src/color/color.rs:3-19 | the default pixel renders as `0 0 0` and a newline |
| ImageBuffer.Get | ray-tracing-rust/src/image/image.rs:62-67 | needs `x < W` and `y < H`; the pixel read is item `y*W + x` of the row-major iteration |
| ImageBuffer.Default | ray-tracing-rust/src/image/image.rs:53-60 | `H` rows of `W` pixels, and every in-range pixel is `(0,0,0)` |
| ImageBuffer.Set | ray-tracing-rust/src/image/image.rs:69-73 | the shape is kept, the written coordinate holds the new pixel, and every other pixel is unchanged |
| ImageBuffer.SetOfGetIsIdentity | ray-tracing-rust/src/image/image.rs:62-73 | writing back the pixel just read leaves the image unchanged |
| ImageBuffer.SetTwice | ray-tracing-rust/src/image/image.rs:69-73 | a second write to a coordinate overrides the first |
| ImageBuffer.FlattenRows | ray-tracing-rust/src/image/image.rs:75-85 | `H` rows of `W` pixels flatten to exactly `H*W` pixels |
| ImageBuffer.FlattenRowsAt | ray-tracing-rust/src/image/image.rs:75-85 | row `y`, column `x` of the rows lands at position `y*W + x` of the flattening |
| ImageBuffer.Flatten | ray-tracing-rust/src/image/image.rs:75-85 | the iteration yields exactly `W*H` pixels |
| ImageBuffer.FlattenRowMajor | ray-tracing-rust/src/image/image.rs:75-85 | item `k` of the iteration is the pixel at `(k % W, k / W)` |
| ImageBuffer.FlattenInjective | ray-tracing-rust/src/image/image.rs:75-85 | two images of the same dimensions with the same iteration are equal |
| ImageBuffer.Header | ray-tracing-rust/src/image/image.rs:43 | definition: `P3`, the width, the height and `255`, separated by spaces; its line position is stated by RenderLineByLine |
| ImageBuffer.Render | ray-tracing-rust/src/image/image.rs:41-51 | definition: the header line, a blank line, then every pixel's line in row-major order; characterised by RenderIsJoinOfLines, RenderLineByLine and RenderInjective |
| ImageBuffer.RenderIsJoinOfLines | ray-tracing-rust/src/image/image.rs:41-51 | the rendering is the header, an empty line and the pixel lines, each followed by a newline, none containing one |
| ImageBuffer.RenderLineByLine | ray-tracing-rust/src/image/image.rs:41-51 | the output has `W*H + 2` lines: `P3 W H 255`, an empty line, then line `k+2` renders the pixel at `(k % W, k / W)` |
| ImageBuffer.RenderInjective | ray-tracing-rust/src/image/image.rs:41-51 | two images of the same dimensions with the same rendering are equal |
| ImageBuffer.PpmScale | ray-tracing-rust/src/image/image.rs:16-23 | needs `dim >= 1`; coordinate 0 scales to 0 (for `dim == 1` through the NaN cast), and every positive coordinate from `dim - 1` on saturates to 255 |
| ImageBuffer.PpmScaleMonotone | ray-tracing-rust/src/image/image.rs:16-23 | the scale never decreases as the coordinate grows |
| ImageBuffer.GenerateRedGreenScan | ray-tracing-rust/src/image/image.rs:25-38 | for `W, H >= 1`, the image is well shaped and pixel `(x, y)` is `(scale_x(x), scale_y(y), 0)` |
| ImageBuffer.TwoByTwoPixels | ray-tracing-rust/src/image/image.rs:16-38 | the 2×2 scan iterates as black, red, green, yellow |
| ImageBuffer.RedGreenScanTwoByTwo | ray-tracing-rust/src/image/image.rs:16-51 | the 2×2 scan renders to exactly `P3 2 2 255`, an empty line, `0 0 0`, `255 0 0`, `0 255 0`, `255 255 0` |

## Left out

- The `Field` trait: scalars are `real`. `zero()` and `one()` are the literals `0.0` and `1.0`, and `Field::equals` is `==`. IEEE-754 behaviour of the `f64` instance is not modelled: rounding, NaN, infinities and signed zero. The epsilon comparison the tests use is not needed, because the real-valued laws hold exactly.
- Vec3.DivScalar: requires a non-zero divisor. The source performs no check, and dividing by `0.0` in `f64` yields infinities or NaN. Those values have no counterpart among the reals.
- `norm`: it needs `f64::sqrt`, which is outside the field. `Vec3.IsNorm(v, r)` specifies it as the non-negative `r` whose square is the squared norm. `NormOfUnitIsOne` states the unit-norm test in those terms. Existence of the root is not proved.
- `Vector::component`, `Vec3D::index` and `x`/`y`/`z` are plain sequence indexing. An out-of-range index panics in the source; here it is excluded by the index's precondition or by the length-3 type.
- The `-(b.cross(a))` of the anti-commutativity law is written as scaling by -1, because `Vec3D` has no `Neg` implementation.
- ImageBuffer.PpmScale: for `dim >= 2` uses the exact rational `min(255, floor(256*v / (dim-1)))`. The source computes `x as f64 * (256.0 / (dim-1))` in floating point, which can fall one unit below the exact floor for interior coordinates. Only the endpoint, monotonicity and 2×2 facts are stated. For `dim == 1` the model gives the outcomes the expression gives under IEEE-754: `0.0 * inf` is NaN and casts to 0, and a positive coordinate times infinity saturates to 255. The source only ever calls the scale with coordinates below the dimension, so for `dim == 1` only the 0 case is reached. `dim == 0` is excluded because `dim - 1` underflows in constant evaluation, so the scale and the generator do not compile for it. `Default`, `Render` and the iteration do compile for a zero dimension and are modelled for it.
- ImageBuffer.GenerateRedGreenScan: requires both dimensions to be at least 1. A zero dimension makes `WIDTH - 1` or `HEIGHT - 1` underflow in the constant evaluation the scale needs, so the generator does not compile for it.
- `Display` is a pure function returning a string. The `fmt::Result` plumbing and the `.unwrap()` calls on writer errors are I/O. So is the whole of `main.rs`: file creation, `BufWriter`, `write!`.
- `IntoIterator` consumes the image and hands out a one-shot iterator. The model returns the sequence of items instead, so ownership transfer is not modelled.
- The proptest `Arbitrary` strategy and the trait and const-generic plumbing (`Sum`, `FromIterator` forwarding, trait bounds) are not modelled. `Vec3D`'s `FromIterator` forwards to `Vector.FromIter`.

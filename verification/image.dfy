/**
  The fixed-size pixel buffer `Image<WIDTH, HEIGHT>`: coordinate reads and
  writes, row-major flattening, the plain-text PPM ("P3") rendering, and the
  red/green gradient fixture.
 */
module ImageBuffer {
  import opened Text
  import opened Color

  /** `ImageCoordinate`: column `x` and row `y`. */
  datatype Coord = Coord(x: nat, y: nat)

  /**
    `Image<WIDTH, HEIGHT>`: the two const generic dimensions and the rows of
    pixels, `pixels[y][x]` being the pixel in column `x` of row `y`.
   */
  datatype Image = Image(width: nat, height: nat, pixels: seq<seq<Pixel>>)

  /** The shape invariant: `height` rows of `width` pixels each. */
  predicate WellShaped(img: Image) {
    && |img.pixels| == img.height
    && forall y :: 0 <= y < |img.pixels| ==> |img.pixels[y]| == img.width
  }

  predicate InBounds(img: Image, c: Coord) {
    c.x < img.width && c.y < img.height
  }

  /**
    `Index`: the pixel at `c`, which is also item `y * width + x` of the
    row-major iteration. An out-of-range coordinate panics in the source.
   */
  function Get(img: Image, c: Coord): (p: Pixel)
    requires WellShaped(img) && InBounds(img, c)
    ensures c.y * img.width + c.x < |Flatten(img)| && p == Flatten(img)[c.y * img.width + c.x]
  {
    FlattenRowsAt(img.pixels, img.width, c.y, c.x);
    img.pixels[c.y][c.x]
  }

  /** The derived `Default`: `height` rows of `width` black pixels. */
  function Default(w: nat, h: nat): (img: Image)
    ensures WellShaped(img) && img.width == w && img.height == h
    ensures forall c :: InBounds(img, c) ==> Get(img, c) == DefaultPixel
  {
    Image(w, h, seq(h, _ => seq(w, _ => DefaultPixel)))
  }

  /**
    A write through `IndexMut` at `c`: the pixel at `c` becomes `p`, the
    shape is kept and every other pixel is left as it was.
   */
  function Set(img: Image, c: Coord, p: Pixel): (r: Image)
    requires WellShaped(img) && InBounds(img, c)
    ensures WellShaped(r) && r.width == img.width && r.height == img.height
    ensures Get(r, c) == p
    ensures forall c' :: InBounds(img, c') && c' != c ==> Get(r, c') == Get(img, c')
  {
    img.(pixels := img.pixels[c.y := img.pixels[c.y][c.x := p]])
  }

  /** Writing back the pixel just read changes nothing. */
  lemma SetOfGetIsIdentity(img: Image, c: Coord)
    requires WellShaped(img) && InBounds(img, c)
    ensures Set(img, c, Get(img, c)) == img
  {
    assert img.pixels[c.y][c.x := Get(img, c)] == img.pixels[c.y];
    assert img.pixels[c.y := img.pixels[c.y]] == img.pixels;
  }

  /** A second write to the same coordinate overrides the first. */
  lemma SetTwice(img: Image, c: Coord, p: Pixel, q: Pixel)
    requires WellShaped(img) && InBounds(img, c)
    ensures Set(Set(img, c, p), c, q) == Set(img, c, q)
  {
    var once := Set(img, c, p);
    assert once.pixels[c.y][c.x := q] == img.pixels[c.y][c.x := q];
  }

  /** Rows concatenated in order, as `into_iter().flatten()` yields them. */
  function FlattenRows(rows: seq<seq<Pixel>>, w: nat): (flat: seq<Pixel>)
    requires forall y :: 0 <= y < |rows| ==> |rows[y]| == w
    ensures |flat| == |rows| * w
    decreases |rows|
  {
    if |rows| == 0 then []
    else
      rows[0] + FlattenRows(rows[1..], w)
  }

  /** Column `x` of row `y` lands at position `y * w + x` of the flattening. */
  lemma {:induction false} FlattenRowsAt(rows: seq<seq<Pixel>>, w: nat, y: nat, x: nat)
    requires forall y' :: 0 <= y' < |rows| ==> |rows[y']| == w
    requires y < |rows| && x < w
    ensures y * w + x < |FlattenRows(rows, w)|
    ensures FlattenRows(rows, w)[y * w + x] == rows[y][x]
    decreases y
  {
    var rest := FlattenRows(rows[1..], w);
    assert FlattenRows(rows, w) == rows[0] + rest;
    if y > 0 {
      FlattenRowsAt(rows[1..], w, y - 1, x);
      assert y * w + x == w + ((y - 1) * w + x);
    }
  }

  /** `IntoIterator`: every pixel of the image, row after row. */
  function Flatten(img: Image): (flat: seq<Pixel>)
    requires WellShaped(img)
    ensures |flat| == img.width * img.height
  {
    FlattenRows(img.pixels, img.width)
  }

  /** The coordinate of row-major position `k` in rows of `w` pixels. */
  function PositionOf(k: nat, w: nat): Coord
    requires w > 0
  {
    Coord(k % w, k / w)
  }

  /** A position before `w * h` lies inside a `w` by `h` grid and names its own index. */
  lemma RowMajorPosition(k: nat, w: nat, h: nat)
    requires k < w * h
    ensures 0 < w && PositionOf(k, w).x < w && PositionOf(k, w).y < h
    ensures PositionOf(k, w).y * w + PositionOf(k, w).x == k
  {
    if k / w >= h {
      MulMonotone(h, k / w, w);
    }
  }

  lemma MulMonotone(a: nat, b: nat, c: nat)
    requires a <= b
    ensures a * c <= b * c
  {
  }

  /** Item `k` of the flattened image is the pixel in column `k % w` of row `k / w`. */
  lemma FlattenRowMajor(img: Image)
    requires WellShaped(img)
    ensures |Flatten(img)| > 0 ==> img.width > 0
    ensures forall k :: 0 <= k < |Flatten(img)| ==>
              InBounds(img, PositionOf(k, img.width)) &&
              Flatten(img)[k] == Get(img, PositionOf(k, img.width))
  {
    if |Flatten(img)| > 0 {
      RowMajorPosition(0, img.width, img.height);
    }
    forall k | 0 <= k < |Flatten(img)|
      ensures InBounds(img, PositionOf(k, img.width))
      ensures Flatten(img)[k] == Get(img, PositionOf(k, img.width))
    {
      RowMajorPosition(k, img.width, img.height);
      var pos := PositionOf(k, img.width);
      assert Flatten(img)[pos.y * img.width + pos.x] == Get(img, pos);
    }
  }

  /** The header line: format tag, width, height and the maximum channel value. */
  function Header(w: nat, h: nat): string
  {
    "P3 " + Decimal(w) + " " + Decimal(h) + " 255"
  }

  /** The `Display` renderings of the pixels, concatenated. */
  function DisplayAll(ps: seq<Pixel>): string
  {
    if |ps| == 0 then "" else Display(ps[0]) + DisplayAll(ps[1..])
  }

  /**
    The `Display` of the image: the header written with `writeln!` after a
    format string that already ends in a newline, so a blank line follows
    it; then every pixel's line in row-major order.
   */
  function Render(img: Image): string
    requires WellShaped(img)
  {
    Header(img.width, img.height) + "\n" + "\n" + DisplayAll(Flatten(img))
  }

  /** The lines of the rendering, without their newline characters. */
  function RenderedLines(img: Image): seq<string>
    requires WellShaped(img)
  {
    [Header(img.width, img.height), ""] + PixelLines(Flatten(img))
  }

  function PixelLines(ps: seq<Pixel>): (lines: seq<string>)
    ensures |lines| == |ps|
    ensures forall i :: 0 <= i < |ps| ==> lines[i] == Fields(ps[i])
  {
    seq(|ps|, i requires 0 <= i < |ps| => Fields(ps[i]))
  }

  lemma {:induction false} DisplayAllIsJoin(ps: seq<Pixel>)
    ensures DisplayAll(ps) == JoinLines(PixelLines(ps))
    decreases |ps|
  {
    if |ps| > 0 {
      DisplayAllIsJoin(ps[1..]);
      assert PixelLines(ps)[1..] == PixelLines(ps[1..]);
    }
  }

  /** The rendering is its lines, each terminated by a newline. */
  lemma RenderIsJoinOfLines(img: Image)
    requires WellShaped(img)
    ensures NewlineFree(RenderedLines(img))
    ensures Render(img) == JoinLines(RenderedLines(img))
  {
    var flat := Flatten(img);
    var header := Header(img.width, img.height);
    var body := PixelLines(flat);
    DisplayAllIsJoin(flat);
    JoinLinesAppend([header, ""], body);
    assert [header, ""][1..] == [""];
    assert JoinLines([""]) == "\n";
    assert JoinLines([header, ""]) == header + "\n" + "\n";
    DecimalExcludes(img.width, '\n');
    DecimalExcludes(img.height, '\n');
    assert '\n' !in header;
  }

  /**
    Line by line: however the rendering is cut into newline-terminated lines,
    there are `width * height + 2` of them: the header
    `P3 <width> <height> 255`, a blank line, and then, for each row-major
    position `k`, the fields of the pixel in column `k % width` of row
    `k / width`.
   */
  lemma RenderLineByLine(img: Image, lines: seq<string>)
    requires WellShaped(img)
    requires NewlineFree(lines) && JoinLines(lines) == Render(img)
    ensures |lines| == img.width * img.height + 2
    ensures lines[0] == "P3 " + Decimal(img.width) + " " + Decimal(img.height) + " 255"
    ensures lines[1] == ""
    ensures |lines| > 2 ==> img.width > 0
    ensures forall k :: 2 <= k < |lines| ==>
              InBounds(img, PositionOf(k - 2, img.width)) &&
              lines[k] == Fields(Get(img, PositionOf(k - 2, img.width)))
  {
    RenderIsJoinOfLines(img);
    JoinLinesInjective(lines, RenderedLines(img));
    FlattenRowMajor(img);
    var w := img.width;
    forall k | 2 <= k < |lines|
      ensures InBounds(img, PositionOf(k - 2, w)) &&
              lines[k] == Fields(Get(img, PositionOf(k - 2, w)))
    {
      assert lines[k] == Fields(Flatten(img)[k - 2]);
    }
  }

  /** Two images of the same dimensions with the same rendering are the same image. */
  lemma RenderInjective(a: Image, b: Image)
    requires WellShaped(a) && WellShaped(b)
    requires a.width == b.width && a.height == b.height
    requires Render(a) == Render(b)
    ensures a == b
  {
    RenderIsJoinOfLines(a);
    RenderIsJoinOfLines(b);
    JoinLinesInjective(RenderedLines(a), RenderedLines(b));
    var fa, fb := Flatten(a), Flatten(b);
    assert PixelLines(fa) == RenderedLines(a)[2..] == RenderedLines(b)[2..] == PixelLines(fb);
    forall k | 0 <= k < |fa|
      ensures fa[k] == fb[k]
    {
      FieldsInjective(fa[k], fb[k]);
    }
    FlattenInjective(a, b);
  }

  /** An image is determined by its dimensions and its row-major pixels. */
  lemma FlattenInjective(a: Image, b: Image)
    requires WellShaped(a) && WellShaped(b)
    requires a.width == b.width && a.height == b.height
    requires Flatten(a) == Flatten(b)
    ensures a == b
  {
    forall y | 0 <= y < a.height
      ensures a.pixels[y] == b.pixels[y]
    {
      forall x | 0 <= x < a.width
        ensures a.pixels[y][x] == b.pixels[y][x]
      {
        assert Get(a, Coord(x, y)) == Get(b, Coord(x, y));
      }
    }
  }

  /**
    `ppm_scale_x` / `ppm_scale_y`: a coordinate times `256 / (dim - 1)`, cast
    to `u8`, which truncates and saturates at 255. For `dim >= 2` the scaling
    is exact here (see the README). For `dim == 1` the ratio is `256.0 / 0.0`,
    positive infinity: coordinate 0 gives `0.0 * inf`, a NaN, which the cast
    turns into 0, and any other coordinate gives infinity, which saturates to
    255 (the generator only reaches coordinate 0 then). A `dim` of 0 makes
    `dim - 1` underflow in constant evaluation, so the scale does not compile
    for it.
   */
  function PpmScale(v: nat, dim: nat): (c: Byte)
    requires dim >= 1
    ensures v == 0 ==> c == 0
    ensures v > 0 && v >= dim - 1 ==> c == 255
  {
    if dim == 1 then
      if v == 0 then 0 else 255
    else
      var exact := 256 * v / (dim - 1);
      RatioReachesFull(v, dim - 1);
      if exact > 255 then 255 else exact
  }

  /** From coordinate `d` on, `256 * v / d` is at least 256, so the cast saturates. */
  lemma RatioReachesFull(v: nat, d: nat)
    requires d > 0
    ensures v >= d ==> 256 * v / d >= 256
  {
    if v >= d {
      DivAtLeast(256 * v, d, 256);
    }
  }

  lemma DivAtLeast(a: nat, b: nat, q: nat)
    requires b > 0 && a >= q * b
    ensures a / b >= q
  {
    if a / b < q {
      MulMonotone(a / b + 1, q, b);
    }
  }

  /** The scale never decreases as the coordinate grows. */
  lemma PpmScaleMonotone(u: nat, v: nat, dim: nat)
    requires dim >= 1 && u <= v
    ensures PpmScale(u, dim) <= PpmScale(v, dim)
  {
    if 0 < u && v < dim - 1 {
      DivMonotone(256 * u, 256 * v, dim - 1);
    }
  }

  lemma DivMonotone(a: nat, b: nat, d: nat)
    requires d > 0 && a <= b
    ensures a / d <= b / d
  {
    if a / d > b / d {
      MulMonotone(b / d + 1, a / d, d);
    }
  }

  /** The gradient fixture's pixel at column `x` of row `y`. */
  function Gradient(x: nat, y: nat, w: nat, h: nat): Pixel
    requires w >= 1 && h >= 1
  {
    Pixel(PpmScale(x, w), PpmScale(y, h), 0)
  }

  /**
    `img` is the `w` by `h` red/green scan: red follows the column, green the
    row, blue is zero.
   */
  predicate IsRedGreenScan(img: Image, w: nat, h: nat) {
    && w >= 1 && h >= 1
    && WellShaped(img) && img.width == w && img.height == h
    && forall x, y :: 0 <= x < w && 0 <= y < h ==>
         Get(img, Coord(x, y)) == Gradient(x, y, w, h)
  }

  /**
    `generate_red_green_scan`: start from the default image and write every
    coordinate, row by row and column by column. The source evaluates
    `WIDTH - 1` and `HEIGHT - 1` in constant evaluation for the scale, so for
    a zero dimension the generator does not compile; every other dimension
    is accepted.
   */
  method GenerateRedGreenScan(w: nat, h: nat) returns (img: Image)
    requires w >= 1 && h >= 1
    ensures IsRedGreenScan(img, w, h)
  {
    img := Default(w, h);
    var y := 0;
    while y < h
      invariant 0 <= y <= h
      invariant WellShaped(img) && img.width == w && img.height == h
      invariant forall x', y' :: 0 <= x' < w && 0 <= y' < y ==>
                  Get(img, Coord(x', y')) == Gradient(x', y', w, h)
    {
      var x := 0;
      while x < w
        invariant 0 <= x <= w
        invariant WellShaped(img) && img.width == w && img.height == h
        invariant forall x', y' :: 0 <= x' < w && 0 <= y' < y ==>
                    Get(img, Coord(x', y')) == Gradient(x', y', w, h)
        invariant forall x' :: 0 <= x' < x ==>
                    Get(img, Coord(x', y)) == Gradient(x', y, w, h)
      {
        img := Set(img, Coord(x, y), Pixel(PpmScale(x, w), PpmScale(y, h), 0));
        x := x + 1;
      }
      y := y + 1;
    }
  }

  /**
    The 2 by 2 scan renders to exactly the header, a blank line and the
    pixels black, red, green, yellow.
   */
  lemma RedGreenScanTwoByTwo(img: Image)
    requires IsRedGreenScan(img, 2, 2)
    ensures Render(img) == "P3 2 2 255\n\n0 0 0\n255 0 0\n0 255 0\n255 255 0\n"
  {
    var black, red, green, yellow := Pixel(0, 0, 0), Pixel(255, 0, 0), Pixel(0, 255, 0), Pixel(255, 255, 0);
    TwoByTwoPixels(img);
    DisplayAllOfFour(black, red, green, yellow);
    TwoByTwoLines();
    assert Header(2, 2) == "P3 2 2 255";
    assert Render(img) == "P3 2 2 255" + "\n" + "\n" + ("0 0 0\n" + ("255 0 0\n" + ("0 255 0\n" + "255 255 0\n")));
    TwoByTwoConcatenation();
  }

  lemma TwoByTwoConcatenation()
    ensures "P3 2 2 255" + "\n" + "\n" + ("0 0 0\n" + ("255 0 0\n" + ("0 255 0\n" + "255 255 0\n")))
         == "P3 2 2 255\n\n0 0 0\n255 0 0\n0 255 0\n255 255 0\n"
  {
  }

  lemma TwoByTwoPixels(img: Image)
    requires IsRedGreenScan(img, 2, 2)
    ensures Flatten(img) == [Pixel(0, 0, 0), Pixel(255, 0, 0), Pixel(0, 255, 0), Pixel(255, 255, 0)]
  {
    assert Get(img, Coord(0, 0)) == Pixel(0, 0, 0);
    assert Get(img, Coord(1, 0)) == Pixel(255, 0, 0);
    assert Get(img, Coord(0, 1)) == Pixel(0, 255, 0);
    assert Get(img, Coord(1, 1)) == Pixel(255, 255, 0);
    assert img.pixels[0] == [Pixel(0, 0, 0), Pixel(255, 0, 0)];
    assert img.pixels[1] == [Pixel(0, 255, 0), Pixel(255, 255, 0)];
  }

  /** Four pixels display as their four lines, in order. */
  lemma DisplayAllOfFour(a: Pixel, b: Pixel, c: Pixel, d: Pixel)
    ensures DisplayAll([a, b, c, d]) == Display(a) + (Display(b) + (Display(c) + Display(d)))
  {
    assert [a, b, c, d][1..] == [b, c, d];
    assert DisplayAll([a, b, c, d]) == Display(a) + DisplayAll([b, c, d]);
    assert [b, c, d][1..] == [c, d];
    assert DisplayAll([b, c, d]) == Display(b) + DisplayAll([c, d]);
    assert [c, d][1..] == [d];
    assert DisplayAll([c, d]) == Display(c) + DisplayAll([d]);
    assert [d][1..] == [];
    assert DisplayAll([d]) == Display(d) + "";
  }

  /** The lines of the four colours of the 2 by 2 scan. */
  lemma TwoByTwoLines()
    ensures Display(Pixel(0, 0, 0)) == "0 0 0\n"
    ensures Display(Pixel(255, 0, 0)) == "255 0 0\n"
    ensures Display(Pixel(0, 255, 0)) == "0 255 0\n"
    ensures Display(Pixel(255, 255, 0)) == "255 255 0\n"
  {
    assert Decimal(255) == "255" by {
      assert Decimal(25) == "25";
    }
  }
}

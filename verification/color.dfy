/**
  An 8-bit-per-channel RGB pixel and its one-line text rendering.
 */
module Color {
  import opened Text

  /** The range of Rust's `u8`. */
  type Byte = n: nat | n < 256

  /**
    A pixel; `Pixel::new` is the constructor, which stores the three channels
    as given. Every channel lies in [0, 255] by its type.
   */
  datatype Pixel = Pixel(r: Byte, g: Byte, b: Byte)

  /** The derived `Default`: every channel zero, i.e. black. */
  const DefaultPixel: Pixel := Pixel(0, 0, 0)

  /**
    The text `writeln!` formats before its newline: the decimal red, green
    and blue channels separated by single spaces.
   */
  function Fields(p: Pixel): (s: string)
    ensures '\n' !in s
    ensures 5 <= |s| <= 11
  {
    Decimal(p.r) + [' '] + (Decimal(p.g) + [' '] + Decimal(p.b))
  }

  /** The `Display` rendering: the fields followed by a newline. */
  function Display(p: Pixel): string
  {
    Fields(p) + "\n"
  }

  /** Distinct pixels render to distinct lines. */
  lemma DisplayInjective(p: Pixel, q: Pixel)
    ensures Display(p) == Display(q) ==> p == q
  {
    if Display(p) == Display(q) {
      assert Fields(p) == Display(p)[..|Display(p)| - 1] == Fields(q);
      DecimalExcludes(p.r, ' ');
      DecimalExcludes(q.r, ' ');
      SplitAtSeparator(' ', Decimal(p.r), Decimal(p.g) + [' '] + Decimal(p.b),
                            Decimal(q.r), Decimal(q.g) + [' '] + Decimal(q.b));
      DecimalExcludes(p.g, ' ');
      DecimalExcludes(q.g, ' ');
      SplitAtSeparator(' ', Decimal(p.g), Decimal(p.b), Decimal(q.g), Decimal(q.b));
      DecimalInjective(p.r, q.r);
      DecimalInjective(p.g, q.g);
      DecimalInjective(p.b, q.b);
    }
  }

  lemma FieldsInjective(p: Pixel, q: Pixel)
    ensures Fields(p) == Fields(q) ==> p == q
  {
    DisplayInjective(p, q);
  }

  lemma DisplayOfDefault()
    ensures Display(DefaultPixel) == "0 0 0\n"
  {
  }
}

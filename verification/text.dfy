/**
  Text building blocks shared by the pixel and image renderers: the decimal
  rendering Rust's `{}` formatter gives an unsigned integer, and the joining
  of newline-terminated lines.
 */
module Text {

  predicate IsDigit(c: char) {
    '0' <= c <= '9'
  }

  predicate AllDigits(s: string) {
    forall i :: 0 <= i < |s| ==> IsDigit(s[i])
  }

  function DigitChar(d: nat): (c: char)
    requires d < 10
    ensures IsDigit(c)
  {
    (d + '0' as int) as char
  }

  function DigitValue(c: char): (d: nat)
    requires IsDigit(c)
    ensures d < 10
  {
    c as int - '0' as int
  }

  /** The decimal digits of `n`, most significant first, with no leading zero. */
  function Decimal(n: nat): (s: string)
    ensures 1 <= |s|
    ensures AllDigits(s)
    ensures |s| > 1 ==> s[0] != '0'
    ensures n < 100 ==> |s| <= 2
    ensures n < 1000 ==> |s| <= 3
    decreases n
  {
    if n < 10 then [DigitChar(n)] else Decimal(n / 10) + [DigitChar(n % 10)]
  }

  /** A character that is not a digit never occurs in a decimal rendering. */
  lemma DecimalExcludes(n: nat, c: char)
    requires !IsDigit(c)
    ensures c !in Decimal(n)
  {
    var s := Decimal(n);
    assert forall i :: 0 <= i < |s| ==> IsDigit(s[i]);
  }

  /** Reads a string of decimal digits back as a number. */
  function DecimalValue(s: string): nat
    requires AllDigits(s)
  {
    if |s| == 0 then 0 else DecimalValue(s[..|s| - 1]) * 10 + DigitValue(s[|s| - 1])
  }

  lemma {:induction false} DecimalRoundTrip(n: nat)
    ensures DecimalValue(Decimal(n)) == n
    decreases n
  {
    var s := Decimal(n);
    if n < 10 {
      assert s[..|s| - 1] == [];
    } else {
      DecimalRoundTrip(n / 10);
      assert s[..|s| - 1] == Decimal(n / 10);
    }
  }

  /** Distinct numbers have distinct decimal renderings. */
  lemma DecimalInjective(m: nat, n: nat)
    ensures Decimal(m) == Decimal(n) ==> m == n
  {
    DecimalRoundTrip(m);
    DecimalRoundTrip(n);
  }

  /**
    A field that does not contain the separator is recovered uniquely from
    the text `field + [sep] + rest`.
   */
  lemma SplitAtSeparator(sep: char, a1: string, r1: string, a2: string, r2: string)
    requires sep !in a1 && sep !in a2
    requires a1 + [sep] + r1 == a2 + [sep] + r2
    ensures a1 == a2 && r1 == r2
  {
    var s := a1 + [sep] + r1;
    assert |a1| == |a2| by {
      assert s[|a1|] == sep && s[|a2|] == sep;
    }
    assert a1 == s[..|a1|] == a2;
    assert r1 == s[|a1| + 1..] == r2;
  }

  /** Each line followed by a newline character, concatenated. */
  function JoinLines(lines: seq<string>): string
  {
    if |lines| == 0 then "" else lines[0] + "\n" + JoinLines(lines[1..])
  }

  predicate NewlineFree(lines: seq<string>) {
    forall i :: 0 <= i < |lines| ==> '\n' !in lines[i]
  }

  /** A text splits into newline-free, newline-terminated lines in only one way. */
  lemma {:induction false} JoinLinesInjective(a: seq<string>, b: seq<string>)
    requires NewlineFree(a) && NewlineFree(b)
    requires JoinLines(a) == JoinLines(b)
    ensures a == b
    decreases |a|
  {
    if |a| == 0 || |b| == 0 {
    } else {
      assert '\n' !in a[0] && '\n' !in b[0];
      assert a[0] + "\n" + JoinLines(a[1..]) == b[0] + "\n" + JoinLines(b[1..]);
      SplitAtSeparator('\n', a[0], JoinLines(a[1..]), b[0], JoinLines(b[1..]));
      assert NewlineFree(a[1..]) by {
        forall i | 0 <= i < |a[1..]| ensures '\n' !in a[1..][i] {
          assert a[1..][i] == a[i + 1];
        }
      }
      assert NewlineFree(b[1..]) by {
        forall i | 0 <= i < |b[1..]| ensures '\n' !in b[1..][i] {
          assert b[1..][i] == b[i + 1];
        }
      }
      JoinLinesInjective(a[1..], b[1..]);
      assert a == [a[0]] + a[1..];
      assert b == [b[0]] + b[1..];
    }
  }

  lemma {:induction false} JoinLinesAppend(a: seq<string>, b: seq<string>)
    ensures JoinLines(a + b) == JoinLines(a) + JoinLines(b)
    decreases |a|
  {
    if |a| == 0 {
      assert a + b == b;
    } else {
      assert (a + b)[1..] == a[1..] + b;
      JoinLinesAppend(a[1..], b);
    }
  }
}

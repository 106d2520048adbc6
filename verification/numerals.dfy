/**
 Decimal numerals as `{n:02d}` in Python and `%03d` in ffmpeg's output template
 write them for a non-negative integer: the shortest decimal form, padded
 on the left with zeros up to a minimum width.
 */
module Numerals {

  import opened Text

  predicate IsDigit(ch: char) {
    '0' <= ch <= '9'
  }

  predicate AllDigits(s: string) {
    forall i :: 0 <= i < |s| ==> IsDigit(s[i])
  }

  function DigitChar(d: nat): (ch: char)
    requires d < 10
    ensures IsDigit(ch)
    ensures DigitValue(ch) == d
  {
    ('0' as int + d) as char
  }

  function DigitValue(ch: char): nat
    requires IsDigit(ch)
  {
    ch as int - '0' as int
  }

  function Pow10(k: nat): (p: nat)
    ensures p >= 1
  {
    if k == 0 then 1 else 10 * Pow10(k - 1)
  }

  /** The shortest decimal representation of `n` (no leading zero unless n == 0). */
  function Decimal(n: nat): (s: string)
    ensures |s| >= 1 && AllDigits(s)
    ensures |s| > 1 ==> s[0] != '0'
  {
    if n < 10 then [DigitChar(n)] else Decimal(n / 10) + [DigitChar(n % 10)]
  }

  /** The number a string of decimal digits denotes (Horner's rule from the left). */
  function ValueOf(s: string): nat
    requires AllDigits(s)
  {
    if |s| == 0 then 0 else ValueOf(s[..|s| - 1]) * 10 + DigitValue(s[|s| - 1])
  }

  /** Left-pads `s` with '0' until it is at least `width` characters long. */
  function ZeroPad(s: string, width: nat): string
    decreases width - |s|
  {
    if |s| >= width then s else ZeroPad(['0'] + s, width)
  }

  /** Padding keeps `s` as the tail and fills the front with zeros up to `width`. */
  lemma {:induction false} ZeroPadShape(s: string, width: nat)
    ensures var r := ZeroPad(s, width);
      && |r| == (if |s| >= width then |s| else width)
      && r[|r| - |s|..] == s
      && forall i :: 0 <= i < |r| - |s| ==> r[i] == '0'
    decreases width - |s|
  {
    if |s| < width {
      ZeroPadShape(['0'] + s, width);
      var r := ZeroPad(s, width);
      assert r[|r| - |s| - 1..] == ['0'] + s;
      assert r[|r| - |s|..] == (['0'] + s)[1..];
    }
  }

  /** `n` formatted with a minimum field width, zero-filled: `{n:0wd}`. */
  function Padded(n: nat, width: nat): string {
    ZeroPad(Decimal(n), width)
  }

  /** A padded numeral is all digits and at least `width` (and one) characters long. */
  lemma PaddedDigits(n: nat, width: nat)
    ensures AllDigits(Padded(n, width))
    ensures |Padded(n, width)| >= width && |Padded(n, width)| >= 1
  {
    ZeroPadShape(Decimal(n), width);
    var d := Decimal(n);
    var r := Padded(n, width);
    forall i | 0 <= i < |r|
      ensures IsDigit(r[i])
    {
      if i >= |r| - |d| {
        assert r[i] == r[|r| - |d|..][i - (|r| - |d|)];
      }
    }
  }

  lemma {:induction false} ValueOfDecimal(n: nat)
    ensures ValueOf(Decimal(n)) == n
  {
    if n >= 10 {
      var s := Decimal(n);
      assert s[..|s| - 1] == Decimal(n / 10);
      ValueOfDecimal(n / 10);
    }
  }

  /** Leading zeros do not change the value of a numeral. */
  lemma {:induction false} ValueOfLeadingZero(s: string)
    requires AllDigits(s)
    ensures AllDigits(['0'] + s) && ValueOf(['0'] + s) == ValueOf(s)
  {
    if |s| > 0 {
      var t := ['0'] + s;
      assert t[..|t| - 1] == ['0'] + s[..|s| - 1];
      ValueOfLeadingZero(s[..|s| - 1]);
    }
  }

  lemma {:induction false} ValueOfZeroPad(s: string, width: nat)
    requires AllDigits(s)
    ensures AllDigits(ZeroPad(s, width)) && ValueOf(ZeroPad(s, width)) == ValueOf(s)
    decreases width - |s|
  {
    if |s| < width {
      ValueOfLeadingZero(s);
      ValueOfZeroPad(['0'] + s, width);
    }
  }

  /** Reading a padded numeral back gives the number that was formatted. */
  lemma PaddedRoundTrip(n: nat, width: nat)
    ensures AllDigits(Padded(n, width)) && ValueOf(Padded(n, width)) == n
  {
    ValueOfZeroPad(Decimal(n), width);
    ValueOfDecimal(n);
  }

  lemma {:induction false} DecimalLength(n: nat, k: nat)
    requires k >= 1 && n < Pow10(k)
    ensures |Decimal(n)| <= k
  {
    if n >= 10 {
      assert k >= 2;
      DecimalLength(n / 10, k - 1);
    }
  }

  /** A number below 10^width fills exactly `width` characters. */
  lemma PaddedWidth(n: nat, width: nat)
    requires width >= 1 && n < Pow10(width)
    ensures |Padded(n, width)| == width
  {
    DecimalLength(n, width);
    ZeroPadShape(Decimal(n), width);
  }

  /** Reading a numeral from its first digit: the leading digit weighs 10^(rest). */
  lemma {:induction false} ValueOfCons(ch: char, s: string)
    requires IsDigit(ch) && AllDigits(s)
    ensures AllDigits([ch] + s)
    ensures ValueOf([ch] + s) == DigitValue(ch) * Pow10(|s|) + ValueOf(s)
  {
    var t := [ch] + s;
    if |s| > 0 {
      var init := s[..|s| - 1];
      assert t[..|t| - 1] == [ch] + init;
      assert t[|t| - 1] == s[|s| - 1];
      ValueOfCons(ch, init);
      ShiftLeft(DigitValue(ch), Pow10(|init|), ValueOf(init), DigitValue(s[|s| - 1]));
    } else {
      assert t[..|t| - 1] == [];
    }
  }

  /** Appending a digit to `d * p + v` multiplies both parts by ten. */
  lemma ShiftLeft(d: nat, p: nat, v: nat, last: nat)
    ensures (d * p + v) * 10 + last == d * (10 * p) + (v * 10 + last)
  {
  }

  lemma {:induction false} ValueOfBound(s: string)
    requires AllDigits(s)
    ensures ValueOf(s) < Pow10(|s|)
  {
    if |s| > 0 {
      ValueOfBound(s[..|s| - 1]);
    }
  }

  /**
   Equal-width numerals sort, as strings, in the order of the numbers they
   denote, whatever follows them.
   */
  lemma {:induction false} FixedWidthOrder(a: string, b: string, x: string, y: string)
    requires AllDigits(a) && AllDigits(b) && |a| == |b|
    requires ValueOf(a) < ValueOf(b)
    ensures LexLess(a + x, b + y)
  {
    if |a| == 0 {
      assert false;
    }
    var a', b' := a[1..], b[1..];
    assert a == [a[0]] + a' && b == [b[0]] + b';
    ValueOfCons(a[0], a');
    ValueOfCons(b[0], b');
    ValueOfBound(b');
    var p := Pow10(|a'|);
    var da, db := DigitValue(a[0]), DigitValue(b[0]);
    assert (a + x)[0] == a[0] && (b + y)[0] == b[0];
    if da < db {
      assert a[0] < b[0];
    } else if da == db {
      assert a[0] == b[0];
      assert (a + x)[1..] == a' + x && (b + y)[1..] == b' + y;
      FixedWidthOrder(a', b', x, y);
    } else {
      LeadingDigitDominates(da, db, p, ValueOf(a'), ValueOf(b'));
      assert false;
    }
  }

  lemma LeadingDigitDominates(da: nat, db: nat, p: nat, va: nat, vb: nat)
    requires db < da && vb < p
    ensures db * p + vb < da * p + va
  {
    var k := da - db;
    assert da * p == db * p + k * p;
    assert k * p >= p by {
      assert k * p == (k - 1) * p + p;
    }
  }
}

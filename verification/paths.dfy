/**
 The two names the distribution step builds: the file name ffmpeg gives a
 segment (`{group_prefix}-%03d.{fmt}`) and the destination path of an upload
 (`{dest_root}/{dir_idx:02d}/{fname}`), each with the parser that inverts it.
 */
module Paths {

  import opened Outcomes
  import opened Numerals
  import opened Text

  /** Width of the per-directory name: `{dir_idx:02d}`. */
  const DirWidth: nat := 2

  /** Width of the segment number in ffmpeg's output template: `%03d`. */
  const SegmentWidth: nat := 3

  /** Name of the destination directory with 1-based index `dir`. */
  function DirName(dir: nat): string {
    Padded(dir, DirWidth)
  }

  /** Destination of one upload: `{dest_root}/{subdir}/{fname}`. */
  function DestPath(root: string, dir: nat, name: string): string {
    root + "/" + DirName(dir) + "/" + name
  }

  /**
   Recovers the directory index and the file name from a destination path
   under `root`, or None when the path does not have that shape.
   */
  function ParseDestPath(root: string, path: string): (r: Option<(nat, string)>)
    ensures r.Some? ==> |r.value.1| < |path|
  {
    match SplitField(path, root, '/', '/')
    case Some((dir, name)) => if AllDigits(dir) then Some((ValueOf(dir), name)) else None
    case None => None
  }

  /** Directory names are made of digits only, so they contain no separator. */
  lemma DigitsAvoid(s: string, ch: char)
    requires AllDigits(s) && !IsDigit(ch)
    ensures forall j :: 0 <= j < |s| ==> s[j] != ch
  {
  }

  /** Parsing a destination path gives back the directory index and file name. */
  lemma DestPathRoundTrip(root: string, dir: nat, name: string)
    ensures ParseDestPath(root, DestPath(root, dir, name)) == Some((dir, name))
  {
    var d := DirName(dir);
    PaddedDigits(dir, DirWidth);
    DigitsAvoid(d, '/');
    SplitFieldRoundTrip(root, '/', d, '/', name);
    PaddedRoundTrip(dir, DirWidth);
  }

  /** Two uploads share a destination path only if they share directory and name. */
  lemma DestPathInjective(root: string, d1: nat, n1: string, d2: nat, n2: string)
    requires DestPath(root, d1, n1) == DestPath(root, d2, n2)
    ensures d1 == d2 && n1 == n2
  {
    DestPathRoundTrip(root, d1, n1);
    DestPathRoundTrip(root, d2, n2);
  }

  /** The file ffmpeg writes for segment `index`: `{group_prefix}-%03d.{fmt}`. */
  function SegmentName(prefix: string, index: nat, fmt: string): string {
    prefix + "-" + Padded(index, SegmentWidth) + "." + fmt
  }

  /** Recovers the segment index and format from a segment file name. */
  function ParseSegmentName(prefix: string, name: string): (r: Option<(nat, string)>)
    ensures r.Some? ==> |r.value.1| < |name|
  {
    match SplitField(name, prefix, '-', '.')
    case Some((digits, fmt)) => if AllDigits(digits) then Some((ValueOf(digits), fmt)) else None
    case None => None
  }

  lemma SegmentNameRoundTrip(prefix: string, index: nat, fmt: string)
    ensures ParseSegmentName(prefix, SegmentName(prefix, index, fmt)) == Some((index, fmt))
  {
    var d := Padded(index, SegmentWidth);
    PaddedDigits(index, SegmentWidth);
    DigitsAvoid(d, '.');
    SplitFieldRoundTrip(prefix, '-', d, '.', fmt);
    PaddedRoundTrip(index, SegmentWidth);
  }

  /** Distinct segments of one job never share a file name. */
  lemma SegmentNameInjective(prefix: string, fmt: string, i: nat, j: nat)
    requires SegmentName(prefix, i, fmt) == SegmentName(prefix, j, fmt)
    ensures i == j
  {
    SegmentNameRoundTrip(prefix, i, fmt);
    SegmentNameRoundTrip(prefix, j, fmt);
  }

  /**
   While the segment number fits the three-digit template, the name of an
   earlier segment sorts before the name of a later one.
   */
  lemma SegmentNameOrder(prefix: string, fmt: string, i: nat, j: nat)
    requires i < j < Pow10(SegmentWidth)
    ensures LexLess(SegmentName(prefix, i, fmt), SegmentName(prefix, j, fmt))
  {
    var a, b := Padded(i, SegmentWidth), Padded(j, SegmentWidth);
    PaddedWidth(i, SegmentWidth);
    PaddedWidth(j, SegmentWidth);
    PaddedRoundTrip(i, SegmentWidth);
    PaddedRoundTrip(j, SegmentWidth);
    FixedWidthOrder(a, b, "." + fmt, "." + fmt);
    LexLessFramed(prefix + "-", a, b, ".", fmt);
  }

  /** The listing of the first `n <= 1000` segments of a job, in segment order. */
  function SegmentListing(prefix: string, fmt: string, n: nat): (names: seq<string>)
    ensures |names| == n
  {
    seq(n, i requires 0 <= i < n => SegmentName(prefix, i, fmt))
  }

  /**
   With at most 1000 segments, sorting ffmpeg's output directory yields the
   segments in the order ffmpeg produced them.
   */
  lemma SegmentListingSorted(prefix: string, fmt: string, n: nat)
    requires n <= Pow10(SegmentWidth)
    ensures StrictlySorted(SegmentListing(prefix, fmt, n))
  {
    var names := SegmentListing(prefix, fmt, n);
    forall i, j | 0 <= i < j < |names|
      ensures LexLess(names[i], names[j])
    {
      SegmentNameOrder(prefix, fmt, i, j);
    }
  }

  /**
   From segment 1000 on the template widens to four digits and code-point
   order no longer follows segment order: segment 1000 sorts before 101.
   */
  lemma WideSegmentNumberSortsEarly(prefix: string, fmt: string)
    ensures LexLess(SegmentName(prefix, 1000, fmt), SegmentName(prefix, 101, fmt))
  {
    assert Decimal(10) == "10";
    assert Decimal(100) == "100";
    assert Decimal(1000) == "1000";
    assert Decimal(101) == "101";
    var t := "." + fmt;
    assert "1000" + t == "10" + ("00" + t);
    assert "101" + t == "10" + ("1" + t);
    LexLessCommonPrefix("10", "00" + t, "1" + t);
    assert ("00" + t)[0] == '0' && ("1" + t)[0] == '1';
    LexLessFramed(prefix + "-", "1000", "101", ".", fmt);
  }
}

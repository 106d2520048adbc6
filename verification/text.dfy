/**
 The few Python string operations the core relies on: substring test (`in`),
 `str.replace`, the position of a separator, and the code-point ordering that
 `sorted` applies to file names.
 */
module Text {

  import opened Outcomes

  /** `pat` occurs in `s` starting at position `i`. */
  predicate OccursAt(s: string, i: int, pat: string) {
    0 <= i && i + |pat| <= |s| && s[i..i + |pat|] == pat
  }

  /** Python's `pat in s`. */
  predicate Contains(s: string, pat: string) {
    exists i | 0 <= i <= |s| - |pat| :: OccursAt(s, i, pat)
  }

  /** `pat` occurs at `i` when it matches there character by character. */
  lemma OccursPointwise(s: string, i: int, pat: string)
    requires 0 <= i && i + |pat| <= |s|
    requires forall j :: 0 <= j < |pat| ==> s[i + j] == pat[j]
    ensures OccursAt(s, i, pat)
  {
    forall j | 0 <= j < |pat|
      ensures s[i..i + |pat|][j] == pat[j]
    {
      assert s[i + j] == pat[j];
    }
  }

  /** Occurrences in a suffix `s[k..]` are occurrences in `s`, shifted by `k`. */
  lemma OccursShift(s: string, k: nat, i: int, pat: string)
    requires k <= |s| && 0 <= i
    ensures OccursAt(s[k..], i, pat) <==> OccursAt(s, i + k, pat)
  {
    if i + |pat| <= |s| - k {
      assert s[k..][i..i + |pat|] == s[i + k..i + k + |pat|];
    }
  }

  /**
   Python's `s.replace(pat, rep)`: occurrences of `pat` are replaced left to
   right, and scanning resumes after each replaced occurrence.
   */
  function ReplaceAll(s: string, pat: string, rep: string): (r: string)
    requires |pat| > 0
    ensures |pat| == |rep| ==> |r| == |s|
    ensures !Contains(s, pat) ==> r == s
    decreases |s|
  {
    if |s| < |pat| then s
    else if s[..|pat|] == pat then
      assert OccursAt(s, 0, pat);
      rep + ReplaceAll(s[|pat|..], pat, rep)
    else
      var rest := ReplaceAll(s[1..], pat, rep);
      assert !Contains(s, pat) ==> !Contains(s[1..], pat) by {
        if Contains(s[1..], pat) {
          var i :| 0 <= i <= |s[1..]| - |pat| && OccursAt(s[1..], i, pat);
          OccursShift(s, 1, i, pat);
        }
      }
      [s[0]] + rest
  }

  /** Index of the first `ch` in `s`, or |s| when there is none. */
  function FirstIndexOf(s: string, ch: char): (i: nat)
    ensures i <= |s|
    ensures i < |s| ==> s[i] == ch
    ensures forall j :: 0 <= j < i ==> s[j] != ch
  {
    if |s| == 0 then 0 else if s[0] == ch then 0 else 1 + FirstIndexOf(s[1..], ch)
  }

  /** Python's `a < b` on strings: code-point lexicographic order. */
  predicate LexLess(a: string, b: string) {
    if |a| == 0 then |b| > 0
    else if |b| == 0 then false
    else if a[0] != b[0] then a[0] < b[0]
    else LexLess(a[1..], b[1..])
  }

  /** A listing as `sorted` returns it when names are distinct, as in one directory. */
  predicate StrictlySorted(names: seq<string>) {
    forall i, j :: 0 <= i < j < |names| ==> LexLess(names[i], names[j])
  }

  lemma {:induction false} LexLessIrreflexive(a: string)
    ensures !LexLess(a, a)
  {
    if |a| > 0 {
      LexLessIrreflexive(a[1..]);
    }
  }

  /** Strictly sorted listings name every file once. */
  lemma SortedDistinct(names: seq<string>, i: int, j: int)
    requires StrictlySorted(names)
    requires 0 <= i < |names| && 0 <= j < |names| && i != j
    ensures names[i] != names[j]
  {
    if i < j {
      LexLessIrreflexive(names[i]);
    } else {
      LexLessIrreflexive(names[j]);
    }
  }

  /** A shared prefix does not affect the order of two strings. */
  lemma {:induction false} LexLessCommonPrefix(c: string, x: string, y: string)
    ensures LexLess(c + x, c + y) == LexLess(x, y)
  {
    if |c| > 0 {
      assert (c + x)[0] == c[0] == (c + y)[0];
      assert (c + x)[1..] == c[1..] + x;
      assert (c + y)[1..] == c[1..] + y;
      LexLessCommonPrefix(c[1..], x, y);
    } else {
      assert c + x == x && c + y == y;
    }
  }

  /** Two names that differ only in one field sort as that field and what follows it. */
  lemma LexLessFramed(c: string, a: string, b: string, sep: string, t: string)
    requires LexLess(a + (sep + t), b + (sep + t))
    ensures LexLess(c + a + sep + t, c + b + sep + t)
  {
    assert c + a + sep + t == c + (a + (sep + t));
    assert c + b + sep + t == c + (b + (sep + t));
    LexLessCommonPrefix(c, a + (sep + t), b + (sep + t));
  }

  /** The separator after a separator-free head is the first one. */
  lemma FirstIndexAfterHead(head: string, ch: char, tail: string)
    requires forall j :: 0 <= j < |head| ==> head[j] != ch
    ensures FirstIndexOf(head + [ch] + tail, ch) == |head|
  {
    var s := head + [ch] + tail;
    assert s[|head|] == ch;
    assert forall j :: 0 <= j < |head| ==> s[j] == head[j];
  }

  /**
   Reads `lead`, then the character `open`, then a non-empty field that
   runs up to the first `close`; returns the field and what follows `close`.
   */
  function SplitField(s: string, lead: string, open: char, close: char): (r: Option<(string, string)>)
    ensures r.Some? ==> |r.value.1| < |s|
  {
    if |s| <= |lead| || s[..|lead|] != lead || s[|lead|] != open then None
    else
      var rest := s[|lead| + 1..];
      var i := FirstIndexOf(rest, close);
      if i == 0 || i == |rest| then None
      else Some((rest[..i], rest[i + 1..]))
  }

  lemma SplitFieldRoundTrip(lead: string, open: char, field: string, close: char, tail: string)
    requires |field| > 0
    requires forall j :: 0 <= j < |field| ==> field[j] != close
    ensures SplitField(lead + [open] + field + [close] + tail, lead, open, close) == Some((field, tail))
  {
    var s := lead + [open] + field + [close] + tail;
    assert s == lead + ([open] + (field + [close] + tail));
    assert s[..|lead|] == lead;
    assert s[|lead|] == open;
    var rest := s[|lead| + 1..];
    assert rest == field + [close] + tail;
    FirstIndexAfterHead(field, close, tail);
    assert rest[..|field|] == field;
    assert rest[|field| + 1..] == tail;
  }
}

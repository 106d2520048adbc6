/**
 The URL handling at the top of `download_file`: a missing or empty share
 URL yields no file, and a share link's preview flag `dl=0` is rewritten to
 the direct-download flag `dl=1` before the fetch.
 */
module Download {

  import opened Outcomes
  import opened Text

  /** The query flag of a share link that opens a preview page. */
  const PreviewFlag: string := "dl=0"

  /** The query flag of a share link that downloads the file itself. */
  const DirectFlag: string := "dl=1"

  /**
   The URL `download_file` fetches, or None when it returns None without
   fetching anything (a missing or empty `shared_url`).
   */
  function DownloadUrl(sharedUrl: Option<string>): (r: Option<string>)
    ensures r.None? <==> (sharedUrl.None? || sharedUrl.value == [])
    ensures r.Some? ==> |r.value| == |sharedUrl.value|
    ensures r.Some? && !Contains(sharedUrl.value, PreviewFlag) ==> r.value == sharedUrl.value
    ensures r.Some? ==> forall i :: 0 <= i < |r.value| ==> r.value[i] == Rewritten(sharedUrl.value, i)
  {
    match sharedUrl
    case None => None
    case Some(url) =>
      if url == [] then None
      else if Contains(url, PreviewFlag) then
        ReplacePointwise(url);
        Some(ReplaceAll(url, PreviewFlag, DirectFlag))
      else
        assert forall i :: 0 <= i < |url| ==> Rewritten(url, i) == url[i];
        Some(url)
  }

  /**
   Reference description of the rewrite, one character at a time: a
   character changes exactly when it is the '0' of a `dl=0` of the input,
   and then it becomes '1'.
   */
  function Rewritten(s: string, i: nat): char
    requires i < |s|
  {
    if i >= 3 && OccursAt(s, i - 3, PreviewFlag) then '1' else s[i]
  }

  /** `dl=0` cannot start at any of its own positions 1..3. */
  lemma PreviewFlagNoOverlap(s: string, p: int, j: int)
    requires OccursAt(s, p, PreviewFlag) && 1 <= j <= 3
    ensures !OccursAt(s, p + j, PreviewFlag)
  {
    assert s[p + j] == PreviewFlag[j];
  }

  /** The rewrite of `s` agrees with `Rewritten` at every position. */
  ghost predicate AgreesPointwise(s: string) {
    var r := ReplaceAll(s, PreviewFlag, DirectFlag);
    |r| == |s| && forall i :: 0 <= i < |s| ==> r[i] == Rewritten(s, i)
  }

  /** `str.replace("dl=0", "dl=1")` agrees with the character-wise description. */
  lemma {:induction false} ReplacePointwise(s: string)
    ensures AgreesPointwise(s)
    decreases |s|
  {
    if |s| < 4 {
      assert ReplaceAll(s, PreviewFlag, DirectFlag) == s;
    } else if s[..4] == PreviewFlag {
      ReplacePointwise(s[4..]);
      PointwiseAfterFlag(s);
    } else {
      ReplacePointwise(s[1..]);
      PointwiseAfterOther(s);
    }
  }

  /** The step of `ReplacePointwise` where the URL starts with `dl=0`. */
  lemma PointwiseAfterFlag(s: string)
    requires |s| >= 4 && s[..4] == PreviewFlag && AgreesPointwise(s[4..])
    ensures AgreesPointwise(s)
  {
    var r := ReplaceAll(s, PreviewFlag, DirectFlag);
    assert OccursAt(s, 0, PreviewFlag);
    forall i | 0 <= i < |s|
      ensures r[i] == Rewritten(s, i)
    {
      if i < 3 {
        assert s[i] == s[..4][i];
      } else if i >= 7 {
        OccursShift(s, 4, i - 7, PreviewFlag);
      } else if i >= 4 {
        PreviewFlagNoOverlap(s, 0, i - 3);
      }
    }
  }

  /** The step of `ReplacePointwise` where the URL does not start with `dl=0`. */
  lemma PointwiseAfterOther(s: string)
    requires |s| >= 4 && s[..4] != PreviewFlag && AgreesPointwise(s[1..])
    ensures AgreesPointwise(s)
  {
    var r := ReplaceAll(s, PreviewFlag, DirectFlag);
    assert !OccursAt(s, 0, PreviewFlag);
    forall i | 1 <= i < |s|
      ensures r[i] == Rewritten(s, i)
    {
      if i >= 4 {
        OccursShift(s, 1, i - 4, PreviewFlag);
      }
    }
  }

  /** After the rewrite no `dl=0` is left anywhere in the URL. */
  lemma NoPreviewFlagLeft(s: string)
    ensures !Contains(ReplaceAll(s, PreviewFlag, DirectFlag), PreviewFlag)
  {
    var r := ReplaceAll(s, PreviewFlag, DirectFlag);
    ReplacePointwise(s);
    forall p | 0 <= p <= |r| - 4
      ensures !OccursAt(r, p, PreviewFlag)
    {
      if OccursAt(s, p, PreviewFlag) {
        assert r[p..p + 4][3] == r[p + 3] == '1';
      } else {
        assert exists j :: 0 <= j < 4 && s[p..p + 4][j] != PreviewFlag[j];
        var j :| 0 <= j < 4 && s[p..p + 4][j] != PreviewFlag[j];
        assert s[p + j] != PreviewFlag[j];
        assert r[p..p + 4][j] == r[p + j] != PreviewFlag[j];
      }
    }
  }

  /** Each `dl=0` of the input is a `dl=1` at the same position of the output. */
  lemma PreviewFlagsBecomeDirect(s: string, p: int)
    requires OccursAt(s, p, PreviewFlag)
    ensures OccursAt(ReplaceAll(s, PreviewFlag, DirectFlag), p, DirectFlag)
  {
    var r := ReplaceAll(s, PreviewFlag, DirectFlag);
    ReplacePointwise(s);
    forall j | 0 <= j < 4
      ensures r[p + j] == DirectFlag[j]
    {
      if j < 3 {
        assert s[p + j] == s[p..p + 4][j];
        if p + j >= 3 && OccursAt(s, p + j - 3, PreviewFlag) {
          PreviewFlagNoOverlap(s, p + j - 3, 3 - j);
        }
      }
    }
    OccursPointwise(r, p, DirectFlag);
  }

  /** Normalising a URL that was already normalised changes nothing. */
  lemma DownloadUrlIdempotent(sharedUrl: Option<string>)
    ensures DownloadUrl(DownloadUrl(sharedUrl)) == DownloadUrl(sharedUrl)
  {
    if sharedUrl.Some? && sharedUrl.value != [] && Contains(sharedUrl.value, PreviewFlag) {
      NoPreviewFlagLeft(sharedUrl.value);
    }
  }
}

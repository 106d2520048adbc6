/**
 The distribution loop of `split_audio_and_upload`: walk the sorted listing
 of ffmpeg's output directory, keep a directory counter and a per-directory
 file counter, upload each file to `{dest_root}/{dir_idx:02d}/{fname}`, and
 stop silently once the directory budget is used up.

 The upload itself is an abstract effect: `rejected` is the set of upload
 calls (local file, destination) that raise; every other call returns.
 */
module Distribution {

  import opened Outcomes
  import opened Text
  import opened Paths
  import opened Allocation

  /** One call of `upload_to_dropbox(local_path, dropbox_path)`. */
  datatype Upload = Upload(localPath: string, remotePath: string)

  /** The dictionary the function returns: `uploaded` and `total_segments`. */
  datatype Report = Report(uploaded: seq<string>, totalSegments: nat)

  /** The exception an upload raised, with the destination it was for. */
  datatype UploadError = UploadFailed(remotePath: string)

  /** The upload call made for one placement: `os.path.join(tmp_dir, fname)` to its destination. */
  function UploadOf(tmpDir: string, root: string, pl: Placement): Upload {
    Upload(tmpDir + "/" + pl.name, DestPath(root, pl.dir, pl.name))
  }

  /** Destination paths of a plan, in plan order. */
  function DestPaths(root: string, plan: seq<Placement>): (paths: seq<string>)
    ensures |paths| == |plan|
  {
    seq(|plan|, k requires 0 <= k < |plan| => DestPath(root, plan[k].dir, plan[k].name))
  }

  /**
   Distinct file names give distinct destination paths, so one run never
   overwrites its own output.
   */
  lemma DestPathsDistinct(files: seq<string>, root: string, maxDirs: int, capacity: int)
    requires StrictlySorted(files)
    ensures var paths := DestPaths(root, Plan(files, maxDirs, capacity));
      forall j, k :: 0 <= j < k < |paths| ==> paths[j] != paths[k]
  {
    var plan := Plan(files, maxDirs, capacity);
    var paths := DestPaths(root, plan);
    forall j, k | 0 <= j < k < |paths|
      ensures paths[j] != paths[k]
    {
      SortedDistinct(files, j, k);
      if paths[j] == paths[k] {
        DestPathInjective(root, plan[j].dir, plan[j].name, plan[k].dir, plan[k].name);
        assert false;
      }
    }
  }

  /** Every destination path reads back as the directory of its file and the file's name. */
  lemma DestPathsDecode(files: seq<string>, root: string, maxDirs: int, capacity: int)
    ensures var paths := DestPaths(root, Plan(files, maxDirs, capacity));
      forall k :: 0 <= k < |paths| ==> ParseDestPath(root, paths[k]) == Some((DirOf(k, capacity), files[k]))
  {
    var plan := Plan(files, maxDirs, capacity);
    forall k | 0 <= k < |plan|
      ensures ParseDestPath(root, DestPaths(root, plan)[k]) == Some((DirOf(k, capacity), files[k]))
    {
      DestPathRoundTrip(root, plan[k].dir, plan[k].name);
    }
  }

  /** The upload calls a run made and how the call ended. */
  datatype Run = Run(calls: seq<Upload>, outcome: Result<Report, UploadError>)

  /**
   Reference semantics of the uploads from placement `i` of the plan on:
   each planned file is uploaded in turn; the first upload that raises ends
   the run with that exception; when every upload returns, the report lists
   the destination paths of the whole plan.
   */
  function RunFrom(tmpDir: string, root: string, plan: seq<Placement>, rejected: set<Upload>, i: nat): Run
    requires i <= |plan|
    decreases |plan| - i
  {
    if i == |plan| then Run([], Ok(Report(DestPaths(root, plan), |plan|)))
    else
      var u := UploadOf(tmpDir, root, plan[i]);
      if u in rejected then Run([u], Err(UploadFailed(u.remotePath)))
      else
        var rest := RunFrom(tmpDir, root, plan, rejected, i + 1);
        Run([u] + rest.calls, rest.outcome)
  }

  /** The destination paths of the first `n` placements, in order. */
  function PathsUpTo(root: string, plan: seq<Placement>, n: nat): seq<string>
    requires n <= |plan|
  {
    if n == 0 then [] else PathsUpTo(root, plan, n - 1) + [DestPath(root, plan[n - 1].dir, plan[n - 1].name)]
  }

  /** The paths collected after `n` uploads are the first `n` destinations of the plan. */
  lemma {:induction false} PathsUpToAll(root: string, plan: seq<Placement>, n: nat)
    requires n <= |plan|
    ensures PathsUpTo(root, plan, n) == DestPaths(root, plan)[..n]
  {
    if n > 0 {
      PathsUpToAll(root, plan, n - 1);
      assert DestPaths(root, plan)[..n] == DestPaths(root, plan)[..n - 1] + [DestPaths(root, plan)[n - 1]];
    }
  }

  /** Collecting the destination of the next upload extends the collected paths by one. */
  lemma PathsStep(tmpDir: string, root: string, plan: seq<Placement>, i: nat, results: seq<string>)
    requires i < |plan| && results == PathsUpTo(root, plan, i)
    ensures results + [UploadOf(tmpDir, root, plan[i]).remotePath] == PathsUpTo(root, plan, i + 1)
  {
  }

  lemma AppendAssociative<T>(a: seq<T>, b: seq<T>, c: seq<T>)
    ensures a + (b + c) == (a + b) + c
  {
  }

  /** A run uploads the planned files in plan order and at most the planned ones. */
  lemma {:induction false} RunFollowsPlan(tmpDir: string, root: string, plan: seq<Placement>, rejected: set<Upload>, i: nat)
    requires i <= |plan|
    ensures var r := RunFrom(tmpDir, root, plan, rejected, i);
      && |r.calls| <= |plan| - i
      && forall k :: 0 <= k < |r.calls| ==> r.calls[k] == UploadOf(tmpDir, root, plan[i + k])
    decreases |plan| - i
  {
    if i < |plan| && UploadOf(tmpDir, root, plan[i]) !in rejected {
      RunFollowsPlan(tmpDir, root, plan, rejected, i + 1);
      var rest := RunFrom(tmpDir, root, plan, rejected, i + 1);
      var r := RunFrom(tmpDir, root, plan, rejected, i);
      forall k | 1 <= k < |r.calls|
        ensures r.calls[k] == UploadOf(tmpDir, root, plan[i + k])
      {
        assert r.calls[k] == rest.calls[k - 1];
      }
    }
  }

  /**
   A run returns normally exactly when none of its uploads raised and it made
   every remaining planned upload; it then reports every destination of the
   plan and `total_segments` equal to their number.
   */
  lemma {:induction false} RunOkWhenAllAccepted(tmpDir: string, root: string, plan: seq<Placement>, rejected: set<Upload>, i: nat)
    requires i <= |plan|
    ensures var r := RunFrom(tmpDir, root, plan, rejected, i);
      && (r.outcome.Ok? <==> |r.calls| == |plan| - i && forall k :: 0 <= k < |r.calls| ==> r.calls[k] !in rejected)
      && (r.outcome.Ok? ==> r.outcome.value == Report(DestPaths(root, plan), |plan|))
    decreases |plan| - i
  {
    if i < |plan| {
      var u := UploadOf(tmpDir, root, plan[i]);
      var r := RunFrom(tmpDir, root, plan, rejected, i);
      if u !in rejected {
        RunOkWhenAllAccepted(tmpDir, root, plan, rejected, i + 1);
        var rest := RunFrom(tmpDir, root, plan, rejected, i + 1);
        assert r.calls == [u] + rest.calls && r.outcome == rest.outcome;
        var allAccepted := forall k :: 0 <= k < |r.calls| ==> r.calls[k] !in rejected;
        var restAccepted := forall k :: 0 <= k < |rest.calls| ==> rest.calls[k] !in rejected;
        if restAccepted {
          forall k | 0 <= k < |r.calls|
            ensures r.calls[k] !in rejected
          {
            if k > 0 {
              assert r.calls[k] == rest.calls[k - 1];
            }
          }
        }
        if allAccepted {
          forall k | 0 <= k < |rest.calls|
            ensures rest.calls[k] !in rejected
          {
            assert rest.calls[k] == r.calls[k + 1];
          }
        }
        assert allAccepted <==> restAccepted;
      } else {
        assert r.calls[0] in rejected;
      }
    }
  }

  /**
   A run that returns reports `min(|files|, Slots)` uploads, numbers them in
   `total_segments`, and sends the k-th file of the listing to the directory
   the closed form assigns it.
   */
  lemma CompletedRunReport(files: seq<string>, tmpDir: string, root: string, maxDirs: int, capacity: int, rejected: set<Upload>)
    ensures var r := RunFrom(tmpDir, root, Plan(files, maxDirs, capacity), rejected, 0);
      r.outcome.Ok? ==>
        && r.outcome.value.totalSegments == |r.outcome.value.uploaded| == Min(|files|, Slots(maxDirs, capacity))
        && forall k :: 0 <= k < |r.outcome.value.uploaded| ==>
             r.outcome.value.uploaded[k] == DestPath(root, DirOf(k, capacity), files[k])
  {
    RunOkWhenAllAccepted(tmpDir, root, Plan(files, maxDirs, capacity), rejected, 0);
  }

  /**
   A run that fails made at least one upload, every upload before the last
   returned, and the exception is the one the last upload raised.
   */
  lemma {:induction false} RunFailsAtLastUpload(tmpDir: string, root: string, plan: seq<Placement>, rejected: set<Upload>, i: nat)
    requires i <= |plan|
    ensures var r := RunFrom(tmpDir, root, plan, rejected, i);
      && (forall k :: 0 <= k < |r.calls| - 1 ==> r.calls[k] !in rejected)
      && (r.outcome.Err? ==>
            && |r.calls| >= 1
            && r.calls[|r.calls| - 1] in rejected
            && r.outcome.error == UploadFailed(r.calls[|r.calls| - 1].remotePath))
    decreases |plan| - i
  {
    if i < |plan| && UploadOf(tmpDir, root, plan[i]) !in rejected {
      RunFailsAtLastUpload(tmpDir, root, plan, rejected, i + 1);
      var rest := RunFrom(tmpDir, root, plan, rejected, i + 1);
      var r := RunFrom(tmpDir, root, plan, rejected, i);
      assert forall k :: 1 <= k < |r.calls| ==> r.calls[k] == rest.calls[k - 1];
    }
  }

  /**
   After the upload calls `calls`, the run from the start continues as the
   run from placement `i` does.
   */
  ghost predicate Reached(tmpDir: string, root: string, plan: seq<Placement>, rejected: set<Upload>, calls: seq<Upload>, i: nat) {
    && i <= |plan|
    && var tail := RunFrom(tmpDir, root, plan, rejected, i);
       RunFrom(tmpDir, root, plan, rejected, 0) == Run(calls + tail.calls, tail.outcome)
  }

  /** An upload that returns extends the trace by its call and moves the run on by one placement. */
  lemma AcceptStep(tmpDir: string, root: string, plan: seq<Placement>, rejected: set<Upload>, calls: seq<Upload>, i: nat)
    requires Reached(tmpDir, root, plan, rejected, calls, i) && i < |plan|
    requires UploadOf(tmpDir, root, plan[i]) !in rejected
    ensures Reached(tmpDir, root, plan, rejected, calls + [UploadOf(tmpDir, root, plan[i])], i + 1)
  {
    var rest := RunFrom(tmpDir, root, plan, rejected, i + 1);
    AppendAssociative(calls, [UploadOf(tmpDir, root, plan[i])], rest.calls);
  }

  /** An upload that raises ends the run with its call as the last one. */
  lemma RejectStep(tmpDir: string, root: string, plan: seq<Placement>, rejected: set<Upload>, calls: seq<Upload>, i: nat)
    requires Reached(tmpDir, root, plan, rejected, calls, i) && i < |plan|
    requires UploadOf(tmpDir, root, plan[i]) in rejected
    ensures var u := UploadOf(tmpDir, root, plan[i]);
      RunFrom(tmpDir, root, plan, rejected, 0) == Run(calls + [u], Err(UploadFailed(u.remotePath)))
  {
  }

  /** Once every placement is uploaded, the run reports the collected paths. */
  lemma FinishStep(tmpDir: string, root: string, plan: seq<Placement>, rejected: set<Upload>, calls: seq<Upload>, results: seq<string>)
    requires Reached(tmpDir, root, plan, rejected, calls, |plan|)
    requires results == PathsUpTo(root, plan, |plan|)
    ensures RunFrom(tmpDir, root, plan, rejected, 0) == Run(calls, Ok(Report(results, |results|)))
  {
    PathsUpToAll(root, plan, |plan|);
    assert DestPaths(root, plan)[..|plan|] == DestPaths(root, plan);
    assert calls + [] == calls;
  }

  /**
   The counters `dir_idx` and `count_in_dir` after `i` files have been
   uploaded: directory `dirIdx` is the one file i-1 went to and holds
   `countInDir` files so far.
   */
  ghost predicate CountersAfter(i: nat, dirIdx: int, countInDir: int, capacity: int) {
    && (i == 0 ==> dirIdx == 1 && countInDir == 0)
    && (i > 0 && capacity >= 1 ==>
          dirIdx == Quot(i - 1, capacity) + 1 && countInDir == Rem(i - 1, capacity) + 1)
    && (i > 0 && capacity < 1 ==> dirIdx == i + 1 && countInDir == 1)
  }

  /**
   The rollover test `count_in_dir >= max_files_per_dir` selects the
   directory of the next file, and the increment after its upload
   re-establishes the counters.
   */
  lemma RolloverSelectsDirOf(i: nat, dirIdx: int, countInDir: int, capacity: int)
    requires CountersAfter(i, dirIdx, countInDir, capacity)
    ensures var d := if countInDir >= capacity then dirIdx + 1 else dirIdx;
      var n := if countInDir >= capacity then 0 else countInDir;
      d == DirOf(i, capacity) && CountersAfter(i + 1, d, n + 1, capacity)
  {
    if capacity >= 1 {
      if i > 0 {
        QuotRemStep(i - 1, capacity);
      }
    }
  }

  /**
   The rollover at the top of the loop body: when the current directory
   already holds `max_files_per_dir` files, move on to the next directory
   and reset its count. The directory chosen is the one the closed form
   assigns to file `i`.
   */
  method NextDirectory(i: nat, dirIdx: int, countInDir: int, capacity: int) returns (d: int, n: int)
    requires CountersAfter(i, dirIdx, countInDir, capacity)
    ensures d == DirOf(i, capacity)
    ensures CountersAfter(i + 1, d, n + 1, capacity)
  {
    RolloverSelectsDirOf(i, dirIdx, countInDir, capacity);
    if countInDir >= capacity {
      d, n := dirIdx + 1, 0;
    } else {
      d, n := dirIdx, countInDir;
    }
  }

  /**
   File `i` of the listing is planned exactly when its directory is within
   the budget, and then it is planned into that directory.
   */
  lemma PlanNext(files: seq<string>, maxDirs: int, capacity: int, i: nat)
    requires i <= |files|
    ensures var plan := Plan(files, maxDirs, capacity);
      && (i == |files| || DirOf(i, capacity) > maxDirs <==> i >= |plan|)
      && (i < |plan| ==> plan[i] == Placement(DirOf(i, capacity), files[i]))
  {
    BudgetExceeded(i, maxDirs, capacity);
  }

  /**
   The state of the loop after `i` files: the uploads made so far and the
   paths collected are those of the first `i` placements of the plan, and
   the counters describe file `i - 1`.
   */
  ghost predicate Progress(tmpDir: string, root: string, plan: seq<Placement>, rejected: set<Upload>,
                           capacity: int, i: nat, dirIdx: int, countInDir: int,
                           calls: seq<Upload>, results: seq<string>) {
    && i <= |plan|
    && results == PathsUpTo(root, plan, i)
    && Reached(tmpDir, root, plan, rejected, calls, i)
    && CountersAfter(i, dirIdx, countInDir, capacity)
  }

  /**
   The loop of `split_audio_and_upload` after ffmpeg has written its segments
   to `tmpDir`: `files` is the sorted listing of that directory, `calls` the
   trace of upload calls made. The two counters make exactly the uploads of
   the closed-form plan, stopping at the first upload that raises.
   */
  method SplitAndUpload(files: seq<string>, tmpDir: string, destRoot: string,
                        maxDirs: int, maxFilesPerDir: int, rejected: set<Upload>)
    returns (calls: seq<Upload>, result: Result<Report, UploadError>)
    ensures Run(calls, result) == RunFrom(tmpDir, destRoot, Plan(files, maxDirs, maxFilesPerDir), rejected, 0)
  {
    ghost var plan := Plan(files, maxDirs, maxFilesPerDir);
    var results: seq<string> := [];
    var dirIdx := 1;
    var countInDir := 0;
    calls := [];
    var i := 0;
    while i < |files|
      invariant Progress(tmpDir, destRoot, plan, rejected, maxFilesPerDir, i, dirIdx, countInDir, calls, results)
    {
      dirIdx, countInDir := NextDirectory(i, dirIdx, countInDir, maxFilesPerDir);
      PlanNext(files, maxDirs, maxFilesPerDir, i);
      if dirIdx > maxDirs {
        break;
      }
      var fname := files[i];
      var call := UploadOf(tmpDir, destRoot, Placement(dirIdx, fname));
      if call in rejected {
        RejectStep(tmpDir, destRoot, plan, rejected, calls, i);
        calls := calls + [call];
        result := Err(UploadFailed(call.remotePath));
        return;
      }
      AcceptStep(tmpDir, destRoot, plan, rejected, calls, i);
      PathsStep(tmpDir, destRoot, plan, i, results);
      calls := calls + [call];
      results := results + [call.remotePath];
      countInDir := countInDir + 1;
      i := i + 1;
    }
    PlanNext(files, maxDirs, maxFilesPerDir, i);
    FinishStep(tmpDir, destRoot, plan, rejected, calls, results);
    result := Ok(Report(results, |results|));
  }
}

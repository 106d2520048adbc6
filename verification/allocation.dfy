/**
 The directory allocation of `split_audio_and_upload`, stated in closed form:
 which directory the k-th file of the sorted listing lands in, and how many
 files the directory budget admits before the loop stops.
 */
module Allocation {

  /** One file of the sorted listing together with its 1-based destination directory. */
  datatype Placement = Placement(dir: nat, name: string)

  /**
   Directory of the k-th (0-based) file. With a capacity of at least one,
   directories fill in order, `capacity` files each. With a capacity of zero
   or less the rollover fires before every file, so the first file already
   goes to directory 2 and every later file to the next directory.
   */
  function DirOf(k: nat, capacity: int): nat {
    if capacity >= 1 then Quot(k, capacity) + 1 else k + 2
  }

  /** Floor division `k // c` by repeated subtraction. */
  function Quot(k: nat, c: nat): nat
    requires c >= 1
    decreases k
  {
    if k < c then 0 else Quot(k - c, c) + 1
  }

  /** Remainder `k % c` by repeated subtraction. */
  function Rem(k: nat, c: nat): nat
    requires c >= 1
    decreases k
  {
    if k < c then k else Rem(k - c, c)
  }

  /** How many files are placed before the next directory would exceed `maxDirs`. */
  function Slots(maxDirs: int, capacity: int): nat {
    if maxDirs <= 0 then 0
    else if capacity >= 1 then maxDirs * capacity
    else maxDirs - 1
  }

  function Min(a: nat, b: nat): nat {
    if a <= b then a else b
  }

  /** The placements the loop makes for a listing, in listing order. */
  function Plan(files: seq<string>, maxDirs: int, capacity: int): seq<Placement> {
    var n := Min(|files|, Slots(maxDirs, capacity));
    seq(n, k requires 0 <= k < n => Placement(DirOf(k, capacity), files[k]))
  }

  /** Number of placements into directory `dir`. */
  function CountIn(p: seq<Placement>, dir: int): nat {
    if |p| == 0 then 0
    else CountIn(p[..|p| - 1], dir) + (if p[|p| - 1].dir == dir then 1 else 0)
  }

  // ---- integer division facts ----

  lemma MulMonotone(a: nat, b: nat, c: nat)
    requires a <= b
    ensures a * c <= b * c
  {
  }

  lemma DivUnique(k: nat, c: nat, q: nat)
    requires c >= 1 && q * c <= k < (q + 1) * c
    ensures k / c == q
  {
    var d := k / c;
    assert d * c <= k < d * c + c;
    if d < q {
      MulMonotone(d + 1, q, c);
      assert false;
    } else if d > q {
      MulMonotone(q + 1, d, c);
      assert false;
    }
  }

  lemma DivMonotone(j: nat, k: nat, c: nat)
    requires c >= 1 && j <= k
    ensures j / c <= k / c
  {
    if j / c > k / c {
      MulMonotone(k / c + 1, j / c, c);
      assert false;
    }
  }

  lemma DivBelow(k: nat, c: nat, m: nat)
    requires c >= 1 && k < m * c
    ensures k / c < m
  {
  }

  lemma {:induction false} QuotRemIsDivision(k: nat, c: nat)
    requires c >= 1
    ensures Quot(k, c) == k / c && Rem(k, c) == k % c
    decreases k
  {
    if k >= c {
      QuotRemIsDivision(k - c, c);
      DivUnique(k, c, (k - c) / c + 1);
    } else {
      DivUnique(k, c, 0);
    }
  }

  /**
   Counting one more file either fills the current directory, after which
   the next file starts a new one, or stays within it.
   */
  lemma {:induction false} QuotRemStep(k: nat, c: nat)
    requires c >= 1
    ensures Rem(k, c) < c
    ensures Rem(k, c) + 1 == c ==> Quot(k + 1, c) == Quot(k, c) + 1 && Rem(k + 1, c) == 0
    ensures Rem(k, c) + 1 < c ==> Quot(k + 1, c) == Quot(k, c) && Rem(k + 1, c) == Rem(k, c) + 1
    decreases k
  {
    if k >= c {
      QuotRemStep(k - c, c);
    }
  }

  /** For a capacity of at least one the directory is `k // capacity + 1`. */
  lemma DirOfIsDivision(k: nat, capacity: int)
    requires capacity >= 1
    ensures DirOf(k, capacity) == k / capacity + 1
  {
    QuotRemIsDivision(k, capacity);
  }

  // ---- properties of the closed form ----

  /** Directories are filled in order: a later file never lands in an earlier directory. */
  lemma DirOfMonotone(j: nat, k: nat, capacity: int)
    requires j <= k
    ensures DirOf(j, capacity) <= DirOf(k, capacity)
  {
    if capacity >= 1 {
      DirOfIsDivision(j, capacity);
      DirOfIsDivision(k, capacity);
      DivMonotone(j, k, capacity);
    }
  }

  /**
   The loop's `break` fires exactly from the first file whose directory
   would exceed `maxDirs`, and that file is file number `Slots`.
   */
  lemma {:induction false} BudgetExceeded(k: nat, maxDirs: int, capacity: int)
    ensures DirOf(k, capacity) > maxDirs <==> k >= Slots(maxDirs, capacity)
  {
    if capacity >= 1 && maxDirs > 0 {
      DirOfIsDivision(k, capacity);
      var m := maxDirs * capacity;
      if k < m {
        DivBelow(k, capacity, maxDirs);
      } else {
        DivMonotone(m, k, capacity);
        DivUnique(m, capacity, maxDirs);
      }
    }
  }

  /** Every placement uses a directory in 1..maxDirs, and never directory 1 when capacity < 1. */
  lemma PlanDirsInRange(files: seq<string>, maxDirs: int, capacity: int)
    ensures forall k :: 0 <= k < |Plan(files, maxDirs, capacity)| ==>
      1 <= Plan(files, maxDirs, capacity)[k].dir <= maxDirs
    ensures capacity < 1 ==> forall k :: 0 <= k < |Plan(files, maxDirs, capacity)| ==>
      Plan(files, maxDirs, capacity)[k].dir >= 2
  {
    var p := Plan(files, maxDirs, capacity);
    forall k | 0 <= k < |p|
      ensures p[k].dir <= maxDirs
    {
      BudgetExceeded(k, maxDirs, capacity);
    }
  }

  /** The directory index never decreases along the plan. */
  lemma PlanMonotone(files: seq<string>, maxDirs: int, capacity: int)
    ensures forall j, k :: 0 <= j <= k < |Plan(files, maxDirs, capacity)| ==>
      Plan(files, maxDirs, capacity)[j].dir <= Plan(files, maxDirs, capacity)[k].dir
  {
    var p := Plan(files, maxDirs, capacity);
    forall j, k | 0 <= j <= k < |p|
      ensures p[j].dir <= p[k].dir
    {
      DirOfMonotone(j, k, capacity);
    }
  }

  function Clamp(x: int, lo: int, hi: int): int
    requires lo <= hi
  {
    if x < lo then lo else if x > hi then hi else x
  }

  /**
   How many of the first m files directory `dir` holds: full directories hold
   `capacity`, the last one in use holds the remainder, later ones none.
   With capacity < 1 each directory from 2 on holds a single file.
   */
  function Occupancy(m: nat, capacity: int, dir: int): nat {
    if capacity >= 1 then
      if dir < 1 then 0 else Clamp(m - (dir - 1) * capacity, 0, capacity)
    else
      if 2 <= dir <= m + 1 then 1 else 0
  }

  /** Placements that follow the closed form from the first file on. */
  predicate FollowsDirOf(p: seq<Placement>, capacity: int) {
    forall k :: 0 <= k < |p| ==> p[k].dir == DirOf(k, capacity)
  }

  lemma DirOfBand(k: nat, capacity: int, dir: int)
    requires capacity >= 1 && dir >= 1
    ensures DirOf(k, capacity) == dir <==> (dir - 1) * capacity <= k < dir * capacity
  {
    DirOfIsDivision(k, capacity);
    var q := k / capacity;
    if (dir - 1) * capacity <= k < dir * capacity {
      DivUnique(k, capacity, dir - 1);
    }
    if q + 1 == dir {
      assert q * capacity <= k < q * capacity + capacity;
    }
  }

  lemma {:induction false} OccupancyOfPrefix(p: seq<Placement>, capacity: int, dir: int, m: nat)
    requires FollowsDirOf(p, capacity) && m <= |p|
    ensures CountIn(p[..m], dir) == Occupancy(m, capacity, dir)
  {
    if m > 0 {
      OccupancyOfPrefix(p, capacity, dir, m - 1);
      CountInExtend(p, dir, m);
      OccupancyStep(m, capacity, dir);
    }
  }

  lemma CountInExtend(p: seq<Placement>, dir: int, m: nat)
    requires 1 <= m <= |p|
    ensures CountIn(p[..m], dir) == CountIn(p[..m - 1], dir) + (if p[m - 1].dir == dir then 1 else 0)
  {
    assert p[..m][..m - 1] == p[..m - 1];
  }

  /** Adding file m-1 raises the occupancy of its own directory by one and of no other. */
  lemma OccupancyStep(m: nat, capacity: int, dir: int)
    requires m >= 1
    ensures Occupancy(m, capacity, dir)
      == Occupancy(m - 1, capacity, dir) + (if DirOf(m - 1, capacity) == dir then 1 else 0)
  {
    if capacity >= 1 && dir >= 1 {
      DirOfBand(m - 1, capacity, dir);
    }
  }

  /**
   Directory `dir` receives exactly `Occupancy` files of the plan, so no
   directory receives more than max(capacity, 1).
   */
  lemma PlanOccupancy(files: seq<string>, maxDirs: int, capacity: int, dir: int)
    ensures CountIn(Plan(files, maxDirs, capacity), dir)
      == Occupancy(|Plan(files, maxDirs, capacity)|, capacity, dir)
    ensures CountIn(Plan(files, maxDirs, capacity), dir) <= if capacity >= 1 then capacity else 1
  {
    var p := Plan(files, maxDirs, capacity);
    assert p[..|p|] == p;
    OccupancyOfPrefix(p, capacity, dir, |p|);
  }
}

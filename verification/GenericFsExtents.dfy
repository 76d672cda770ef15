/** File extents of GenericFS and the first-fit search for a new one. */
module GenericFsExtents {
  import opened Wrappers
  import opened VfsErrors
  import opened GenericFsDisk
  import opened GenericFsTree

  /** Inode `i` is a file and `s` is one of its sectors. */
  predicate Owns(t: Table, i: nat, s: int) {
    2 <= i <= INODE_COUNT && t[i - 1].kind == 1 &&
    t[i - 1].startSector <= s < t[i - 1].startSector + t[i - 1].sectorCount
  }

  function SectorsFor(len: nat): nat {
    if len == 0 then 0 else (len + SECTOR_SIZE - 1) / SECTOR_SIZE
  }

  /** The least number of sectors that hold so many bytes. */
  lemma SectorsForLeast(len: nat, n: nat)
    ensures SectorsFor(len) <= n <==> len <= n * SECTOR_SIZE
  {
  }

  /** The extent of file `i` lies in the data area and covers its length. */
  ghost predicate Housed(t: Table, i: nat, sectors: nat) {
    2 <= i <= INODE_COUNT && t[i - 1].kind == 1 ==>
      && SectorsFor(t[i - 1].len) <= t[i - 1].sectorCount
      && t[i - 1].startSector + t[i - 1].sectorCount <= sectors
      && (t[i - 1].sectorCount != 0 ==> DATA_START <= t[i - 1].startSector)
  }

  /** Extents are housed and pairwise disjoint. */
  ghost predicate Extents(t: Table, sectors: nat) {
    && (forall i :: Housed(t, i, sectors))
    && (forall i, j, s :: Owns(t, i, s) && Owns(t, j, s) ==> i == j)
  }

  ghost predicate OwnedByOther(t: Table, exclude: nat, s: int) {
    exists j :: Owns(t, j, s) && j != exclude
  }

  /** `n` sectors from `c` on lie in the data area and in no other file. */
  ghost predicate FreeRun(t: Table, exclude: nat, c: nat, n: nat, sectors: nat) {
    DATA_START <= c && c + n <= sectors && forall s :: c <= s < c + n ==> !OwnedByOther(t, exclude, s)
  }

  /** The lowest free run, or the exact absence of one. */
  ghost predicate FirstFit(t: Table, exclude: nat, n: nat, sectors: nat, r: Result<nat, VfsError>) {
    match r
    case Ok(c) => FreeRun(t, exclude, c, n, sectors) && forall d: nat :: d < c ==> !FreeRun(t, exclude, d, n, sectors)
    case Err(e) => e == NoSpace && forall d: nat :: !FreeRun(t, exclude, d, n, sectors)
  }

  // --------------------------------------------------- the list of used runs

  datatype Run = Run(start: nat, end: nat)

  ghost predicate Sorted(used: seq<Run>) {
    forall i, j :: 0 <= i < j < |used| ==> used[i].start <= used[j].start
  }

  function InsertRun(used: seq<Run>, r: Run): (s: seq<Run>)
    ensures multiset(s) == multiset(used) + multiset{r}
  {
    if used == [] then [r]
    else if r.start <= used[0].start then [r] + used
    else
      assert used == [used[0]] + used[1..];
      [used[0]] + InsertRun(used[1..], r)
  }

  /** Stands for the library sort by start sector. */
  function SortRuns(used: seq<Run>): (s: seq<Run>)
    ensures multiset(s) == multiset(used)
  {
    if used == [] then []
    else
      assert used == [used[0]] + used[1..];
      InsertRun(SortRuns(used[1..]), used[0])
  }

  lemma {:induction false} InsertSorted(used: seq<Run>, r: Run)
    requires Sorted(used)
    ensures Sorted(InsertRun(used, r))
  {
    if used != [] && used[0].start < r.start {
      var rest := InsertRun(used[1..], r);
      InsertSorted(used[1..], r);
      forall x | x in rest
        ensures used[0].start <= x.start
      {
        assert x in multiset(rest);
        assert x in multiset(used[1..]) || x == r;
        if x in multiset(used[1..]) {
          assert x in used[1..];
        }
      }
    }
  }

  lemma {:induction false} SortSorts(used: seq<Run>)
    ensures Sorted(SortRuns(used))
  {
    if used != [] {
      SortSorts(used[1..]);
      InsertSorted(SortRuns(used[1..]), used[0]);
    }
  }

  lemma SortKeeps(used: seq<Run>, r: Run)
    ensures r in SortRuns(used) <==> r in used
  {
    assert r in SortRuns(used) <==> r in multiset(SortRuns(used));
    assert r in used <==> r in multiset(used);
  }

  /** `used` lists exactly the runs of the files other than `exclude` below inode `i`. */
  ghost predicate Lists(t: Table, exclude: nat, i: nat, used: seq<Run>) {
    && (forall r :: r in used ==> exists j: nat :: HasRun(t, exclude, j, r) && j < i)
    && (forall j: nat, r :: HasRun(t, exclude, j, r) && j < i ==> r in used)
  }

  predicate HasRun(t: Table, exclude: nat, j: nat, r: Run) {
    2 <= j <= INODE_COUNT && j != exclude && t[j - 1].kind == 1 && t[j - 1].sectorCount != 0 &&
    r == Run(t[j - 1].startSector, t[j - 1].startSector + t[j - 1].sectorCount)
  }

  /** `c` leaves `n` sectors clear of all of `used`. */
  ghost predicate Clear(used: seq<Run>, c: nat, n: nat) {
    forall r :: r in used ==> c + n <= r.start || r.end <= c
  }

  lemma ClearIsFree(t: Table, exclude: nat, used: seq<Run>, c: nat, n: nat, sectors: nat)
    requires Lists(t, exclude, INODE_COUNT + 1, used) && n > 0
    ensures FreeRun(t, exclude, c, n, sectors) <==> DATA_START <= c && c + n <= sectors && Clear(used, c, n)
  {
    if FreeRun(t, exclude, c, n, sectors) {
      forall r | r in used
        ensures c + n <= r.start || r.end <= c
      {
        var j: nat :| HasRun(t, exclude, j, r);
        var s := if r.start < c then c else r.start;
        assert Owns(t, j, s) ==> OwnedByOther(t, exclude, s);
      }
    }
    if Clear(used, c, n) {
      forall s | c <= s < c + n
        ensures !OwnedByOther(t, exclude, s)
      {
        if OwnedByOther(t, exclude, s) {
          var j :| Owns(t, j, s) && j != exclude;
          var r := Run(t[j - 1].startSector, t[j - 1].startSector + t[j - 1].sectorCount);
          assert HasRun(t, exclude, j, r);
        }
      }
    }
  }

  /** `find_extent`: collect, sort, scan. */
  method FindExtent(t: Table, sectors: nat, n: nat, exclude: nat) returns (r: Result<nat, VfsError>)
    requires Extents(t, sectors)
    ensures n == 0 ==> r == Ok(0)
    ensures n > 0 ==> FirstFit(t, exclude, n, sectors, r)
  {
    if n == 0 {
      r := Ok(0);
    } else {
      var used := UsedRuns(t, exclude);
      var sorted := SortRuns(used);
      SortSorts(used);
      SortedLists(t, exclude, used, sectors);
      hide Lists, SortRuns;
      var candidate := Scan(sorted, n, sectors);
      forall d: nat
        ensures FreeRun(t, exclude, d, n, sectors) <==> DATA_START <= d && d + n <= sectors && Clear(sorted, d, n)
      {
        ClearIsFree(t, exclude, sorted, d, n, sectors);
      }
      r := if candidate + n <= sectors then Ok(candidate) else Err(NoSpace);
    }
  }

  lemma SortedLists(t: Table, exclude: nat, used: seq<Run>, sectors: nat)
    requires Lists(t, exclude, INODE_COUNT + 1, used) && Extents(t, sectors)
    ensures Lists(t, exclude, INODE_COUNT + 1, SortRuns(used))
    ensures forall r :: r in SortRuns(used) ==> r.start < r.end <= sectors
  {
    forall r
      ensures r in SortRuns(used) <==> r in used
    {
      SortKeeps(used, r);
    }
    forall r | r in SortRuns(used)
      ensures r.start < r.end <= sectors
    {
      var j: nat :| HasRun(t, exclude, j, r);
      assert Housed(t, j, sectors);
    }
  }

  method UsedRuns(t: Table, exclude: nat) returns (used: seq<Run>)
    ensures Lists(t, exclude, INODE_COUNT + 1, used)
  {
    used := [];
    var inode := 2;
    while inode <= INODE_COUNT
      invariant 2 <= inode <= INODE_COUNT + 1
      invariant Lists(t, exclude, inode, used)
    {
      var entry := t[inode - 1];
      if inode != exclude && entry.kind == 1 && entry.sectorCount != 0 {
        var run := Run(entry.startSector, entry.startSector + entry.sectorCount);
        assert HasRun(t, exclude, inode, run);
        used := used + [run];
      }
      inode := inode + 1;
    }
  }

  /** The lowest start that clears all runs; it may lie beyond the last sector. */
  method Scan(used: seq<Run>, n: nat, sectors: nat) returns (candidate: nat)
    requires Sorted(used) && n > 0 && forall r :: r in used ==> r.start < r.end <= sectors
    ensures DATA_START <= candidate && Clear(used, candidate, n)
    ensures forall d: nat :: DATA_START <= d < candidate ==> !Clear(used, d, n)
  {
    candidate := DATA_START;
    var i, done := 0, false;
    while i < |used| && !done
      invariant i <= |used| && DATA_START <= candidate
      invariant forall k :: 0 <= k < i ==> used[k].end <= candidate
      invariant done ==> i < |used| && candidate + n <= used[i].start
      invariant forall d: nat :: DATA_START <= d < candidate ==> !Clear(used, d, n)
      decreases |used| - i, if done then 0 else 1
    {
      if candidate + n <= used[i].start {
        done := true;
      } else {
        assert used[i] in used;
        candidate := if candidate < used[i].end then used[i].end else candidate;
        i := i + 1;
      }
    }
    forall r | r in used
      ensures candidate + n <= r.start || r.end <= candidate
    {
      var k :| 0 <= k < |used| && used[k] == r;
    }
  }
}

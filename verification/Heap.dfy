/**
 The kernel heap: first fit over sorted free ranges, with every live block known
 to the specification, so that blocks and free ranges always tile the heap.
 */
module Heap {
  import opened Wrappers
  import opened Units
  import opened Ranges

  const MAX_FREE_RANGES: nat := 256

  ghost predicate InLive(live: set<Region>, x: int) {
    exists b :: b in live && b.start <= x < b.end
  }

  ghost predicate Disjoint(live: set<Region>) {
    forall b, c :: b in live && c in live && b != c ==> b.end <= c.start || c.end <= b.start
  }

  /** Free ranges and live blocks tile [lo, hi): every byte is in exactly one of them. */
  ghost predicate Tiled(lo: nat, hi: nat, free: seq<Region>, live: set<Region>) {
    && lo < hi <= U64_MAX && Canonical(free)
    && (forall x :: lo <= x < hi <==> Covers(free, x) || InLive(live, x))
    && (forall x :: !(Covers(free, x) && InLive(live, x)))
    && (forall b :: b in live ==> b.start < b.end)
    && Disjoint(live)
  }

  /** What a first-fit scan makes of one free range. */
  datatype Probe = Stop | Skip | Take(start: nat)

  function Examine(region: Region, size: nat, alignment: nat, full: bool): Probe
    requires alignment > 0
  {
    match AlignUp(region.start, alignment)
    case None => Stop
    case Some(start) =>
      if start + size > U64_MAX then Stop
      else if start + size > region.end then Skip
      else if start > region.start && start + size < region.end && full then Skip
      else Take(start)
  }

  lemma ExamineFits(region: Region, size: nat, alignment: nat, full: bool)
    requires PowerOfTwo(alignment) && alignment <= U64_MAX && region.end <= U64_MAX
    ensures Examine(region, size, alignment, full).Take? ==>
              var a := Examine(region, size, alignment, full).start;
              a % alignment == 0 && region.start <= a && a + size <= region.end
  {
    FitInIsLowest(region, size, alignment, 0);
  }

  /** A scan that skipped everything up to a stop or the end has missed no fit. */
  lemma ScanMissesNone(free: seq<Region>, i: nat, size: nat, alignment: nat)
    requires Canonical(free) && size > 0 && PowerOfTwo(alignment) && alignment <= U64_MAX
    requires forall k :: 0 <= k < |free| ==> free[k].end <= U64_MAX
    requires i <= |free| && forall k :: 0 <= k < i ==> Examine(free[k], size, alignment, false).Skip?
    requires i < |free| ==> Examine(free[i], size, alignment, false).Stop?
    ensures NoFit(free, size, alignment)
  {
    hide Examine;
    forall a: nat
      ensures !Fits(free, a, size, alignment)
    {
      BlockInOneRegion(free, a, a + size);
      forall k | 0 <= k < |free|
        ensures !(a % alignment == 0 && free[k].start <= a && a + size <= free[k].end)
      {
        var j := if k < i then k else i;
        assert free[j].start <= free[k].start;
        ProbeMisses(free[j], free[k], size, alignment, a);
      }
    }
  }

  ghost predicate IsLowest(free: seq<Region>, a: nat, size: nat, alignment: nat)
    requires alignment > 0
  {
    forall x: nat :: Fits(free, x, size, alignment) ==> a <= x
  }

  /** The first range that is taken holds the lowest fit. */
  lemma FirstTakeIsLowest(free: seq<Region>, i: nat, size: nat, alignment: nat, a: nat)
    requires Canonical(free) && size > 0 && PowerOfTwo(alignment) && alignment <= U64_MAX
    requires forall k :: 0 <= k < |free| ==> free[k].end <= U64_MAX
    requires i < |free| && forall k :: 0 <= k < i ==> Examine(free[k], size, alignment, false).Skip?
    requires Examine(free[i], size, alignment, false) == Take(a)
    ensures IsLowest(free, a, size, alignment)
  {
    hide Examine;
    assert alignment > 0;
    TakeStart(free[i], size, alignment, a);
    forall x: nat
      ensures Fits(free, x, size, alignment) ==> a <= x
    {
      BlockInOneRegion(free, x, x + size);
      forall k | 0 <= k < |free|
        ensures x % alignment == 0 && free[k].start <= x && x + size <= free[k].end ==> a <= x
      {
        if k < i {
          ProbeMisses(free[k], free[k], size, alignment, x);
        } else {
          FitInIsLowest(free[i], size, alignment, x);
          assert k > i ==> a < free[i].end <= free[k].start;
        }
      }
    }
  }

  lemma TakeStart(r: Region, size: nat, alignment: nat, a: nat)
    requires size > 0 && PowerOfTwo(alignment) && alignment <= U64_MAX && r.end <= U64_MAX
    requires Examine(r, size, alignment, false) == Take(a)
    ensures a < r.end && FitIn(r, size, alignment) == Some(a)
  {
    hide PowerOfTwo;
  }

  /** A range that is skipped holds no fit, and after a stop no range from there on does. */
  lemma ProbeMisses(s: Region, r: Region, size: nat, alignment: nat, a: nat)
    requires size > 0 && PowerOfTwo(alignment) && alignment <= U64_MAX && r.end <= U64_MAX && s.start <= r.start
    requires Examine(s, size, alignment, false).Stop? || (Examine(s, size, alignment, false).Skip? && s == r)
    ensures !(a % alignment == 0 && r.start <= a && a + size <= r.end)
  {
    hide PowerOfTwo;
    FitInIsLowest(Region(s.start, r.end), size, alignment, a);
  }

  /** A block at the lowest fit of range `i`; when no range can be added, only at one of its ends. */
  ghost predicate Placeable(free: seq<Region>, i: nat, a: nat, size: nat, alignment: nat, full: bool)
    requires alignment > 0
  {
    && i < |free| && FitIn(free[i], size, alignment) == Some(a)
    && (full ==> a == free[i].start || a + size == free[i].end)
  }

  ghost predicate FirstPlaceable(free: seq<Region>, a: nat, size: nat, alignment: nat, full: bool)
    requires alignment > 0
  {
    exists i: nat :: Placeable(free, i, a, size, alignment, full)
                     && forall j: nat, b: nat :: j < i ==> !Placeable(free, j, b, size, alignment, full)
  }

  ghost predicate NonePlaceable(free: seq<Region>, size: nat, alignment: nat, full: bool)
    requires alignment > 0
  {
    forall i: nat, a: nat :: !Placeable(free, i, a, size, alignment, full)
  }

  lemma ExamineIsPlaceable(free: seq<Region>, i: nat, a: nat, size: nat, alignment: nat, full: bool)
    requires alignment > 0 && i < |free| && free[i].end <= U64_MAX
    ensures Placeable(free, i, a, size, alignment, full) <==> Examine(free[i], size, alignment, full) == Take(a)
  {
  }

  /** The first range taken is the first that can be. */
  lemma TakesFirst(free: seq<Region>, i: nat, size: nat, alignment: nat, full: bool, a: nat)
    requires alignment > 0 && i < |free| && forall k :: 0 <= k < |free| ==> free[k].end <= U64_MAX
    requires forall k :: 0 <= k < i ==> Examine(free[k], size, alignment, full).Skip?
    requires Examine(free[i], size, alignment, full) == Take(a)
    ensures FirstPlaceable(free, a, size, alignment, full)
  {
    hide Examine, Placeable;
    ExamineIsPlaceable(free, i, a, size, alignment, full);
    forall j: nat, b: nat | j < i
      ensures !Placeable(free, j, b, size, alignment, full)
    {
      ExamineIsPlaceable(free, j, b, size, alignment, full);
    }
  }

  /** A scan that skips all, or stops, has passed over nothing that could be taken. */
  lemma TakesNone(free: seq<Region>, i: nat, size: nat, alignment: nat, full: bool)
    requires Canonical(free) && size > 0 && PowerOfTwo(alignment) && alignment <= U64_MAX && i <= |free|
    requires forall k :: 0 <= k < |free| ==> free[k].end <= U64_MAX
    requires forall k :: 0 <= k < i ==> Examine(free[k], size, alignment, full).Skip?
    requires i < |free| ==> Examine(free[i], size, alignment, full).Stop?
    ensures NonePlaceable(free, size, alignment, full)
  {
    hide PowerOfTwo;
    assert alignment > 0 by { PowerIsPositive(alignment); }
    forall j: nat, a: nat
      ensures !Placeable(free, j, a, size, alignment, full)
    {
      if j < i {
        ExamineIsPlaceable(free, j, a, size, alignment, full);
      } else if j < |free| {
        StopsFrom(free, i, j, size, alignment, full, a);
      }
    }
  }

  lemma PowerIsPositive(n: nat)
    requires PowerOfTwo(n)
    ensures n > 0
  {
  }

  lemma StopsFrom(free: seq<Region>, i: nat, j: nat, size: nat, alignment: nat, full: bool, a: nat)
    requires Canonical(free) && size > 0 && PowerOfTwo(alignment) && alignment <= U64_MAX && i <= j < |free|
    requires free[j].end <= U64_MAX && Examine(free[i], size, alignment, full).Stop?
    ensures !Placeable(free, j, a, size, alignment, full)
  {
    hide PowerOfTwo;
    PowerIsPositive(alignment);
    assert free[i].start <= free[j].start;
    FitInIsLowest(free[j], size, alignment, a);
    ProbeMisses(free[i], free[j], size, alignment, a);
  }

  lemma TakeTiles(lo: nat, hi: nat, free: seq<Region>, live: set<Region>, free': seq<Region>, a: nat, b: nat)
    requires Tiled(lo, hi, free, live) && a < b && Canonical(free')
    requires forall x :: a <= x < b ==> Covers(free, x)
    requires forall x :: Covers(free', x) <==> Covers(free, x) && !(a <= x < b)
    ensures Tiled(lo, hi, free', live + {Region(a, b)}) && Region(a, b) !in live
  {
    hide Covers, Canonical;
    var block := Region(a, b);
    var live' := live + {block};
    assert Covers(free, a);
    assert block in live ==> InLive(live, a);
    forall x
      ensures lo <= x < hi <==> Covers(free', x) || InLive(live', x)
      ensures !(Covers(free', x) && InLive(live', x))
    {
      LiveAfter(live, block, x);
    }
    forall c | c in live
      ensures c.end <= a || b <= c.start
    {
      var x := if a < c.start then c.start else a;
      assert c.start <= x < c.end ==> InLive(live, x);
    }
  }

  lemma LiveAfter(live: set<Region>, block: Region, x: int)
    ensures InLive(live + {block}, x) <==> InLive(live, x) || block.start <= x < block.end
    ensures Disjoint(live) && block in live ==>
              (InLive(live - {block}, x) <==> InLive(live, x) && !(block.start <= x < block.end))
  {
    assert block in live + {block};
    if InLive(live, x) {
      var b :| b in live && b.start <= x < b.end;
      assert b in live + {block} && (b != block ==> b in live - {block});
    }
  }

  lemma ReturnTiles(lo: nat, hi: nat, free: seq<Region>, live: set<Region>, free': seq<Region>, block: Region)
    requires Tiled(lo, hi, free, live) && block in live && Canonical(free')
    requires forall x :: Covers(free', x) <==> Covers(free, x) || block.start <= x < block.end
    ensures Tiled(lo, hi, free', live - {block})
  {
    hide Covers, Canonical;
    forall x
      ensures lo <= x < hi <==> Covers(free', x) || InLive(live - {block}, x)
      ensures !(Covers(free', x) && InLive(live - {block}, x))
    {
      LiveAfter(live, block, x);
      assert block.start <= x < block.end ==> InLive(live, x);
    }
  }

  lemma WholeHeapTiles(lo: nat, hi: nat)
    requires lo < hi <= U64_MAX
    ensures Tiled(lo, hi, [Region(lo, hi)], {}) && Size([Region(lo, hi)]) == hi - lo
  {
    SizeOne(lo, hi);
    var whole := [Region(lo, hi)];
    forall x
      ensures lo <= x < hi <==> Covers(whole, x) || InLive({}, x)
      ensures !(Covers(whole, x) && InLive({}, x))
    {
      CoversOne(lo, hi, x);
    }
  }

  /** With nothing live, whatever the order of the frees, the initial range is back in one piece. */
  lemma EmptyHeapIsWhole(lo: nat, hi: nat, free: seq<Region>)
    requires Tiled(lo, hi, free, {})
    ensures free == [Region(lo, hi)] && Size(free) == hi - lo
  {
    SizeOne(lo, hi);
    forall x
      ensures Covers(free, x) <==> Covers([Region(lo, hi)], x)
    {
      CoversOne(lo, hi, x);
      assert !InLive({}, x);
    }
    CanonicalUnique(free, [Region(lo, hi)]);
  }

  class HeapState {
    const start: nat
    const end: nat
    const free: array<Region>
    var freeLen: nat
    var freeBytes: nat
    ghost var live: set<Region>

    ghost predicate Shaped()
      reads this
    {
      free.Length == MAX_FREE_RANGES && freeLen <= MAX_FREE_RANGES
    }

    ghost function Free(): seq<Region>
      requires Shaped()
      reads this, free
    {
      free[..freeLen]
    }

    /** The free list is in order, whatever is live. */
    ghost predicate ListKept()
      reads this, free
    {
      Shaped() && Canonical(Free()) && freeBytes == Size(Free())
    }

    ghost predicate Valid()
      reads this, free
    {
      ListKept() && Tiled(start, end, Free(), live)
    }

    /** `init`: one free range, nothing live. */
    constructor (start: nat, size: nat)
      requires size > 0 && start + size <= U64_MAX
      ensures Valid() && fresh(free) && this.start == start && end == start + size
      ensures Free() == [Region(start, start + size)] && live == {} && freeBytes == size
    {
      this.start, end := start, start + size;
      free := new Region[MAX_FREE_RANGES](_ => Region(0, 0));
      freeLen, freeBytes, live := 1, size, {};
      new;
      free[0] := Region(start, start + size);
      assert free[..1] == [Region(start, start + size)];
      WholeHeapTiles(start, start + size);
    }

    /**
     Hands out an aligned block that was free, and makes it live.  While the range list
     is not full, that is the lowest such block, and None means that there was none; nothing
     has changed then.
     */
    method Allocate(layoutSize: nat, alignment: nat) returns (r: Option<nat>)
      requires Valid() && PowerOfTwo(alignment) && alignment <= U64_MAX
      modifies this`freeLen, this`freeBytes, this`live, free
      ensures Valid()
      ensures var size := if layoutSize == 0 then 1 else layoutSize;
              && (r.Some? ==>
                    && Fits(old(Free()), r.value, size, alignment)
                    && FirstPlaceable(old(Free()), r.value, size, alignment, old(freeLen) == MAX_FREE_RANGES)
                    && (old(freeLen) < MAX_FREE_RANGES ==> IsLowest(old(Free()), r.value, size, alignment))
                    && Region(r.value, r.value + size) !in old(live)
                    && live == old(live) + {Region(r.value, r.value + size)}
                    && freeBytes == old(freeBytes) - size)
              && (r.None? ==>
                    && Free() == old(Free()) && live == old(live) && freeBytes == old(freeBytes)
                    && NonePlaceable(Free(), size, alignment, freeLen == MAX_FREE_RANGES)
                    && (freeLen < MAX_FREE_RANGES ==> NoFit(Free(), size, alignment)))
    {
      hide Tiled, Fits, NoFit, Examine, IsLowest, FirstPlaceable, NonePlaceable;
      var size := if layoutSize == 0 then 1 else layoutSize;
      var full := freeLen == MAX_FREE_RANGES;
      var index := 0;
      while index < freeLen && Examine(free[index], size, alignment, full).Skip?
        invariant index <= freeLen
        invariant forall k :: 0 <= k < index ==> Examine(free[k], size, alignment, full).Skip?
      {
        index := index + 1;
      }
      if index < freeLen && Examine(free[index], size, alignment, full).Take? {
        var a := Examine(free[index], size, alignment, full).start;
        TiledEnds(start, end, Free(), live);
        TakesFirst(Free(), index, size, alignment, full, a);
        if !full {
          FirstTakeIsLowest(Free(), index, size, alignment, a);
        }
        TakeAt(index, a, size, alignment);
        r := Some(a);
      } else {
        TiledEnds(start, end, Free(), live);
        TakesNone(Free(), index, size, alignment, full);
        if !full {
          ScanMissesNone(Free(), index, size, alignment);
        }
        r := None;
      }
    }

    /** The carving end of `Allocate`. */
    method TakeAt(index: nat, a: nat, size: nat, alignment: nat)
      requires Valid() && PowerOfTwo(alignment) && alignment <= U64_MAX && size > 0 && index < freeLen
      requires Examine(free[index], size, alignment, freeLen == MAX_FREE_RANGES) == Take(a)
      modifies this`freeLen, this`freeBytes, this`live, free
      ensures Valid()
      ensures Fits(old(Free()), a, size, alignment)
      ensures Region(a, a + size) !in old(live) && live == old(live) + {Region(a, a + size)}
      ensures freeBytes == old(freeBytes) - size
    {
      hide Tiled, Canonical, Covers, PowerOfTwo, Carve, Size, Examine, Fits;
      TakeFacts(start, end, Free(), live, index, a, size, alignment, freeLen == MAX_FREE_RANGES);
      freeLen := CarveAt(free, freeLen, index, a, a + size);
      freeBytes := freeBytes - size;
      live := live + {Region(a, a + size)};
    }

    /**
     Gives any block back.  False stands for the source's panic: it accepts a block exactly if that
     lies in the heap, overlaps no free range, and needs no range more than there is room for.
     What it accepts keeps the tiling if and only if the block is live.
     */
    method Deallocate(a: nat, layoutSize: nat) returns (ok: bool)
      requires Valid()
      modifies this`freeLen, this`freeBytes, this`live, free
      ensures var size := if layoutSize == 0 then 1 else layoutSize;
              var block := Region(a, a + size);
              && ListKept() && (ok <==> Freeable(start, end, old(Free()), a, a + size))
              && (ok ==> && CoversMore(Free(), old(Free()), block) && live == old(live) - {block}
                         && freeBytes == old(freeBytes) + size <= end - start)
              && (!ok ==> live == old(live) && Free() == old(Free()) && freeBytes == old(freeBytes))
              && (Valid() <==> !ok || block in old(live))
      ensures Valid() && live == {} ==> Free() == [Region(start, end)] && freeBytes == end - start
    {
      hide Tiled, Canonical, Fuse, Size, StartsAt, Freeable, CoversMore;
      var size := if layoutSize == 0 then 1 else layoutSize;
      var b := a + size;
      ghost var s, block := Free(), Region(a, b);
      TiledEnds(start, end, s, live);
      ok := start <= a && b <= end;
      OutsideHeap(start, end, s, a, b);
      if ok {
        var index := FindSlot(free, freeLen, a);
        FreeableIff(start, end, s, index, a, b);
        ok := (index > 0 ==> free[index - 1].end <= a) && (index < freeLen ==> b <= free[index].start);
        if ok {
          ReturnFacts(start, end, s, live, index, block);
          ok, freeLen := FuseAt(free, freeLen, index, a, b);
          if ok {
            freeBytes := freeBytes + size;
            live := live - {block};
          }
        }
      }
      if Tiled(start, end, Free(), live) && live == {} {
        EmptyHeapIsWhole(start, end, Free());
      }
    }
  }

  /** What the assertions of `deallocate` let through. */
  ghost predicate Freeable(lo: nat, hi: nat, s: seq<Region>, a: nat, b: nat) {
    && lo <= a && b <= hi && (forall x :: a <= x < b ==> !Covers(s, x))
    && (|s| < MAX_FREE_RANGES || Covers(s, a - 1) || Covers(s, b))
  }

  /** The list `t` covers what `s` does and the block besides. */
  ghost predicate CoversMore(t: seq<Region>, s: seq<Region>, block: Region) {
    forall x :: Covers(t, x) <==> Covers(s, x) || block.start <= x < block.end
  }

  lemma OutsideHeap(lo: nat, hi: nat, s: seq<Region>, a: nat, b: nat)
    ensures !(lo <= a && b <= hi) ==> !Freeable(lo, hi, s, a, b)
  {
  }

  lemma FreeableIff(lo: nat, hi: nat, s: seq<Region>, i: nat, a: nat, b: nat)
    requires Canonical(s) && StartsAt(s, i, a) && a < b && lo <= a && b <= hi
    ensures Freeable(lo, hi, s, a, b) <==>
            Gap(s, i, a, b) && (|s| < MAX_FREE_RANGES || TouchesLeft(s, i, a) || TouchesRight(s, i, b))
  {
    hide Covers, Canonical, StartsAt;
    GapIsDisjoint(s, i, a, b);
  }

  /** Returning bytes that were not free keeps the tiling exactly if they are a live block. */
  lemma ReturnTilesIff(lo: nat, hi: nat, free: seq<Region>, live: set<Region>, free': seq<Region>, block: Region)
    requires Tiled(lo, hi, free, live) && Canonical(free') && lo <= block.start < block.end <= hi
    requires forall x :: block.start <= x < block.end ==> !Covers(free, x)
    requires CoversMore(free', free, block)
    ensures Tiled(lo, hi, free', live - {block}) <==> block in live
  {
    hide Covers, Canonical;
    if block in live {
      ReturnTiles(lo, hi, free, live, free', block);
    } else {
      assert live - {block} == live;
      assert InLive(live, block.start) && Covers(free', block.start);
    }
  }

  /** The counter never outgrows the heap, so the assertion that closes `deallocate` never fires. */
  lemma ReturnFacts(lo: nat, hi: nat, s: seq<Region>, live: set<Region>, i: nat, block: Region)
    requires Tiled(lo, hi, s, live) && lo <= block.start < block.end <= hi
    requires StartsAt(s, i, block.start) && Gap(s, i, block.start, block.end)
    ensures var t := Fuse(s, i, block.start, block.end);
            && Canonical(t) && CoversMore(t, s, block) && Size(t) == Size(s) + (block.end - block.start) <= hi - lo
            && (Tiled(lo, hi, t, live - {block}) <==> block in live)
  {
    hide Tiled, Canonical, Covers, Fuse, Size, Gap;
    TiledEnds(lo, hi, s, live);
    var t := Fuse(s, i, block.start, block.end);
    GapIsDisjoint(s, i, block.start, block.end);
    FuseKeeps(s, i, block.start, block.end);
    ReturnTilesIff(lo, hi, s, live, t, block);
    StillInside(lo, hi, s, live, t, block);
  }

  lemma StillInside(lo: nat, hi: nat, free: seq<Region>, live: set<Region>, free': seq<Region>, block: Region)
    requires Tiled(lo, hi, free, live) && Canonical(free') && lo <= block.start < block.end <= hi
    requires CoversMore(free', free, block)
    ensures Size(free') <= hi - lo
  {
    hide Size, Canonical, Covers;
    WholeHeapTiles(lo, hi);
    SizeMonotone(free', [Region(lo, hi)]);
  }

  lemma TakeFacts(
      lo: nat, hi: nat, s: seq<Region>, live: set<Region>, i: nat, a: nat, size: nat, alignment: nat, full: bool)
    requires Tiled(lo, hi, s, live) && PowerOfTwo(alignment) && alignment <= U64_MAX && size > 0 && i < |s|
    requires Examine(s[i], size, alignment, full) == Take(a)
    ensures s[i].start <= a && a + size <= s[i].end && Fits(s, a, size, alignment)
    ensures full ==> a == s[i].start || a + size == s[i].end
    ensures Tiled(lo, hi, Carve(s, i, a, a + size), live + {Region(a, a + size)}) && Region(a, a + size) !in live
    ensures Canonical(Carve(s, i, a, a + size))
    ensures Size(Carve(s, i, a, a + size)) == Size(s) - size >= 0
  {
    hide Tiled, Canonical, Covers, PowerOfTwo, Carve, Size;
    TiledEnds(lo, hi, s, live);
    ExamineFits(s[i], size, alignment, full);
    CarveKeeps(s, i, a, a + size);
    BlockInOneRegion(s, a, a + size);
    TakeTiles(lo, hi, s, live, Carve(s, i, a, a + size), a, a + size);
    SizeIsCardinality(Carve(s, i, a, a + size));
  }

  lemma TiledEnds(lo: nat, hi: nat, free: seq<Region>, live: set<Region>)
    requires Tiled(lo, hi, free, live)
    ensures Canonical(free) && forall k :: 0 <= k < |free| ==> free[k].end <= hi <= U64_MAX
  {
    forall k | 0 <= k < |free|
      ensures free[k].end <= hi
    {
      assert Covers(free, free[k].end - 1);
    }
  }
}

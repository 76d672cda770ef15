/**
 Firmware memory maps: the bootstrap bump allocator, how the permanent allocator
 starts from a map, and the agreement of the two.
 */
module MemoryMaps {
  import opened Wrappers
  import opened Units
  import opened Ranges
  import opened PhysicalMemory

  datatype MapError = MapReversed | MapOverlap

  /** Sorted, disjoint, not reversed: what both allocators demand of a map. */
  ghost predicate Accepts(regions: seq<Region>) {
    && (forall i :: 0 <= i < |regions| ==> regions[i].start <= regions[i].end <= U64_MAX)
    && (forall i, j :: 0 <= i < j < |regions| ==> regions[i].end <= regions[j].start)
  }

  /** The page of `a` lies wholly inside `r` and is not page zero. */
  ghost predicate Inside(r: Region, a: int) {
    PAGE_SIZE <= PageOf(a) && r.start <= PageOf(a) && PageOf(a) + PAGE_SIZE <= r.end
  }

  /** The page of `a` lies wholly inside one region of the map. */
  ghost predicate Usable(regions: seq<Region>, a: int) {
    exists i :: 0 <= i < |regions| && Inside(regions[i], a)
  }

  lemma UsableJoin(s: seq<Region>, r: Region, a: int)
    ensures Usable(s + [r], a) <==> Usable(s, a) || Inside(r, a)
  {
    var u := s + [r];
    assert u[|s|] == r;
    assert forall i :: 0 <= i < |s| ==> u[i] == s[i];
  }

  // ------------------------------------------------------- the bump allocator

  /** `a` is still to be handed out by a bump allocator that has reached `next`. */
  ghost predicate Remaining(regions: seq<Region>, next: nat, a: int) {
    Usable(regions, a) && next <= a
  }

  class FrameAllocator {
    const regions: seq<Region>
    var index: nat
    var next: nat

    ghost predicate Valid()
      reads this
    {
      && Accepts(regions) && index <= |regions| && next % PAGE_SIZE == 0 && PAGE_SIZE <= next
      && forall i, a :: 0 <= i < index && Inside(regions[i], a) ==> a < next
    }

    constructor (regions: seq<Region>)
      requires Accepts(regions)
      ensures Valid() && this.regions == regions
      ensures forall a :: Remaining(regions, next, a) <==> Usable(regions, a)
    {
      this.regions, index, next := regions, 0, PAGE_SIZE;
    }

    /** The lowest page not yet handed out, and None exactly when there is none left. */
    method Allocate() returns (r: Option<nat>)
      requires Valid()
      modifies this
      ensures Valid()
      ensures r.None? ==> next == old(next) && forall a :: !Remaining(regions, next, a)
      ensures r.Some? ==>
                && r.value % PAGE_SIZE == 0 && next == r.value + PAGE_SIZE && Remaining(regions, old(next), r.value)
                && forall a :: Remaining(regions, old(next), a) ==> r.value <= a
    {
      r := None;
      while index < |regions| && r.None?
        invariant r.None? ==> Valid() && next == old(next)
        invariant r.Some? ==>
                    && Valid() && r.value % PAGE_SIZE == 0 && next == r.value + PAGE_SIZE && old(next) <= r.value
                    && Usable(regions, r.value)
                    && forall a :: Usable(regions, a) && old(next) <= a ==> r.value <= a
        decreases |regions| - index, if r.None? then 1 else 0
      {
        var region := regions[index];
        r := Candidate(next, region);
        CandidateIsLowest(next, region);
        if r.Some? {
          LowestOverall(regions, index, next, r.value);
          next := r.value + PAGE_SIZE;
        } else {
          index := index + 1;
        }
      }
    }
  }

  /** The first whole page of `region` from `next` on. */
  function Candidate(next: nat, region: Region): Option<nat> {
    var start := if next < region.start then region.start else next;
    match AlignUp(if start < PAGE_SIZE then PAGE_SIZE else start, PAGE_SIZE)
    case None => None
    case Some(frame) =>
      if frame + PAGE_SIZE > U64_MAX || frame + PAGE_SIZE > region.end then None else Some(frame)
  }

  lemma CandidateIsLowest(next: nat, region: Region)
    requires next % PAGE_SIZE == 0 && region.end <= U64_MAX
    ensures match Candidate(next, region)
            case None => forall a :: Inside(region, a) ==> a < next
            case Some(frame) =>
              && frame % PAGE_SIZE == 0 && next <= frame && Inside(region, frame)
              && forall a :: Inside(region, a) && next <= a ==> frame <= a
  {
  }

  lemma LowestOverall(regions: seq<Region>, index: nat, next: nat, frame: nat)
    requires Accepts(regions) && index < |regions|
    requires forall i, a :: 0 <= i < index && Inside(regions[i], a) ==> a < next
    requires Inside(regions[index], frame)
    requires forall a :: Inside(regions[index], a) && next <= a ==> frame <= a
    ensures Usable(regions, frame)
    ensures forall a :: Usable(regions, a) && next <= a ==> frame <= a
  {
    forall a | Usable(regions, a) && next <= a
      ensures frame <= a
    {
      var i :| 0 <= i < |regions| && Inside(regions[i], a);
      if i > index {
        assert regions[index].end <= regions[i].start;
      }
    }
  }

  /** `FrameAllocator::new`: the map is checked once, front to back. */
  method NewBump(regions: seq<Region>) returns (r: Result<FrameAllocator, MapError>)
    requires forall i :: 0 <= i < |regions| ==> regions[i].end <= U64_MAX
    ensures r.Ok? <==> Accepts(regions)
    ensures r.Ok? ==> fresh(r.value) && r.value.Valid() && r.value.regions == regions
    ensures r.Ok? ==> forall a :: Remaining(regions, r.value.next, a) <==> Usable(regions, a)
  {
    var previousEnd, i := 0, 0;
    while i < |regions|
      invariant i <= |regions| && Accepts(regions[..i])
      invariant previousEnd == if i == 0 then 0 else regions[i - 1].end
    {
      AcceptsNext(regions, i);
      if regions[i].end < regions[i].start {
        return Err(MapReversed);
      }
      if regions[i].start < previousEnd {
        return Err(MapOverlap);
      }
      previousEnd := regions[i].end;
      i := i + 1;
    }
    assert regions[..i] == regions;
    var bump := new FrameAllocator(regions);
    r := Ok(bump);
  }

  lemma AcceptsNext(regions: seq<Region>, i: nat)
    requires i < |regions| && Accepts(regions[..i]) && regions[i].end <= U64_MAX
    ensures Accepts(regions[..i + 1]) <==>
            regions[i].start <= regions[i].end && (i > 0 ==> regions[i - 1].end <= regions[i].start)
    ensures Accepts(regions) ==> Accepts(regions[..i + 1])
  {
    var t := regions[..i + 1];
    assert forall k :: 0 <= k < i ==> regions[..i][k] == t[k] == regions[k];
    assert t[i] == regions[i];
    if Accepts(t) && i > 0 {
      assert t[i - 1].end <= t[i].start;
    }
    if regions[i].start <= regions[i].end && (i > 0 ==> regions[i - 1].end <= regions[i].start) {
      forall k | 0 <= k < i
        ensures t[k].end <= t[i].start
      {
        assert k < i - 1 ==> t[k].end <= t[i - 1].start <= t[i - 1].end;
      }
    }
  }

  // ------------------------------------------- starting the page allocator

  /** The whole pages of a region, or nothing; the rounding must not overflow. */
  function Inward(r: Region): (pages: seq<Region>)
    requires r.start <= U64_MAX - (PAGE_SIZE - 1)
  {
    OneIfNonEmpty(FirstWholePage(r.start), r.end - r.end % PAGE_SIZE)
  }

  ghost predicate NoOverflow(regions: seq<Region>) {
    forall i :: 0 <= i < |regions| ==> regions[i].start <= U64_MAX - (PAGE_SIZE - 1)
  }

  ghost function Normalised(regions: seq<Region>): seq<Region>
    requires NoOverflow(regions)
  {
    if regions == [] then []
    else
      var before := Normalised(regions[..|regions| - 1]);
      var pages := Inward(regions[|regions| - 1]);
      if pages == [] then before else Append(before, pages[0])
  }

  lemma InwardIsInside(r: Region, a: int)
    requires r.start <= U64_MAX - (PAGE_SIZE - 1) && r.end <= U64_MAX
    ensures Covers(Inward(r), a) <==> Inside(r, a)
    ensures forall p :: p in Inward(r) ==> PagedRegion(p) && p.start < p.end && r.start <= p.start && p.end <= r.end
  {
    hide Covers, OneIfNonEmpty;
    var low, high := FirstWholePage(r.start), r.end - r.end % PAGE_SIZE;
    CoversOne(low, high, a);
    WholePages(r.start, r.end, a);
    OneOrNone(low, high);
  }

  function FirstWholePage(start: nat): nat
    requires start <= U64_MAX - (PAGE_SIZE - 1)
  {
    AlignUp(if start < PAGE_SIZE then PAGE_SIZE else start, PAGE_SIZE).value
  }

  lemma RoundsUp(v: nat, a: int)
    ensures var up := v + PAGE_SIZE - 1 - (v + PAGE_SIZE - 1) % PAGE_SIZE;
            up % PAGE_SIZE == 0 && v <= up && (up <= a <==> v <= PageOf(a))
  {
    var q, p := (v + PAGE_SIZE - 1) / PAGE_SIZE, a / PAGE_SIZE;
    assert v + PAGE_SIZE - 1 - (v + PAGE_SIZE - 1) % PAGE_SIZE == PAGE_SIZE * q;
    assert PageOf(a) == PAGE_SIZE * p;
  }

  lemma RoundsDown(v: nat, a: int)
    ensures var down := v - v % PAGE_SIZE;
            down % PAGE_SIZE == 0 && down <= v && (a < down <==> PageOf(a) + PAGE_SIZE <= v)
  {
    var q, p := v / PAGE_SIZE, a / PAGE_SIZE;
    assert v - v % PAGE_SIZE == PAGE_SIZE * q;
    assert PageOf(a) == PAGE_SIZE * p;
  }

  lemma WholePages(start: nat, end: nat, a: int)
    requires start <= U64_MAX - (PAGE_SIZE - 1)
    ensures FirstWholePage(start) <= a < end - end % PAGE_SIZE <==>
            PAGE_SIZE <= PageOf(a) && start <= PageOf(a) && PageOf(a) + PAGE_SIZE <= end
    ensures FirstWholePage(start) % PAGE_SIZE == 0
    ensures start <= FirstWholePage(start) && PAGE_SIZE <= FirstWholePage(start)
    ensures (end - end % PAGE_SIZE) % PAGE_SIZE == 0 && end - end % PAGE_SIZE <= end
  {
    hide PageOf;
    RoundsUp(if start < PAGE_SIZE then PAGE_SIZE else start, a);
    RoundsDown(end, a);
  }

  lemma OneOrNone(low: nat, high: nat)
    ensures forall p :: p in OneIfNonEmpty(low, high) ==> p == Region(low, high) && low < high
  {
  }

  /** The initial list is the canonical form of exactly the whole pages of the map. */
  lemma {:induction false} NormalisedIsUsable(regions: seq<Region>)
    requires Accepts(regions) && NoOverflow(regions)
    ensures Canonical(Normalised(regions)) && Paged(Normalised(regions))
    ensures forall a :: Covers(Normalised(regions), a) <==> Usable(regions, a)
    ensures LastEnd(Normalised(regions)) <= LastEnd(regions)
  {
    if regions != [] {
      var init, last := regions[..|regions| - 1], regions[|regions| - 1];
      NormalisedIsUsable(init);
      assert LastEnd(init) <= last.start && LastEnd(regions) == last.end;
      assert regions == init + [last];
      hide Covers, Canonical, Paged, Usable, Inside, Append, Size, PagedRegion, LastEnd, Inward, AlignUp;
      var before, pages := Normalised(init), Inward(last);
      InwardIsInside(last, 0);
      if pages != [] {
        assert pages[0] in pages;
        AppendKeeps(before, pages[0]);
      }
      forall a
        ensures Covers(Normalised(regions), a) <==> Usable(regions, a)
      {
        UsableJoin(init, last, a);
        InwardIsInside(last, a);
        InwardCovers(last, a);
      }
    }
  }

  lemma InwardCovers(r: Region, a: int)
    requires r.start <= U64_MAX - (PAGE_SIZE - 1)
    ensures |Inward(r)| <= 1
    ensures Covers(Inward(r), a) <==> Inward(r) != [] && Inward(r)[0].start <= a < Inward(r)[0].end
  {
  }

  lemma {:induction false} NormalisedGrows(regions: seq<Region>, k: nat)
    requires NoOverflow(regions) && k <= |regions|
    ensures |Normalised(regions[..k])| <= |Normalised(regions)|
    decreases |regions| - k
  {
    if k == |regions| {
      assert regions[..k] == regions;
    } else {
      NormalisedGrows(regions, k + 1);
      assert regions[..k + 1][..k] == regions[..k];
    }
  }

  /** `PhysicalMemory::new`: accepts a map exactly when it is sorted, does not overflow and fits the tables. */
  method NewPhysicalMemory(regions: seq<Region>, capacity: nat) returns (r: Result<PhysicalMemory, PhysicalMemoryError>)
    requires forall i :: 0 <= i < |regions| ==> regions[i].end <= U64_MAX
    ensures r.Ok? <==> Accepts(regions) && NoOverflow(regions) && |Normalised(regions)| <= capacity
    ensures r.Ok? ==>
              && fresh(r.value) && fresh(r.value.managed) && fresh(r.value.free)
              && r.value.Valid() && r.value.capacity == capacity
              && r.value.Managed() == r.value.Free() == Normalised(regions)
    ensures r.Err? ==> Rejects(regions, capacity, r.error)
  {
    hide Accepts, NoOverflow, Normalised, WellKept, Append, Inward, LastEnd, Started, Paged, Canonical;
    var memory := new PhysicalMemory.Empty(capacity);
    NothingStarted(regions);
    var previousEnd, i := 0, 0;
    var error: Option<PhysicalMemoryError> := None;
    while i < |regions| && error.None?
      invariant i <= |regions| && previousEnd == LastEnd(regions[..i])
      invariant fresh(memory) && fresh(memory.managed) && fresh(memory.free)
      invariant memory.Valid() && memory.capacity == capacity && memory.Managed() == memory.Free()
      invariant error.None? ==> Started(regions, i, memory.Free())
      invariant error.Some? ==> Rejects(regions, capacity, error.value)
      decreases |regions| - i, if error.None? then 1 else 0
    {
      var region := regions[i];
      StartedNext(regions, i, memory.Free());
      if region.end < region.start {
        error := Some(ReversedRange);
      } else if region.start < previousEnd {
        error := Some(OverlapOrUnsorted);
      } else if region.start > U64_MAX - (PAGE_SIZE - 1) {
        error := Some(Overflow);
      } else {
        var pages := Inward(region);
        var ok := true;
        if pages != [] {
          ok := memory.PushInitial(pages[0]);
        }
        if ok {
          previousEnd, i := region.end, i + 1;
        } else {
          error := Some(Capacity);
        }
      }
    }
    if error.None? {
      assert regions[..i] == regions;
      AllStarted(regions, memory.Free());
      r := Ok(memory);
    } else {
      r := Err(error.value);
    }
  }

  lemma NothingStarted(regions: seq<Region>)
    ensures Started(regions, 0, []) && LastEnd(regions[..0]) == 0
  {
    assert regions[..0] == [];
  }

  lemma AllStarted(regions: seq<Region>, s: seq<Region>)
    requires Started(regions, |regions|, s)
    ensures Accepts(regions) && NoOverflow(regions) && s == Normalised(regions)
  {
    assert regions[..|regions|] == regions;
  }

  ghost predicate Rejects(regions: seq<Region>, capacity: nat, error: PhysicalMemoryError) {
    match error
    case Overflow => !NoOverflow(regions)
    case Capacity => Accepts(regions) && NoOverflow(regions) ==> |Normalised(regions)| > capacity
    case _ => !Accepts(regions)
  }

  ghost predicate Started(regions: seq<Region>, i: nat, s: seq<Region>) {
    i <= |regions| && Accepts(regions[..i]) && NoOverflow(regions[..i]) && s == Normalised(regions[..i])
  }

  ghost function Extended(s: seq<Region>, pages: seq<Region>): seq<Region> {
    if pages == [] then s else Append(s, pages[0])
  }

  /** Everything the checks on region `i` decide. */
  lemma StartedNext(regions: seq<Region>, i: nat, s: seq<Region>)
    requires i < |regions| && Started(regions, i, s) && regions[i].end <= U64_MAX
    ensures LastEnd(regions[..i + 1]) == regions[i].end
    ensures regions[i].end < regions[i].start || regions[i].start < LastEnd(regions[..i]) ==> !Accepts(regions)
    ensures regions[i].start > U64_MAX - (PAGE_SIZE - 1) ==> !NoOverflow(regions)
    ensures LastEnd(regions[..i]) <= regions[i].start <= regions[i].end &&
            regions[i].start <= U64_MAX - (PAGE_SIZE - 1) ==>
              && Started(regions, i + 1, Extended(s, Inward(regions[i])))
              && (NoOverflow(regions) ==> |Extended(s, Inward(regions[i]))| <= |Normalised(regions)|)
              && (Inward(regions[i]) != [] ==>
                    var p := Inward(regions[i])[0]; PagedRegion(p) && p.start < p.end && LastEnd(s) <= p.start)
  {
    var t := regions[..i + 1];
    assert t[..i] == regions[..i];
    AcceptsNext(regions, i);
    NormalisedIsUsable(regions[..i]);
    if LastEnd(regions[..i]) <= regions[i].start <= regions[i].end && regions[i].start <= U64_MAX - (PAGE_SIZE - 1) {
      InwardIsInside(regions[i], 0);
      assert Inward(regions[i]) != [] ==> Inward(regions[i])[0] in Inward(regions[i]);
      if NoOverflow(regions) {
        NormalisedGrows(regions, i + 1);
      }
    }
  }

  /** From any map both accept, both hand out the same frames, and run dry together. */
  method Lockstep(regions: seq<Region>, capacity: nat, calls: nat)
    returns (accepted: bool, bumped: seq<Option<nat>>, paged: seq<Option<nat>>)
    requires forall i :: 0 <= i < |regions| ==> regions[i].end <= U64_MAX
    ensures accepted <==> Accepts(regions) && NoOverflow(regions) && |Normalised(regions)| <= capacity
    ensures accepted ==> |bumped| == calls && bumped == paged
  {
    hide Accepts, Covers, FrameTaken, Agree, WellKept, Usable, Remaining, NoOverflow, Normalised;
    var first := NewBump(regions);
    var second := NewPhysicalMemory(regions, capacity);
    accepted, bumped, paged := first.Ok? && second.Ok?, [], [];
    if accepted {
      var bump, memory := first.value, second.value;
      NormalisedIsUsable(regions);
      AgreeStart(regions, bump.next, memory.Free());
      while |bumped| < calls
        invariant |bumped| <= calls && bumped == paged
        invariant fresh(bump) && fresh(memory) && fresh(memory.free) && bump.Valid() && memory.Valid()
        invariant bump.regions == regions
        invariant Agree(regions, bump.next, memory.Free())
      {
        ghost var s, next := memory.Free(), bump.next;
        var a := bump.Allocate();
        var b := memory.AllocateFrame();
        AgreeNext(regions, next, bump.next, s, memory.Free(), a, b.value);
        bumped, paged := bumped + [a], paged + [b.value];
      }
    }
  }

  /** The free list stands for exactly the pages the bump allocator has yet to hand out. */
  ghost predicate Agree(regions: seq<Region>, next: nat, s: seq<Region>) {
    forall a :: Covers(s, a) <==> Remaining(regions, next, a)
  }

  lemma AgreeStart(regions: seq<Region>, next: nat, s: seq<Region>)
    requires forall a :: Remaining(regions, next, a) <==> Usable(regions, a)
    requires forall a :: Covers(s, a) <==> Usable(regions, a)
    ensures Agree(regions, next, s)
  {
  }

  lemma AgreeNext(regions: seq<Region>, next: nat, next': nat, s: seq<Region>, s': seq<Region>,
                  a: Option<nat>, b: Option<nat>)
    requires Agree(regions, next, s) && FrameTaken(s, s', b)
    requires a.None? ==> next' == next && forall x :: !Remaining(regions, next, x)
    requires a.Some? ==>
               && next' == a.value + PAGE_SIZE && Remaining(regions, next, a.value)
               && forall x :: Remaining(regions, next, x) ==> a.value <= x
    ensures a == b && Agree(regions, next', s')
  {
    if b.Some? {
      assert Covers(s, b.value);
    }
    if a.Some? {
      assert Covers(s, a.value);
    }
  }
}

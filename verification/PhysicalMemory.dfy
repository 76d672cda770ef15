/**
 The permanent physical-memory allocator: sorted free ranges in fixed arrays,
 with aligned multi-page allocation, freeing and coalescing.
 */
module PhysicalMemory {
  import opened Wrappers
  import opened Units
  import opened Ranges


  datatype PhysicalMemoryError =
    ReversedRange | OverlapOrUnsorted | Capacity | InvalidRequest | InvalidFree | Overflow

  ghost predicate PagedRegion(r: Region) {
    r.start % PAGE_SIZE == 0 && r.end % PAGE_SIZE == 0 && PAGE_SIZE <= r.start && r.end <= U64_MAX
  }

  /** Whole pages only, never page zero. */
  ghost predicate Paged(s: seq<Region>) {
    forall r :: r in s ==> PagedRegion(r)
  }

  /** Both lists are canonical, their sizes are recorded, and only managed memory is free. */
  ghost predicate WellKept(managed: seq<Region>, free: seq<Region>, total: int, bytes: int) {
    && Canonical(managed) && Paged(managed) && total == Size(managed)
    && Canonical(free) && Paged(free) && bytes == Size(free)
    && (forall a :: Covers(free, a) ==> Covers(managed, a))
  }

  // ---------------------------------------------------------- specifications

  /** `a` is the lowest aligned block of `size` bytes in `s`. */
  ghost predicate LowestFit(s: seq<Region>, a: nat, size: nat, alignment: nat)
    requires alignment > 0
  {
    Fits(s, a, size, alignment) && forall b: nat :: b < a ==> !Fits(s, b, size, alignment)
  }

  /** `s'` stands for the set of `s` without [a, b). */
  ghost predicate Without(s: seq<Region>, s': seq<Region>, a: nat, b: nat) {
    Size(s') == Size(s) - (b - a) && forall x :: Covers(s', x) <==> Covers(s, x) && !(a <= x < b)
  }

  /** `s'` stands for the set of `s` with [a, b). */
  ghost predicate With(s: seq<Region>, s': seq<Region>, a: nat, b: nat) {
    Size(s') == Size(s) + (b - a) && forall x :: Covers(s', x) <==> Covers(s, x) || a <= x < b
  }

  /** A valid request takes the lowest fit, unless that needs a split and the list is full. */
  ghost predicate Allocated(s: seq<Region>, capacity: nat, size: nat, alignment: nat, s': seq<Region>,
                            r: Result<Option<nat>, PhysicalMemoryError>)
    requires alignment > 0
  {
    match r
    case Ok(Some(a)) => LowestFit(s, a, size, alignment) && Without(s, s', a, a + size)
    case Ok(None) => NoFit(s, size, alignment) && s' == s
    case Err(e) => e == Capacity && |s| == capacity && s' == s && NeedsSplit(s, size, alignment)
  }

  ghost predicate NeedsSplit(s: seq<Region>, size: nat, alignment: nat)
    requires alignment > 0
  {
    exists a: nat :: LowestFit(s, a, size, alignment) && Covers(s, a - 1) && Covers(s, a + size)
  }

  /** Every byte of [a, b) is managed and none is free. */
  ghost predicate Returnable(managed: seq<Region>, s: seq<Region>, a: nat, b: nat) {
    forall x :: a <= x < b ==> Covers(managed, x) && !Covers(s, x)
  }

  /** There is room for [a, b): a spare slot, or a free neighbour to merge with. */
  ghost predicate HasRoom(s: seq<Region>, capacity: nat, a: nat, b: nat) {
    |s| < capacity || Covers(s, a - 1) || Covers(s, b)
  }

  // --------------------------------------------------------------- searching

  lemma FirstFitIsLowest(s: seq<Region>, i: nat, size: nat, alignment: nat)
    requires Canonical(s) && Paged(s) && i < |s| && size > 0 && PowerOfTwo(alignment) && alignment <= U64_MAX
    requires forall j :: 0 <= j < i ==> FitIn(s[j], size, alignment).None?
    requires FitIn(s[i], size, alignment).Some?
    ensures LowestFit(s, FitIn(s[i], size, alignment).value, size, alignment)
  {
    var start := FitIn(s[i], size, alignment).value;
    assert PagedRegion(s[i]);
    FitInIsLowest(s[i], size, alignment, start);
    BlockInOneRegion(s, start, start + size);
    forall b: nat | b < start
      ensures !Fits(s, b, size, alignment)
    {
      BlockInOneRegion(s, b, b + size);
      if Fits(s, b, size, alignment) {
        var j :| 0 <= j < |s| && s[j].start <= b && b + size <= s[j].end;
        assert PagedRegion(s[j]);
        FitInIsLowest(s[j], size, alignment, b);
      }
    }
  }

  lemma NoneFits(s: seq<Region>, size: nat, alignment: nat)
    requires Canonical(s) && Paged(s) && size > 0 && PowerOfTwo(alignment) && alignment <= U64_MAX
    requires forall j :: 0 <= j < |s| ==> FitIn(s[j], size, alignment).None?
    ensures NoFit(s, size, alignment)
  {
    forall b: nat
      ensures !Fits(s, b, size, alignment)
    {
      BlockInOneRegion(s, b, b + size);
      if Fits(s, b, size, alignment) {
        var j :| 0 <= j < |s| && s[j].start <= b && b + size <= s[j].end;
        assert PagedRegion(s[j]);
        FitInIsLowest(s[j], size, alignment, b);
      }
    }
  }

  /** Being aligned to whole pages' worth of pages is being page aligned. */
  lemma PageAligned(a: nat, pages: nat)
    requires pages > 0 && a % (pages * PAGE_SIZE) == 0
    ensures a % PAGE_SIZE == 0
  {
    var k := a / (pages * PAGE_SIZE);
    assert a == pages * PAGE_SIZE * k == PAGE_SIZE * (pages * k);
  }

  lemma CarvePaged(s: seq<Region>, i: nat, a: nat, b: nat)
    requires Paged(s) && i < |s| && s[i].start <= a < b <= s[i].end && a % PAGE_SIZE == 0 && b % PAGE_SIZE == 0
    ensures Paged(Carve(s, i, a, b))
  {
    assert PagedRegion(s[i]);
  }

  lemma FusePaged(s: seq<Region>, i: nat, a: nat, b: nat)
    requires Paged(s) && i <= |s| && PagedRegion(Region(a, b))
    ensures Paged(Fuse(s, i, a, b))
  {
    assert i > 0 ==> PagedRegion(s[i - 1]);
    assert i < |s| ==> PagedRegion(s[i]);
  }

  lemma CarveWellKept(managed: seq<Region>, s: seq<Region>, total: int, bytes: int, i: nat, a: nat, b: nat)
    requires WellKept(managed, s, total, bytes) && i < |s| && s[i].start <= a < b <= s[i].end
    requires a % PAGE_SIZE == 0 && b % PAGE_SIZE == 0
    ensures WellKept(managed, Carve(s, i, a, b), total, bytes - (b - a))
    ensures Without(s, Carve(s, i, a, b), a, b)
    ensures Size(Carve(s, i, a, b)) >= 0
  {
    CarveKeeps(s, i, a, b);
    CarvePaged(s, i, a, b);
    SizeIsCardinality(Carve(s, i, a, b));
  }

  lemma {:induction false} SizeBounded(s: seq<Region>)
    requires Canonical(s) && Paged(s)
    ensures Size(s) <= if s == [] then 0 else s[|s| - 1].end
    ensures Size(s) <= U64_MAX
  {
    if s != [] {
      CanonicalSplit(s, |s| - 1);
      SizeBounded(s[..|s| - 1]);
      assert PagedRegion(s[|s| - 1]);
    }
  }

  /** Returning managed memory never overflows the counters. */
  lemma FuseWellKept(managed: seq<Region>, s: seq<Region>, total: int, bytes: int, i: nat, a: nat, b: nat)
    requires WellKept(managed, s, total, bytes) && StartsAt(s, i, a) && Gap(s, i, a, b) && a < b
    requires PagedRegion(Region(a, b)) && Returnable(managed, s, a, b)
    ensures WellKept(managed, Fuse(s, i, a, b), total, bytes + (b - a))
    ensures With(s, Fuse(s, i, a, b), a, b)
    ensures bytes + (b - a) <= total <= U64_MAX
  {
    SizeBounded(managed);
    FuseKeeps(s, i, a, b);
    FusePaged(s, i, a, b);
    SizeMonotone(Fuse(s, i, a, b), managed);
  }

  // ---------------------------------------------------------------- starting

  ghost function LastEnd(s: seq<Region>): nat {
    if s == [] then 0 else s[|s| - 1].end
  }

  lemma AppendKeeps(s: seq<Region>, r: Region)
    requires Canonical(s) && Paged(s) && PagedRegion(r) && r.start < r.end
    requires LastEnd(s) <= r.start
    ensures Canonical(Append(s, r)) && Paged(Append(s, r)) && Size(Append(s, r)) == Size(s) + (r.end - r.start)
    ensures forall a :: Covers(Append(s, r), a) <==> Covers(s, a) || r.start <= a < r.end
    ensures LastEnd(Append(s, r)) == r.end
    ensures |s| <= |Append(s, r)| <= |s| + 1
  {
    hide Covers, Size;
    AppendIsFuse(s, r);
    FuseKeeps(s, |s|, r.start, r.end);
    FusePaged(s, |s|, r.start, r.end);
  }

  lemma AppendWellKept(s: seq<Region>, r: Region, total: int, bytes: int)
    requires WellKept(s, s, total, bytes) && PagedRegion(r) && r.start < r.end && LastEnd(s) <= r.start
    ensures WellKept(Append(s, r), Append(s, r), total + (r.end - r.start), bytes + (r.end - r.start))
  {
    hide Covers, Canonical, Paged, Size;
    AppendKeeps(s, r);
  }

  lemma AppendIsFuse(s: seq<Region>, r: Region)
    requires Canonical(s) && r.start < r.end && LastEnd(s) <= r.start
    ensures StartsAt(s, |s|, r.start) && Gap(s, |s|, r.start, r.end)
    ensures Append(s, r) == Fuse(s, |s|, r.start, r.end)
  {
    assert s + [r] + [] == s + [r];
  }

  // ----------------------------------------------------------- the allocator

  class PhysicalMemory {
    const capacity: nat
    const managed: array<Region>
    var managedLen: nat
    const free: array<Region>
    var freeLen: nat
    var totalBytes: nat
    var freeBytes: nat

    ghost predicate Shaped()
      reads this
    {
      managed != free && managed.Length == free.Length == capacity && managedLen <= capacity && freeLen <= capacity
    }

    ghost function Managed(): seq<Region>
      requires Shaped()
      reads this, managed
    {
      managed[..managedLen]
    }

    ghost function Free(): seq<Region>
      requires Shaped()
      reads this, free
    {
      free[..freeLen]
    }

    ghost predicate Valid()
      reads this, managed, free
    {
      Shaped() && WellKept(Managed(), Free(), totalBytes, freeBytes)
    }

    constructor Empty(capacity: nat)
      ensures Valid() && fresh(managed) && fresh(free)
      ensures this.capacity == capacity && Managed() == [] && Free() == []
    {
      this.capacity := capacity;
      managed, managedLen := new Region[capacity](_ => Region(0, 0)), 0;
      free, freeLen := new Region[capacity](_ => Region(0, 0)), 0;
      totalBytes, freeBytes := 0, 0;
    }

    /** Adds a run of managed, free pages above all others. */
    method PushInitial(region: Region) returns (ok: bool)
      requires Valid() && Managed() == Free()
      requires PagedRegion(region) && region.start < region.end && LastEnd(Managed()) <= region.start
      modifies this, managed, free
      ensures Valid() && Managed() == Free()
      ensures ok <==> |Append(old(Managed()), region)| <= capacity
      ensures Managed() == if ok then Append(old(Managed()), region) else old(Managed())
    {
      hide WellKept, Append, PagedRegion, LastEnd;
      ghost var s := Managed();
      AppendWellKept(s, region, totalBytes, freeBytes);
      assert managedLen == |s| == freeLen;
      var len;
      ok, len := AppendAt(managed, managedLen, region);
      if ok {
        managedLen := len;
        ok, freeLen := AppendAt(free, freeLen, region);
        totalBytes := totalBytes + (region.end - region.start);
        freeBytes := freeBytes + (region.end - region.start);
      }
    }

    method AllocatePages(pages: nat, alignPages: nat) returns (r: Result<Option<nat>, PhysicalMemoryError>)
      requires Valid()
      modifies this`freeLen, this`freeBytes, free
      ensures Valid() && Managed() == old(Managed())
      ensures if pages == 0 || alignPages == 0 || !PowerOfTwo(alignPages) then
                r == Err(InvalidRequest) && Free() == old(Free())
              else if pages * PAGE_SIZE > U64_MAX || alignPages * PAGE_SIZE > U64_MAX then
                r == Err(Overflow) && Free() == old(Free())
              else
                Allocated(old(Free()), capacity, pages * PAGE_SIZE, alignPages * PAGE_SIZE, Free(), r)
    {
      if pages == 0 || alignPages == 0 || !PowerOfTwo(alignPages) {
        return Err(InvalidRequest);
      }
      var size, alignment := pages * PAGE_SIZE, alignPages * PAGE_SIZE;
      if size > U64_MAX || alignment > U64_MAX {
        return Err(Overflow);
      }
      var index := 0;
      while index < freeLen && FitIn(free[index], size, alignment).None?
        invariant index <= freeLen
        invariant forall j :: 0 <= j < index ==> FitIn(free[j], size, alignment).None?
      {
        index := index + 1;
      }
      r := AllocateAt(index, pages, alignPages);
    }

    /** The end of `AllocatePages`, once the first fitting region is known. */
    method AllocateAt(index: nat, pages: nat, alignPages: nat) returns (r: Result<Option<nat>, PhysicalMemoryError>)
      requires Valid() && pages > 0 && PowerOfTwo(alignPages) && alignPages * PAGE_SIZE <= U64_MAX
      requires index <= freeLen
      requires forall j :: 0 <= j < index ==> FitIn(free[j], pages * PAGE_SIZE, alignPages * PAGE_SIZE).None?
      requires index < freeLen ==> FitIn(free[index], pages * PAGE_SIZE, alignPages * PAGE_SIZE).Some?
      modifies this`freeLen, this`freeBytes, free
      ensures Valid() && Managed() == old(Managed())
      ensures Allocated(old(Free()), capacity, pages * PAGE_SIZE, alignPages * PAGE_SIZE, Free(), r)
    {
      var size, alignment := pages * PAGE_SIZE, alignPages * PAGE_SIZE;
      ghost var s := Free();
      FitFacts(s, index, pages, alignPages);
      if index == freeLen {
        r := Ok(None);
      } else {
        hide LowestFit, NoFit, Fits, FitIn, PowerOfTwo;
        var start := FitIn(free[index], size, alignment).value;
        if start > free[index].start && start + size < free[index].end && freeLen == capacity {
          assert Covers(s, start - 1) && Covers(s, start + size);
          r := Err(Capacity);
        } else {
          Take(index, start, start + size);
          r := Ok(Some(start));
        }
      }
    }

    /** Takes [start, end) out of free region `index`. */
    method Take(index: nat, start: nat, end: nat)
      requires Valid() && index < freeLen && free[index].start <= start < end <= free[index].end
      requires start % PAGE_SIZE == 0 && end % PAGE_SIZE == 0
      requires freeLen < capacity || start == free[index].start || end == free[index].end
      modifies this`freeLen, this`freeBytes, free
      ensures Valid() && Managed() == old(Managed())
      ensures Free() == Carve(old(Free()), index, start, end) && Without(old(Free()), Free(), start, end)
    {
      CarveWellKept(Managed(), Free(), totalBytes, freeBytes, index, start, end);
      hide WellKept, Without, Carve;
      freeLen := CarveAt(free, freeLen, index, start, end);
      freeBytes := freeBytes - (end - start);
    }

    method AllocateFrame() returns (r: Result<Option<nat>, PhysicalMemoryError>)
      requires Valid()
      modifies this`freeLen, this`freeBytes, free
      ensures Valid() && Managed() == old(Managed())
      ensures r.Ok? && FrameTaken(old(Free()), Free(), r.value)
      ensures freeBytes == old(freeBytes) - if r.value.Some? then PAGE_SIZE else 0
    {
      assert PowerOfTwo(1);
      ghost var s := Free();
      r := AllocatePages(1, 1);
      SingleFrame(s, capacity, Free(), r);
    }

    predicate IsManaged(start: nat, end: nat)
      requires Shaped()
      reads this, managed
    {
      exists i :: 0 <= i < managedLen && managed[i].start <= start && end <= managed[i].end
    }

    /**
     Succeeds exactly on managed page ranges no page of which is free, provided the list
     has room; every error leaves the free list as it was, and the error returns after the
     list edit are unreachable.
     */
    method FreePages(start: nat, pages: nat) returns (r: Result<(), PhysicalMemoryError>)
      requires Valid() && start <= U64_MAX
      modifies this`freeLen, this`freeBytes, free
      ensures Valid() && Managed() == old(Managed())
      ensures r.Ok? <==>
                && pages > 0 && start >= PAGE_SIZE && start % PAGE_SIZE == 0 && start + pages * PAGE_SIZE <= U64_MAX
                && Returnable(Managed(), old(Free()), start, start + pages * PAGE_SIZE)
                && HasRoom(old(Free()), capacity, start, start + pages * PAGE_SIZE)
      ensures r.Ok? ==> With(old(Free()), Free(), start, start + pages * PAGE_SIZE)
      ensures r.Err? ==> Free() == old(Free()) && freeBytes == old(freeBytes)
    {
      if pages == 0 || start < PAGE_SIZE || start % PAGE_SIZE != 0 {
        return Err(InvalidFree);
      }
      var size := pages * PAGE_SIZE;
      if size > U64_MAX {
        return Err(Overflow);
      }
      var end := start + size;
      if end > U64_MAX {
        return Err(Overflow);
      }
      ghost var s, m := Free(), Managed();
      BlockInOneRegion(m, start, end);
      if end % PAGE_SIZE != 0 || !IsManaged(start, end) {
        return Err(InvalidFree);
      }
      r := Return(start, end);
    }

    /** The end of `FreePages`, once [start, end) is known to be managed pages. */
    method Return(start: nat, end: nat) returns (r: Result<(), PhysicalMemoryError>)
      requires Valid() && start < end && PagedRegion(Region(start, end))
      requires forall x :: start <= x < end ==> Covers(Managed(), x)
      modifies this`freeLen, this`freeBytes, free
      ensures Valid() && Managed() == old(Managed())
      ensures r.Ok? <==> Returnable(Managed(), old(Free()), start, end) && HasRoom(old(Free()), capacity, start, end)
      ensures r.Ok? ==> With(old(Free()), Free(), start, end)
      ensures r.Err? ==> Free() == old(Free()) && freeBytes == old(freeBytes)
    {
      hide WellKept, With, Returnable, Fuse, StartsAt, Covers, HasRoom, TouchesLeft, TouchesRight;
      ghost var s, m := Free(), Managed();
      var index := FindSlot(free, freeLen, start);
      ReturnDecided(m, s, totalBytes, freeBytes, capacity, index, start, end);
      if (index > 0 && free[index - 1].end > start) || (index < freeLen && free[index].start < end) {
        r := Err(InvalidFree);
      } else {
        FuseWellKept(m, s, totalBytes, freeBytes, index, start, end);
        var ok;
        ok, freeLen := FuseAt(free, freeLen, index, start, end);
        if !ok {
          r := Err(Capacity);
        } else {
          freeBytes := freeBytes + (end - start);
          // The overflow and over-count errors after the list edit cannot happen.
          assert freeBytes <= totalBytes <= U64_MAX;
          r := Ok(());
        }
      }
    }
  }

  /** What the neighbours of a managed block decide. */
  lemma ReturnDecided(m: seq<Region>, s: seq<Region>, total: int, bytes: int, capacity: nat, i: nat, a: nat, b: nat)
    requires WellKept(m, s, total, bytes) && StartsAt(s, i, a) && a < b
    requires forall x :: a <= x < b ==> Covers(m, x)
    ensures Gap(s, i, a, b) <==> Returnable(m, s, a, b)
    ensures Gap(s, i, a, b) ==>
              (HasRoom(s, capacity, a, b) <==> |s| < capacity || TouchesLeft(s, i, a) || TouchesRight(s, i, b))
  {
    GapIsDisjoint(s, i, a, b);
  }

  /** One frame off a canonical list: its lowest free page, or none if nothing is free. */
  ghost predicate FrameTaken(s: seq<Region>, s': seq<Region>, frame: Option<nat>) {
    match frame
    case None => s == [] && s' == s
    case Some(a) =>
      && a % PAGE_SIZE == 0
      && (forall x :: a <= x < a + PAGE_SIZE ==> Covers(s, x))
      && (forall x :: Covers(s, x) ==> a <= x)
      && Without(s, s', a, a + PAGE_SIZE)
  }

  lemma SingleFrame(s: seq<Region>, capacity: nat, s': seq<Region>, r: Result<Option<nat>, PhysicalMemoryError>)
    requires Canonical(s) && Paged(s) && Allocated(s, capacity, PAGE_SIZE, PAGE_SIZE, s', r)
    ensures r.Ok? && FrameTaken(s, s', r.value)
  {
    if s == [] {
      assert r.Ok? && r.value.None? by {
        forall a: nat
          ensures !Fits(s, a, PAGE_SIZE, PAGE_SIZE)
        {
          assert !Covers(s, a);
        }
      }
    } else {
      var a := s[0].start;
      assert PagedRegion(s[0]);
      assert Fits(s, a, PAGE_SIZE, PAGE_SIZE);
      forall b: nat | Fits(s, b, PAGE_SIZE, PAGE_SIZE)
        ensures a <= b
      {
        assert Covers(s, b);
      }
      assert !Covers(s, a - 1);
    }
  }

  lemma FitFacts(s: seq<Region>, i: nat, pages: nat, alignPages: nat)
    requires Canonical(s) && Paged(s) && i <= |s|
    requires pages > 0 && PowerOfTwo(alignPages) && alignPages * PAGE_SIZE <= U64_MAX
    requires forall j :: 0 <= j < i ==> FitIn(s[j], pages * PAGE_SIZE, alignPages * PAGE_SIZE).None?
    requires i < |s| ==> FitIn(s[i], pages * PAGE_SIZE, alignPages * PAGE_SIZE).Some?
    ensures i == |s| ==> NoFit(s, pages * PAGE_SIZE, alignPages * PAGE_SIZE)
    ensures i < |s| ==>
              var start := FitIn(s[i], pages * PAGE_SIZE, alignPages * PAGE_SIZE).value;
              && LowestFit(s, start, pages * PAGE_SIZE, alignPages * PAGE_SIZE)
              && s[i].start <= start < start + pages * PAGE_SIZE <= s[i].end
              && start % PAGE_SIZE == 0 && (start + pages * PAGE_SIZE) % PAGE_SIZE == 0
  {
    hide Canonical, FitIn, Fits, LowestFit, NoFit, PowerOfTwo;
    var size, alignment := pages * PAGE_SIZE, alignPages * PAGE_SIZE;
    PageIsPower();
    TimesPower(alignPages, PAGE_SIZE);
    if i == |s| {
      NoneFits(s, size, alignment);
    } else {
      var start := FitIn(s[i], size, alignment).value;
      FirstFitIsLowest(s, i, size, alignment);
      assert PagedRegion(s[i]);
      FitInIsLowest(s[i], size, alignment, start);
      PageAligned(start, alignPages);
    }
  }

  lemma PageIsPower()
    ensures PowerOfTwo(PAGE_SIZE)
  {
    assert PowerOfTwo(0x40);
    TimesPower(0x40, 0x40);
  }
}

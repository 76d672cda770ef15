/** Loading a parsed ELF image into a user address space, page by page. */
module UserImage {
  import opened Wrappers
  import opened Units
  import opened LittleEndian
  import opened Elf
  import ElfLayout

  const USER_LIMIT: nat := 0x80_0000_0000

  datatype LoadError =
    EntryOutside | StartOutside | AddressOverflow | EndOutside | FileOverflow | Unaligned | TooLong | BeyondLimit |
    AlreadyMapped | MappingFailed

  datatype Page = Page(bytes: seq<byte>, writable: bool, executable: bool)

  type Pages = map<nat, Page>

  // ------------------------------------------------------------ what it should be

  function PageStart(s: Segment): nat {
    s.address - s.address % PAGE_SIZE
  }

  function PageEnd(s: Segment): nat {
    var rounded := s.address + s.memorySize + PAGE_SIZE - 1;
    rounded - rounded % PAGE_SIZE
  }

  /** The byte a segment puts at address `a`: its file data, and zero everywhere else. */
  function ByteOf(s: Segment, a: nat): byte {
    if s.address <= a < s.address + |s.data| then s.data[a - s.address] else 0
  }

  function PageBytes(s: Segment, p: nat): (bytes: seq<byte>)
    ensures |bytes| == PAGE_SIZE && forall i :: 0 <= i < PAGE_SIZE ==> bytes[i] == ByteOf(s, p + i)
  {
    seq<byte>(PAGE_SIZE, i requires 0 <= i < PAGE_SIZE => ByteOf(s, p + i))
  }

  function SegmentPage(s: Segment, p: nat): Page {
    Page(PageBytes(s, p), s.writable, s.executable)
  }

  /** Page `p` is one of those between `lo` and `hi`. */
  predicate InRun(lo: nat, hi: nat, p: nat) {
    lo <= p < hi && p % PAGE_SIZE == 0
  }

  predicate Spans(s: Segment, p: nat) {
    s.memorySize > 0 && InRun(PageStart(s), PageEnd(s), p)
  }

  /** What rules a segment out before any page of it is mapped. */
  function SegmentFault(s: Segment): Option<LoadError> {
    if s.memorySize == 0 then None
    else if s.address >= USER_LIMIT then Some(StartOutside)
    else if s.address + s.memorySize > U64_MAX then Some(AddressOverflow)
    else if s.address + s.memorySize > USER_LIMIT then Some(EndOutside)
    else if s.address + |s.data| > U64_MAX then Some(FileOverflow)
    else None
  }

  /** Pages `lo` to `hi` of a segment have been added to `before`, none of them mapped before. */
  ghost predicate Adds(before: Pages, after: Pages, s: Segment, lo: nat, hi: nat) {
    && (forall p :: p in before ==> p in after && after[p] == before[p])
    && (forall p :: p in after <==> p in before || InRun(lo, hi, p))
    && (forall p :: InRun(lo, hi, p) ==> p !in before && after[p] == SegmentPage(s, p))
  }

  // ------------------------------------------------------------- the address space

  class UserSpace {
    var pages: Pages

    /**
     `map_user_page`, as a map update that refuses pages already mapped. Frames and page tables are
     not part of it: for want of them it may fail at any time.
     */
    method MapUserPage(address: nat, writable: bool, executable: bool, initial: seq<byte>)
      returns (r: Result<(), LoadError>)
      modifies this
      ensures r.Err? ==> pages == old(pages)
      ensures r == Err(AlreadyMapped) ==> address in old(pages)
      ensures r.Err? && address % PAGE_SIZE == 0 && address < USER_LIMIT && |initial| <= PAGE_SIZE ==>
                r.error == AlreadyMapped || r.error == MappingFailed
      ensures r.Ok? ==> && address % PAGE_SIZE == 0 && address < USER_LIMIT && |initial| <= PAGE_SIZE
                        && address !in old(pages)
                        && pages == old(pages)[address :=
                                      Page(initial + Zeros(PAGE_SIZE - |initial|), writable, executable)]
    {
      if address % PAGE_SIZE != 0 { return Err(Unaligned); }
      if |initial| > PAGE_SIZE { return Err(TooLong); }
      if address >= USER_LIMIT { return Err(BeyondLimit); }
      if address in pages { return Err(AlreadyMapped); }
      var fails: bool := *;
      if fails { return Err(MappingFailed); }
      pages := pages[address := Page(initial + Zeros(PAGE_SIZE - |initial|), writable, executable)];
      return Ok(());
    }

    /** The body of the loop over pages: the file bytes that fall into one page. */
    method FillPage(s: Segment, page: nat) returns (initial: seq<byte>)
      requires page % PAGE_SIZE == 0
      ensures initial == PageBytes(s, page)
    {
      hide PageBytes;
      initial := Zeros(PAGE_SIZE);
      var fileEnd := s.address + |s.data|;
      var copyStart := if page < s.address then s.address else page;
      var copyEnd := if page + PAGE_SIZE < fileEnd then page + PAGE_SIZE else fileEnd;
      if copyStart < copyEnd {
        var sourceStart, sourceEnd, destination := copyStart - s.address, copyEnd - s.address, copyStart - page;
        var count := sourceEnd - sourceStart;
        initial := initial[..destination] + s.data[sourceStart..sourceEnd] + initial[destination + count..];
      }
      assert forall i :: 0 <= i < PAGE_SIZE ==> initial[i] == ByteOf(s, page + i);
    }

    method LoadSegment(s: Segment) returns (r: Result<(), LoadError>)
      requires s.memorySize > 0
      modifies this
      ensures SegmentFault(s).Some? ==> r == Err(SegmentFault(s).value) && pages == old(pages)
      ensures SegmentFault(s).None? && r.Err? ==>
                && (r.error == AlreadyMapped || r.error == MappingFailed)
                && exists hi :: Adds(old(pages), pages, s, PageStart(s), hi)
      ensures r.Ok? ==> SegmentFault(s).None? && Adds(old(pages), pages, s, PageStart(s), PageEnd(s))
    {
      if s.address >= USER_LIMIT { return Err(StartOutside); }
      if s.address + s.memorySize > U64_MAX { return Err(AddressOverflow); }
      if s.address + s.memorySize > USER_LIMIT { return Err(EndOutside); }
      if s.address + |s.data| > U64_MAX { return Err(FileOverflow); }
      var page := PageStart(s);
      ghost var before := pages;
      PageBounds(s);
      r := Ok(());
      while page < PageEnd(s) && r.Ok?
        invariant PageStart(s) <= page <= PageEnd(s) && page % PAGE_SIZE == 0
        invariant Adds(before, pages, s, PageStart(s), page)
        invariant r.Err? ==> r.error == AlreadyMapped || r.error == MappingFailed
        decreases PageEnd(s) - page, if r.Ok? then 1 else 0
      {
        NextPage(s, page);
        ghost var now := pages;
        var initial := FillPage(s, page);
        r := MapUserPage(page, s.writable, s.executable, initial);
        if r.Ok? {
          AddsMore(before, now, s, PageStart(s), page);
          assert initial + Zeros(PAGE_SIZE - |initial|) == initial;
          page := page + PAGE_SIZE;
        }
      }
    }

    /** `load_image`. */
    method LoadImage(image: Image) returns (r: Result<(), LoadError>)
      modifies this
      ensures forall p :: p in old(pages) ==> p in pages && pages[p] == old(pages)[p]
      ensures r == Err(EntryOutside) <==> image.entry >= USER_LIMIT
      ensures r.Ok? ==> Loaded(old(pages), pages, image.segments)
      ensures r.Err? ==> || r.error in {EntryOutside, AlreadyMapped, MappingFailed}
                         || exists k :: 0 <= k < |image.segments| && SegmentFault(image.segments[k]) == Some(r.error)
    {
      hide Adds, SegmentFault, Spans;
      if image.entry >= USER_LIMIT { return Err(EntryOutside); }
      ghost var before := pages;
      var k := 0;
      r := Ok(());
      NothingLoaded(pages);
      assert image.segments[..0] == [];
      while k < |image.segments| && r.Ok?
        invariant k <= |image.segments|
        invariant forall p :: p in before ==> p in pages && pages[p] == before[p]
        invariant r.Ok? ==> Loaded(before, pages, image.segments[..k])
        invariant r.Err? ==> || r.error in {AlreadyMapped, MappingFailed}
                             || exists k :: 0 <= k < |image.segments|
                                            && SegmentFault(image.segments[k]) == Some(r.error)
        invariant r != Err(EntryOutside)
        decreases |image.segments| - k, if r.Ok? then 1 else 0
      {
        var s := image.segments[k];
        ghost var now := pages;
        if s.memorySize > 0 {
          r := LoadSegment(s);
          AddsKeeps(s, now, pages);
          FaultIsNotEntry(s);
        } else {
          NoFault(s);
        }
        if r.Ok? {
          LoadedMore(before, now, pages, image.segments, k);
          k := k + 1;
        }
      }
      assert k == |image.segments| ==> image.segments[..k] == image.segments;
    }
  }

  lemma NothingLoaded(pages: Pages)
    ensures Loaded(pages, pages, [])
  {
  }

  /** A segment no larger in the file than in memory is ruled out exactly if it leaves the user half. */
  lemma FaultIff(s: Segment)
    requires |s.data| <= s.memorySize
    ensures SegmentFault(s).None? <==> s.memorySize == 0 || s.address + s.memorySize <= 0x80_0000_0000
    ensures SegmentFault(s) == Some(StartOutside) <==> s.memorySize > 0 && s.address >= 0x80_0000_0000
    ensures SegmentFault(s).None? && s.memorySize > 0 ==> PageEnd(s) <= 0x80_0000_0000
  {
  }

  /** The pages of a segment are those that have an address in common with it. */
  lemma SpansIff(s: Segment, p: nat)
    requires p % PAGE_SIZE == 0
    ensures Spans(s, p) <==> s.memorySize > 0 && s.address < p + PAGE_SIZE && p < s.address + s.memorySize
  {
    if Spans(s, p) {
      SpannedHolds(s, p);
    }
    if s.memorySize > 0 && s.address < p + PAGE_SIZE && p < s.address + s.memorySize {
      HolderSpans(s, p, if p < s.address then s.address else p);
    }
  }

  lemma SpannedHolds(s: Segment, p: nat)
    requires Spans(s, p)
    ensures s.address < p + PAGE_SIZE && p < s.address + s.memorySize
  {
    PageBounds(s);
    SamePages(PageStart(s), p);
    SamePages(p, PageEnd(s));
  }

  /** Page addresses are apart by whole pages. */
  lemma SamePages(p: nat, q: nat)
    requires p % PAGE_SIZE == 0 && q % PAGE_SIZE == 0
    ensures p < q ==> p + PAGE_SIZE <= q
  {
  }

  lemma HolderSpans(s: Segment, p: nat, a: nat)
    requires p % PAGE_SIZE == 0 && p <= a < p + PAGE_SIZE && s.address <= a < s.address + s.memorySize
    ensures Spans(s, p)
  {
    PageBounds(s);
    SamePages(p, PageStart(s));
    SamePages(PageEnd(s), p);
  }

  lemma FaultIsNotEntry(s: Segment)
    ensures SegmentFault(s) != Some(EntryOutside)
  {
  }

  lemma NoFault(s: Segment)
    requires s.memorySize == 0
    ensures SegmentFault(s).None?
  {
  }

  lemma AddsKeeps(s: Segment, before: Pages, after: Pages)
    ensures forall lo, hi :: Adds(before, after, s, lo, hi) ==>
              forall p :: p in before ==> p in after && after[p] == before[p]
  {
  }

  /** Every page of the segment was free and now holds what the segment puts there. */
  ghost predicate Present(before: Pages, after: Pages, s: Segment) {
    SegmentFault(s).None?
    && forall p: nat :: Spans(s, p) ==> p !in before && p in after && after[p] == SegmentPage(s, p)
  }

  ghost predicate Apart(s: Segment, t: Segment) {
    forall p: nat :: !(Spans(s, p) && Spans(t, p))
  }

  ghost predicate SomeSpans(segments: seq<Segment>, p: nat) {
    exists k :: 0 <= k < |segments| && Spans(segments[k], p)
  }

  /** Every segment is present, no two of them share a page, and no other page is new. */
  ghost predicate Loaded(before: Pages, after: Pages, segments: seq<Segment>) {
    && (forall p :: p in before ==> p in after && after[p] == before[p])
    && (forall k :: 0 <= k < |segments| ==> Present(before, after, segments[k]))
    && (forall j, k :: 0 <= j < k < |segments| ==> Apart(segments[j], segments[k]))
    && (forall p :: p in after && p !in before ==> SomeSpans(segments, p))
  }

  /** A segment's pages have been added to those that were there. */
  ghost predicate Joins(now: Pages, after: Pages, s: Segment) {
    && (forall p :: p in now ==> p in after && after[p] == now[p])
    && (forall p: nat :: p in after <==> p in now || Spans(s, p))
    && (forall p: nat :: Spans(s, p) ==> p !in now && after[p] == SegmentPage(s, p))
  }

  lemma AddsJoins(now: Pages, after: Pages, s: Segment)
    requires if s.memorySize > 0 then Adds(now, after, s, PageStart(s), PageEnd(s)) else after == now
    ensures Joins(now, after, s)
  {
    hide SegmentPage, PageStart, PageEnd;
    assert forall p: nat :: Spans(s, p) <==> s.memorySize > 0 && InRun(PageStart(s), PageEnd(s), p);
  }

  lemma PresentStays(before: Pages, now: Pages, after: Pages, s: Segment, t: Segment)
    requires Present(before, now, s) && Joins(now, after, t)
    ensures Present(before, after, s) && Apart(s, t)
  {
    hide SegmentPage, Spans, SegmentFault;
  }

  lemma JoinsPresent(before: Pages, now: Pages, after: Pages, s: Segment)
    requires (forall p :: p in before ==> p in now) && Joins(now, after, s) && SegmentFault(s).None?
    ensures Present(before, after, s)
  {
    hide SegmentPage, Spans, SegmentFault;
  }

  lemma LoadedMore(before: Pages, now: Pages, after: Pages, segments: seq<Segment>, k: nat)
    requires k < |segments| && Loaded(before, now, segments[..k]) && SegmentFault(segments[k]).None?
    requires if segments[k].memorySize > 0
             then Adds(now, after, segments[k], PageStart(segments[k]), PageEnd(segments[k]))
             else after == now
    ensures Loaded(before, after, segments[..k + 1])
  {
    hide SegmentPage, Spans, SegmentFault, Adds, PageStart, PageEnd, Present, Apart;
    var s, done, next := segments[k], segments[..k], segments[..k + 1];
    AddsJoins(now, after, s);
    forall j | 0 <= j < k
      ensures Present(before, after, next[j]) && Apart(next[j], s)
    {
      assert next[j] == done[j];
      PresentStays(before, now, after, done[j], s);
    }
    JoinsPresent(before, now, after, s);
    forall p: nat | p in after && p !in before
      ensures SomeSpans(next, p)
    {
      if p in now {
        var j :| 0 <= j < |done| && Spans(done[j], p);
        assert Spans(next[j], p);
      } else {
        assert Spans(next[k], p);
      }
    }
  }

  // ----------------------------------------------------------------- the theorem

  predicate Mapped(pages: Pages, a: nat) {
    a - a % PAGE_SIZE in pages && |pages[a - a % PAGE_SIZE].bytes| == PAGE_SIZE
  }

  function ByteAt(pages: Pages, a: nat): byte
    requires Mapped(pages, a)
  {
    pages[a - a % PAGE_SIZE].bytes[a % PAGE_SIZE]
  }

  /**
   An ELF file that parses and loads: load header `k` gets its file bytes from its address on, then
   zeros to its memory size and to both ends of its pages.
   */
  lemma LoadedFile(data: seq<byte>, segments: seq<Segment>, before: Pages, after: Pages, k: nat, a: nat)
    requires HeaderError(data).None? && Describes(data, Headers(data), segments) && Loaded(before, after, segments)
    requires k < Headers(data) && IsLoad(data, k) && MemorySize(data, k) > 0
    ensures SegmentError(data, k).None? && FileSize(data, k) <= MemorySize(data, k)
    ensures FileOffset(data, k) + FileSize(data, k) <= |data|
    ensures Address(data, k) <= a < Address(data, k) + MemorySize(data, k) ==>
              && Mapped(after, a)
              && ByteAt(after, a) == if a < Address(data, k) + FileSize(data, k)
                                     then data[FileOffset(data, k) + (a - Address(data, k))] else 0
    ensures PageStart(SegmentAt(data, k)) <= a < PageEnd(SegmentAt(data, k)) ==>
              && Mapped(after, a)
              && (!(Address(data, k) <= a < Address(data, k) + FileSize(data, k)) ==> ByteAt(after, a) == 0)
  {
    hide HeaderError, Describes, IsLoad, Headers, Address, MemorySize, FileSize, FileOffset, SegmentAt, SegmentError,
      Present, PageStart, PageEnd;
    SegmentsAreHeaders(data, Headers(data), segments);
    var s := SegmentAt(data, k);
    var i :| 0 <= i < |segments| && segments[i] == s;
    assert Present(before, after, s);
    SegmentFields(data, k);
    PageBounds(s);
    if PageStart(s) <= a < PageEnd(s) {
      SegmentByte(before, after, s, a);
    }
  }

  /** The pages of a load header have the permissions its flag word gives. */
  lemma LoadedPermissions(data: seq<byte>, segments: seq<Segment>, before: Pages, after: Pages, k: nat, a: nat)
    requires HeaderError(data).None? && Describes(data, Headers(data), segments) && Loaded(before, after, segments)
    requires k < Headers(data) && IsLoad(data, k)
    requires Address(data, k) <= a < Address(data, k) + MemorySize(data, k)
    ensures SegmentError(data, k).None? && Mapped(after, a)
    ensures var page := after[a - a % PAGE_SIZE];
            page.writable == SegmentAt(data, k).writable && page.executable == SegmentAt(data, k).executable
  {
    hide HeaderError, Describes, IsLoad, Headers, Address, MemorySize, FileSize, FileOffset, SegmentAt, SegmentError,
      Present, PageStart, PageEnd;
    SegmentsAreHeaders(data, Headers(data), segments);
    var s := SegmentAt(data, k);
    var i :| 0 <= i < |segments| && segments[i] == s;
    assert Present(before, after, s);
    SegmentFields(data, k);
    PageBounds(s);
    SegmentByte(before, after, s, a);
  }

  /**
   From the file format to memory: an executable laid out with these program headers, once loaded, has at
   every address of a load header its file byte or zero, in a page with the permissions of its W and X flags.
   */
  lemma LoadedLayout(data: seq<byte>, h: ElfLayout.FileHeader, ps: seq<ElfLayout.ProgramHeader>,
                     segments: seq<Segment>, before: Pages, after: Pages, k: nat, a: nat)
    requires ElfLayout.LaidOut(data, h, ps) && HeaderError(data).None?
    requires Describes(data, Headers(data), segments) && Loaded(before, after, segments)
    requires k < |ps| && ps[k].kind == 1 && ps[k].vaddr <= a < ps[k].vaddr + ps[k].memsz
    ensures var p := ps[k];
            && Mapped(after, a) && p.filesz <= p.memsz && p.offset + p.filesz <= |data|
            && ByteAt(after, a) == (if a < p.vaddr + p.filesz then data[p.offset + (a - p.vaddr)] else 0)
            && after[a - a % PAGE_SIZE].writable == p.w && after[a - a % PAGE_SIZE].executable == p.x
  {
    hide ElfLayout.LaidOut, HeaderError, Describes, Loaded, Headers, IsLoad, Address, MemorySize, FileSize, FileOffset,
         SegmentAt, SegmentError, Mapped, ByteAt, ElfLayout.Executable;
    ElfLayout.LayoutIsRead(data, h, ps);
    assert ElfLayout.ProgramIsRead(data, k, ps[k]);
    LoadedFile(data, segments, before, after, k, a);
    LoadedPermissions(data, segments, before, after, k, a);
  }

  lemma SegmentFields(data: seq<byte>, k: nat)
    requires HeaderError(data).None? && k < Headers(data) && SegmentError(data, k).None?
    ensures FileSize(data, k) <= MemorySize(data, k) && FileOffset(data, k) + FileSize(data, k) <= |data|
    ensures var s := SegmentAt(data, k);
            && s.address == Address(data, k) && s.memorySize == MemorySize(data, k) && |s.data| == FileSize(data, k)
            && forall j :: 0 <= j < |s.data| ==> s.data[j] == data[FileOffset(data, k) + j]
  {
    hide HeaderError, Headers, Address, MemorySize, FileSize, FileOffset, Field, HeaderAt;
  }

  lemma SegmentByte(before: Pages, after: Pages, s: Segment, a: nat)
    requires Present(before, after, s) && s.memorySize > 0 && PageStart(s) <= a < PageEnd(s)
    ensures Mapped(after, a) && ByteAt(after, a) == ByteOf(s, a)
    ensures after[a - a % PAGE_SIZE].writable == s.writable && after[a - a % PAGE_SIZE].executable == s.executable
  {
    hide SegmentFault, PageStart, PageEnd, InRun, ByteOf;
    var p := a - a % PAGE_SIZE;
    PageBounds(s);
    RunHolds(PageStart(s), PageEnd(s), a);
    assert Spans(s, p);
    assert PageBytes(s, p)[a % PAGE_SIZE] == ByteOf(s, p + a % PAGE_SIZE);
  }

  lemma RunHolds(lo: nat, hi: nat, a: nat)
    requires lo % PAGE_SIZE == 0 && lo <= a < hi
    ensures InRun(lo, hi, a - a % PAGE_SIZE)
  {
  }

  lemma PageBounds(s: Segment)
    ensures PageStart(s) % PAGE_SIZE == 0 && PageEnd(s) % PAGE_SIZE == 0 && PageStart(s) <= PageEnd(s)
    ensures PageStart(s) <= s.address && s.address + s.memorySize <= PageEnd(s) < s.address + s.memorySize + PAGE_SIZE
    ensures s.address < PageStart(s) + PAGE_SIZE
  {
  }

  lemma NextPage(s: Segment, page: nat)
    requires page % PAGE_SIZE == 0 && page < PageEnd(s)
    ensures page + PAGE_SIZE <= PageEnd(s) && (page + PAGE_SIZE) % PAGE_SIZE == 0
    ensures s.address + s.memorySize <= USER_LIMIT ==> page < USER_LIMIT
  {
  }

  lemma AddsMore(before: Pages, now: Pages, s: Segment, lo: nat, page: nat)
    requires Adds(before, now, s, lo, page) && page % PAGE_SIZE == 0 && lo <= page && page !in now
    ensures Adds(before, now[page := SegmentPage(s, page)], s, lo, page + PAGE_SIZE)
  {
    hide SegmentPage;
    forall p: nat
      ensures InRun(lo, page + PAGE_SIZE, p) <==> InRun(lo, page, p) || p == page
    {
    }
  }
}

/** The ELF64 program header parser. */
module Elf {
  import opened Wrappers
  import opened Units
  import opened LittleEndian
  import Ranges

  const HEADER_SIZE: nat := 64
  const PH_SIZE: nat := 56
  const PT_LOAD: nat := 1
  const MAGIC: seq<byte> := [0x7f, 0x45, 0x4c, 0x46]

  datatype ElfError =
    TooSmall | BadMagic | UnsupportedClass | UnsupportedEndian | UnsupportedVersion | UnsupportedType |
    UnsupportedMachine | InvalidHeader | TruncatedProgramHeaders | InvalidSegment | TruncatedSegment

  datatype Segment = Segment(
    address: nat, memorySize: nat, data: seq<byte>, readable: bool, writable: bool, executable: bool, alignment: nat)

  datatype Image = Image(entry: nat, segments: seq<Segment>)

  /** `read_u16`, `read_u32` and `read_u64`. */
  function Read(data: seq<byte>, offset: nat, n: nat): Result<nat, ElfError> {
    if offset + n <= |data| then Ok(Decode(data[offset..offset + n])) else Err(InvalidHeader)
  }

  /** A field that lies within the file. */
  function Field(data: seq<byte>, offset: nat, n: nat): nat
    requires offset + n <= |data|
  {
    Decode(data[offset..offset + n])
  }

  // ------------------------------------------------------ what a file must be

  /** The tests on the ELF header, in the order in which they are made. */
  function HeaderError(data: seq<byte>): Option<ElfError> {
    if |data| < HEADER_SIZE then Some(TooSmall)
    else if data[..4] != MAGIC then Some(BadMagic)
    else if data[4] != 2 then Some(UnsupportedClass)
    else if data[5] != 1 then Some(UnsupportedEndian)
    else if data[6] != 1 then Some(UnsupportedVersion)
    else if Field(data, 16, 2) != 2 then Some(UnsupportedType)
    else if Field(data, 18, 2) != 62 then Some(UnsupportedMachine)
    else if Field(data, 20, 4) != 1 then Some(UnsupportedVersion)
    else if Field(data, 52, 2) < HEADER_SIZE || Field(data, 54, 2) != PH_SIZE then Some(InvalidHeader)
    else if Field(data, 32, 8) + PH_SIZE * Field(data, 56, 2) > |data| then Some(TruncatedProgramHeaders)
    else None
  }

  function Headers(data: seq<byte>): nat
    requires HeaderError(data).None?
  {
    Field(data, 56, 2)
  }

  /** Where program header `k` is; it lies within the file. */
  function HeaderAt(data: seq<byte>, k: nat): (base: nat)
    requires HeaderError(data).None? && k < Headers(data)
    ensures base + PH_SIZE <= |data|
  {
    Field(data, 32, 8) + k * PH_SIZE
  }

  predicate IsLoad(data: seq<byte>, k: nat)
    requires HeaderError(data).None? && k < Headers(data)
  {
    Field(data, HeaderAt(data, k), 4) == PT_LOAD
  }

  function FileOffset(data: seq<byte>, k: nat): nat
    requires HeaderError(data).None? && k < Headers(data)
  {
    Field(data, HeaderAt(data, k) + 8, 8)
  }

  function Address(data: seq<byte>, k: nat): nat
    requires HeaderError(data).None? && k < Headers(data)
  {
    Field(data, HeaderAt(data, k) + 16, 8)
  }

  function FileSize(data: seq<byte>, k: nat): nat
    requires HeaderError(data).None? && k < Headers(data)
  {
    Field(data, HeaderAt(data, k) + 32, 8)
  }

  function MemorySize(data: seq<byte>, k: nat): nat
    requires HeaderError(data).None? && k < Headers(data)
  {
    Field(data, HeaderAt(data, k) + 40, 8)
  }

  /** What is wrong with load segment `k`. */
  function SegmentError(data: seq<byte>, k: nat): Option<ElfError>
    requires HeaderError(data).None? && k < Headers(data)
  {
    var alignment := Field(data, HeaderAt(data, k) + 48, 8);
    if || MemorySize(data, k) < FileSize(data, k)
       || (alignment != 0 && !Ranges.PowerOfTwo(alignment))
       || (alignment > 1 && Address(data, k) % alignment != FileOffset(data, k) % alignment)
    then Some(InvalidSegment)
    else if FileOffset(data, k) + FileSize(data, k) > |data| then Some(TruncatedSegment)
    else None
  }

  function SegmentAt(data: seq<byte>, k: nat): Segment
    requires HeaderError(data).None? && k < Headers(data) && SegmentError(data, k).None?
  {
    var base := HeaderAt(data, k);
    var flags := Field(data, base + 4, 4);
    Segment(Address(data, k), MemorySize(data, k), data[FileOffset(data, k)..FileOffset(data, k) + FileSize(data, k)],
            flags / 4 % 2 == 1, flags / 2 % 2 == 1, flags % 2 == 1, Field(data, base + 48, 8))
  }

  /** The first `n` program headers describe these load segments, in this order. */
  ghost predicate Describes(data: seq<byte>, n: nat, segments: seq<Segment>)
    requires HeaderError(data).None? && n <= Headers(data)
  {
    if n == 0 then segments == []
    else if !IsLoad(data, n - 1) then Describes(data, n - 1, segments)
    else
      && SegmentError(data, n - 1).None? && segments != []
      && segments[|segments| - 1] == SegmentAt(data, n - 1) && Describes(data, n - 1, segments[..|segments| - 1])
  }

  /** Header `k` is the first load segment with something wrong with it. */
  ghost predicate FirstBad(data: seq<byte>, k: nat, e: ElfError)
    requires HeaderError(data).None?
  {
    && k < Headers(data) && IsLoad(data, k) && SegmentError(data, k) == Some(e)
    && forall j: nat :: j < k && IsLoad(data, j) ==> SegmentError(data, j).None?
  }

  /** The segment's bytes are those of the file from `offset` on, and it may be mapped as it asks to be. */
  ghost predicate LoadableFrom(data: seq<byte>, s: Segment, offset: nat) {
    && offset + |s.data| <= |data| && s.data == data[offset..offset + |s.data|] && |s.data| <= s.memorySize
    && (s.alignment == 0 || Ranges.PowerOfTwo(s.alignment))
    && (s.alignment > 1 ==> s.address % s.alignment == offset % s.alignment)
  }

  /** What an accepted segment guarantees whoever loads it. */
  ghost predicate Loadable(data: seq<byte>, s: Segment) {
    s.address <= U64_MAX && s.memorySize <= U64_MAX && exists offset: nat :: LoadableFrom(data, s, offset)
  }

  // ----------------------------------------------------------------- the parser

  /** `parse`: the load segments of the file, or the first thing wrong with it; no header read can fail. */
  method Parse(data: seq<byte>) returns (r: Result<Image, ElfError>)
    ensures HeaderError(data).Some? ==> r == Err(HeaderError(data).value)
    ensures r.Ok? ==>
              && HeaderError(data).None? && Describes(data, Headers(data), r.value.segments)
              && r.value.segments != [] && r.value.entry == Field(data, 24, 8)
    ensures r.Ok? ==> forall s :: s in r.value.segments ==> Loadable(data, s)
    ensures r.Err? && HeaderError(data).None? ==>
              || (r.error == InvalidSegment && Describes(data, Headers(data), []))
              || exists k: nat :: FirstBad(data, k, r.error)
  {
    hide Decode, Describes, FirstBad, Loadable;
    if |data| < HEADER_SIZE { return Err(TooSmall); }
    if data[..4] != MAGIC { return Err(BadMagic); }
    if data[4] != 2 { return Err(UnsupportedClass); }
    if data[5] != 1 { return Err(UnsupportedEndian); }
    if data[6] != 1 { return Err(UnsupportedVersion); }
    if Read(data, 16, 2).value != 2 { return Err(UnsupportedType); }
    if Read(data, 18, 2).value != 62 { return Err(UnsupportedMachine); }
    if Read(data, 20, 4).value != 1 { return Err(UnsupportedVersion); }
    var entry, phoff := Read(data, 24, 8).value, Read(data, 32, 8).value;
    var ehsize, phentsize, phnum := Read(data, 52, 2).value, Read(data, 54, 2).value, Read(data, 56, 2).value;
    if ehsize < HEADER_SIZE || phentsize != PH_SIZE { return Err(InvalidHeader); }
    if phoff + phentsize * phnum > |data| { return Err(TruncatedProgramHeaders); }
    var segments := ReadSegments(data, phoff, phentsize, phnum);
    if segments.Err? { return Err(segments.error); }
    if segments.value == [] { return Err(InvalidSegment); }
    SegmentsAreLoadable(data, segments.value);
    return Ok(Image(entry, segments.value));
  }

  method ReadSegments(data: seq<byte>, phoff: nat, phentsize: nat, phnum: nat)
    returns (r: Result<seq<Segment>, ElfError>)
    requires HeaderError(data).None? && phoff == Field(data, 32, 8) && phentsize == PH_SIZE && phnum == Headers(data)
    ensures r.Ok? ==> Describes(data, phnum, r.value)
    ensures r.Err? ==> exists k: nat :: FirstBad(data, k, r.error)
  {
    hide HeaderError, Decode;
    var segments: seq<Segment>, index := [], 0;
    r := Ok([]);
    while index < phnum && r.Ok?
      invariant index <= phnum
      invariant r.Ok? ==> Describes(data, index, segments)
      invariant forall j: nat :: j < index && IsLoad(data, j) ==> SegmentError(data, j).None?
      invariant r.Err? ==> index < phnum && FirstBad(data, index, r.error)
      decreases phnum - index, if r.Ok? then 1 else 0
    {
      var base := phoff + index * phentsize;
      assert base == HeaderAt(data, index);
      if Read(data, base, 4).value == PT_LOAD {
        var s := ReadSegment(data, base, index);
        if s.Err? {
          r := Err(s.error);
        } else {
          segments := segments + [s.value];
          assert segments[..|segments| - 1] + [s.value] == segments;
          index := index + 1;
        }
      } else {
        index := index + 1;
      }
    }
    if r.Ok? {
      r := Ok(segments);
    }
  }

  method ReadSegment(data: seq<byte>, base: nat, ghost k: nat) returns (r: Result<Segment, ElfError>)
    requires HeaderError(data).None? && k < Headers(data) && base == HeaderAt(data, k)
    ensures r.Err? <==> SegmentError(data, k).Some?
    ensures r.Err? ==> SegmentError(data, k) == Some(r.error)
    ensures r.Ok? ==> r.value == SegmentAt(data, k)
  {
    hide HeaderError, Decode;
    var flags, offset := Read(data, base + 4, 4).value, Read(data, base + 8, 8).value;
    var address, fileSize := Read(data, base + 16, 8).value, Read(data, base + 32, 8).value;
    var memorySize, alignment := Read(data, base + 40, 8).value, Read(data, base + 48, 8).value;
    if || memorySize < fileSize
       || (alignment != 0 && !Ranges.PowerOfTwo(alignment))
       || (alignment > 1 && address % alignment != offset % alignment)
    {
      r := Err(InvalidSegment);
    } else if offset + fileSize > |data| {
      r := Err(TruncatedSegment);
    } else {
      r := Ok(Segment(address, memorySize, data[offset..offset + fileSize],
                      flags / 4 % 2 == 1, flags / 2 % 2 == 1, flags % 2 == 1, alignment));
    }
  }

  /** Every segment comes from a load header, and every load header has its segment. */
  lemma {:induction false} SegmentsAreHeaders(data: seq<byte>, n: nat, segments: seq<Segment>)
    requires HeaderError(data).None? && n <= Headers(data) && Describes(data, n, segments)
    ensures forall s :: s in segments ==> exists k: nat :: k < n && IsSegment(data, k, s)
    ensures forall k: nat :: k < n && IsLoad(data, k) ==> SegmentError(data, k).None? && SegmentAt(data, k) in segments
    decreases n
  {
    hide HeaderError, SegmentAt, SegmentError;
    if n > 0 {
      if IsLoad(data, n - 1) {
        var m := |segments| - 1;
        SegmentsAreHeaders(data, n - 1, segments[..m]);
        assert segments == segments[..m] + [segments[m]];
        assert IsSegment(data, n - 1, segments[m]);
      } else {
        SegmentsAreHeaders(data, n - 1, segments);
      }
    }
  }

  /** How many load headers come before header `k`. */
  function LoadsBefore(data: seq<byte>, k: nat): nat
    requires HeaderError(data).None? && k <= Headers(data)
  {
    if k == 0 then 0 else LoadsBefore(data, k - 1) + if IsLoad(data, k - 1) then 1 else 0
  }

  /** Segments come in the order of their headers. */
  lemma {:induction false} SegmentsInOrder(data: seq<byte>, n: nat, segments: seq<Segment>, k: nat)
    requires HeaderError(data).None? && k < n <= Headers(data) && Describes(data, n, segments) && IsLoad(data, k)
    ensures |segments| == LoadsBefore(data, n) && LoadsBefore(data, k) < |segments|
    ensures SegmentError(data, k).None? && segments[LoadsBefore(data, k)] == SegmentAt(data, k)
    decreases n
  {
    hide HeaderError, SegmentAt, SegmentError;
    var m := |segments| - 1;
    if IsLoad(data, n - 1) {
      LoadsCounted(data, n - 1, segments[..m]);
      if k < n - 1 {
        SegmentsInOrder(data, n - 1, segments[..m], k);
      }
    } else {
      SegmentsInOrder(data, n - 1, segments, k);
    }
  }

  lemma {:induction false} LoadsCounted(data: seq<byte>, n: nat, segments: seq<Segment>)
    requires HeaderError(data).None? && n <= Headers(data) && Describes(data, n, segments)
    ensures |segments| == LoadsBefore(data, n)
    decreases n
  {
    hide HeaderError, SegmentAt, SegmentError;
    if n > 0 {
      LoadsCounted(data, n - 1, if IsLoad(data, n - 1) then segments[..|segments| - 1] else segments);
    }
  }

  lemma SegmentsAreLoadable(data: seq<byte>, segments: seq<Segment>)
    requires HeaderError(data).None? && Describes(data, Headers(data), segments)
    ensures forall s :: s in segments ==> Loadable(data, s)
  {
    hide HeaderError, SegmentAt, SegmentError, Describes, Loadable;
    SegmentsAreHeaders(data, Headers(data), segments);
    forall s | s in segments
      ensures Loadable(data, s)
    {
      var k: nat :| k < Headers(data) && IsSegment(data, k, s);
      AcceptedIsLoadable(data, k);
    }
  }

  lemma AcceptedIsLoadable(data: seq<byte>, k: nat)
    requires HeaderError(data).None? && k < Headers(data) && SegmentError(data, k).None?
    ensures Loadable(data, SegmentAt(data, k))
  {
    hide HeaderError, Decode, Pow256, Ranges.PowerOfTwo;
    Widths();
    var base := HeaderAt(data, k);
    DecodeBound(data[base + 16..base + 24]);
    DecodeBound(data[base + 40..base + 48]);
    assert LoadableFrom(data, SegmentAt(data, k), FileOffset(data, k));
  }

  predicate IsSegment(data: seq<byte>, k: nat, s: Segment)
    requires HeaderError(data).None? && k < Headers(data)
  {
    IsLoad(data, k) && SegmentError(data, k).None? && s == SegmentAt(data, k)
  }
}

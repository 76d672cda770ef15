/** ELF64 files as the format lays them out, field by field, and what the parser reads back from them. */
module ElfLayout {
  import opened LittleEndian
  import opened Elf

  /** The header fields that a loader can meet; `ident` is the padding behind the first seven bytes. */
  datatype FileHeader = FileHeader(
    ident: seq<byte>, kind: nat, machine: nat, version: nat, entry: nat, phoff: nat, shoff: nat, flags: nat,
    ehsize: nat, phentsize: nat, phnum: nat, shentsize: nat, shnum: nat, shstrndx: nat)

  /** A program header; the flag word is X + 2 W + 4 R + 8 `more`. */
  datatype ProgramHeader = ProgramHeader(
    kind: nat, x: bool, w: bool, r: bool, more: nat, offset: nat, vaddr: nat, paddr: nat, filesz: nat, memsz: nat,
    align: nat)

  predicate Fits(v: nat, n: nat) {
    v < Pow256(n)
  }

  predicate HeaderFits(h: FileHeader) {
    && |h.ident| == 9 && Fits(h.kind, 2) && Fits(h.machine, 2) && Fits(h.version, 4) && Fits(h.entry, 8)
    && Fits(h.phoff, 8) && Fits(h.shoff, 8) && Fits(h.flags, 4) && Fits(h.ehsize, 2) && Fits(h.phentsize, 2)
    && Fits(h.phnum, 2) && Fits(h.shentsize, 2) && Fits(h.shnum, 2) && Fits(h.shstrndx, 2)
  }

  function One(b: bool): nat {
    if b then 1 else 0
  }

  function FlagWord(p: ProgramHeader): nat {
    One(p.x) + 2 * One(p.w) + 4 * One(p.r) + 8 * p.more
  }

  predicate ProgramFits(p: ProgramHeader) {
    && Fits(p.kind, 4) && Fits(FlagWord(p), 4) && Fits(p.offset, 8) && Fits(p.vaddr, 8) && Fits(p.paddr, 8)
    && Fits(p.filesz, 8) && Fits(p.memsz, 8) && Fits(p.align, 8)
  }

  function HeaderBytes(h: FileHeader): (bytes: seq<byte>)
    ensures |bytes| == 55 + |h.ident|
  {
    [0x7f, 0x45, 0x4c, 0x46, 2, 1, 1] + h.ident +
    Encode(h.kind, 2) + Encode(h.machine, 2) + Encode(h.version, 4) + Encode(h.entry, 8) + Encode(h.phoff, 8) +
    Encode(h.shoff, 8) + Encode(h.flags, 4) + Encode(h.ehsize, 2) + Encode(h.phentsize, 2) + Encode(h.phnum, 2) +
    Encode(h.shentsize, 2) + Encode(h.shnum, 2) + Encode(h.shstrndx, 2)
  }

  function ProgramBytes(p: ProgramHeader): (bytes: seq<byte>)
    ensures |bytes| == 56
  {
    Encode(p.kind, 4) + Encode(FlagWord(p), 4) + Encode(p.offset, 8) + Encode(p.vaddr, 8) + Encode(p.paddr, 8) +
    Encode(p.filesz, 8) + Encode(p.memsz, 8) + Encode(p.align, 8)
  }

  /** The file starts with this header, and has these program headers where it says. */
  ghost predicate LaidOut(data: seq<byte>, h: FileHeader, ps: seq<ProgramHeader>) {
    && HeaderFits(h) && 64 <= |data| && data[..64] == HeaderBytes(h)
    && |ps| == h.phnum && h.phoff + 56 * h.phnum <= |data|
    && forall k :: 0 <= k < |ps| ==> ProgramFits(ps[k]) && ProgramAt(data, h, ps, k)
  }

  ghost predicate ProgramAt(data: seq<byte>, h: FileHeader, ps: seq<ProgramHeader>, k: nat)
    requires k < |ps| == h.phnum && h.phoff + 56 * h.phnum <= |data|
  {
    data[h.phoff + 56 * k..h.phoff + 56 * k + 56] == ProgramBytes(ps[k])
  }

  /** A field is read back from its place in a part of the file. */
  lemma FieldIs(data: seq<byte>, base: nat, part: seq<byte>, before: seq<byte>, v: nat, n: nat)
    requires base + |part| <= |data| && data[base..base + |part|] == part
    requires before + Encode(v, n) <= part && Fits(v, n)
    ensures base + |before| + n <= |data| && Field(data, base + |before|, n) == v
  {
    hide Encode, Decode;
    var at, code := base + |before|, Encode(v, n);
    forall i | 0 <= i < n
      ensures data[at + i] == code[i]
    {
      assert (before + code)[|before| + i] == part[|before| + i];
      assert data[base..base + |part|][|before| + i] == data[at + i];
    }
    assert data[at..at + n] == code;
    RoundTrip(v, n);
  }

  lemma Prefix(a: seq<byte>, b: seq<byte>, c: seq<byte>)
    requires a + b <= c
    ensures a <= c
  {
  }

  lemma HeaderRead(data: seq<byte>, h: FileHeader)
    requires HeaderFits(h) && 64 <= |data| && data[..64] == HeaderBytes(h)
    ensures data[..4] == MAGIC && data[4] == 2 && data[5] == 1 && data[6] == 1
    ensures Field(data, 16, 2) == h.kind && Field(data, 18, 2) == h.machine && Field(data, 20, 4) == h.version
    ensures Field(data, 24, 8) == h.entry && Field(data, 32, 8) == h.phoff
    ensures Field(data, 52, 2) == h.ehsize && Field(data, 54, 2) == h.phentsize && Field(data, 56, 2) == h.phnum
  {
    hide Encode, Field, Fits;
    var all := HeaderBytes(h);
    var b0 := [0x7f, 0x45, 0x4c, 0x46, 2, 1, 1] + h.ident;
    var b1 := b0 + Encode(h.kind, 2);
    var b2 := b1 + Encode(h.machine, 2);
    var b3 := b2 + Encode(h.version, 4);
    var b4 := b3 + Encode(h.entry, 8);
    var b5 := b4 + Encode(h.phoff, 8);
    var b6 := b5 + Encode(h.shoff, 8);
    var b7 := b6 + Encode(h.flags, 4);
    var b8 := b7 + Encode(h.ehsize, 2);
    var b9 := b8 + Encode(h.phentsize, 2);
    var b10 := b9 + Encode(h.phnum, 2);
    var b11 := b10 + Encode(h.shentsize, 2);
    var b12 := b11 + Encode(h.shnum, 2);
    assert b12 + Encode(h.shstrndx, 2) == all;
    Prefix(b12, Encode(h.shstrndx, 2), all);
    Prefix(b11, Encode(h.shnum, 2), all);
    Prefix(b10, Encode(h.shentsize, 2), all);
    FieldIs(data, 0, all, b9, h.phnum, 2);
    Prefix(b9, Encode(h.phnum, 2), all);
    FieldIs(data, 0, all, b8, h.phentsize, 2);
    Prefix(b8, Encode(h.phentsize, 2), all);
    FieldIs(data, 0, all, b7, h.ehsize, 2);
    Prefix(b7, Encode(h.ehsize, 2), all);
    Prefix(b6, Encode(h.flags, 4), all);
    Prefix(b5, Encode(h.shoff, 8), all);
    FieldIs(data, 0, all, b4, h.phoff, 8);
    Prefix(b4, Encode(h.phoff, 8), all);
    FieldIs(data, 0, all, b3, h.entry, 8);
    Prefix(b3, Encode(h.entry, 8), all);
    FieldIs(data, 0, all, b2, h.version, 4);
    Prefix(b2, Encode(h.version, 4), all);
    FieldIs(data, 0, all, b1, h.machine, 2);
    Prefix(b1, Encode(h.machine, 2), all);
    FieldIs(data, 0, all, b0, h.kind, 2);
    Prefix(b0, Encode(h.kind, 2), all);
    assert forall i :: 0 <= i < 7 ==> data[i] == b0[i];
    assert data[..4] == MAGIC;
  }

  lemma ProgramRead(data: seq<byte>, base: nat, p: ProgramHeader)
    requires ProgramFits(p) && base + 56 <= |data| && data[base..base + 56] == ProgramBytes(p)
    ensures Field(data, base, 4) == p.kind && Field(data, base + 4, 4) == FlagWord(p)
    ensures Field(data, base + 8, 8) == p.offset && Field(data, base + 16, 8) == p.vaddr
    ensures Field(data, base + 32, 8) == p.filesz && Field(data, base + 40, 8) == p.memsz
    ensures Field(data, base + 48, 8) == p.align
  {
    hide Encode, Field, Fits, FlagWord;
    var all := ProgramBytes(p);
    var b1 := Encode(p.kind, 4);
    var b2 := b1 + Encode(FlagWord(p), 4);
    var b3 := b2 + Encode(p.offset, 8);
    var b4 := b3 + Encode(p.vaddr, 8);
    var b5 := b4 + Encode(p.paddr, 8);
    var b6 := b5 + Encode(p.filesz, 8);
    var b7 := b6 + Encode(p.memsz, 8);
    assert b7 + Encode(p.align, 8) == all;
    FieldIs(data, base, all, b7, p.align, 8);
    Prefix(b7, Encode(p.align, 8), all);
    FieldIs(data, base, all, b6, p.memsz, 8);
    Prefix(b6, Encode(p.memsz, 8), all);
    FieldIs(data, base, all, b5, p.filesz, 8);
    Prefix(b5, Encode(p.filesz, 8), all);
    Prefix(b4, Encode(p.paddr, 8), all);
    FieldIs(data, base, all, b3, p.vaddr, 8);
    Prefix(b3, Encode(p.vaddr, 8), all);
    FieldIs(data, base, all, b2, p.offset, 8);
    Prefix(b2, Encode(p.offset, 8), all);
    FieldIs(data, base, all, b1, FlagWord(p), 4);
    Prefix(b1, Encode(FlagWord(p), 4), all);
    assert [] + b1 == b1;
    FieldIs(data, base, all, [], p.kind, 4);
  }

  /** What the parser demands of the header of a file, in the fields of the format. */
  ghost predicate Executable(h: FileHeader) {
    h.kind == 2 && h.machine == 62 && h.version == 1 && h.ehsize >= 64 && h.phentsize == 56
  }

  /** The parser accepts exactly the headers of executables, and finds every field where the format puts it. */
  lemma LayoutIsRead(data: seq<byte>, h: FileHeader, ps: seq<ProgramHeader>)
    requires LaidOut(data, h, ps)
    ensures HeaderError(data).None? <==> Executable(h)
    ensures Executable(h) ==>
              && Headers(data) == |ps| && Field(data, 24, 8) == h.entry
              && forall k :: 0 <= k < |ps| ==> ProgramIsRead(data, k, ps[k])
  {
    hide Decode, Encode, HeaderFits, HeaderBytes, ProgramBytes, ProgramFits, Field;
    HeaderRead(data, h);
    assert Executable(h) <==> HeaderError(data).None?;
    if Executable(h) {
      forall k | 0 <= k < |ps|
        ensures ProgramIsRead(data, k, ps[k])
      {
        assert ProgramAt(data, h, ps, k);
        ProgramRead(data, h.phoff + 56 * k, ps[k]);
        FlagsAre(ps[k]);
      }
    }
  }

  lemma FlagsAre(p: ProgramHeader)
    ensures FlagWord(p) % 2 == One(p.x) && FlagWord(p) / 2 % 2 == One(p.w) && FlagWord(p) / 4 % 2 == One(p.r)
  {
    LowBit(One(p.x), One(p.w) + 2 * One(p.r) + 4 * p.more);
    LowBit(One(p.w), One(p.r) + 2 * p.more);
    LowBit(One(p.r), p.more);
    DividesTwice(FlagWord(p), 2, 2);
  }

  lemma LowBit(b: nat, rest: nat)
    requires b < 2
    ensures (b + 2 * rest) % 2 == b && (b + 2 * rest) / 2 == rest
  {
  }

  /** Program header `k` of the file is read as `p`. */
  ghost predicate ProgramIsRead(data: seq<byte>, k: nat, p: ProgramHeader) {
    && HeaderError(data).None? && k < Headers(data)
    && (IsLoad(data, k) <==> p.kind == 1) && FileOffset(data, k) == p.offset && Address(data, k) == p.vaddr
    && FileSize(data, k) == p.filesz && MemorySize(data, k) == p.memsz
    && (SegmentError(data, k).None? <==>
          && p.filesz <= p.memsz && p.offset + p.filesz <= |data|
          && (p.align == 0 || (Ranges.PowerOfTwo(p.align) && p.vaddr % p.align == p.offset % p.align)))
    && (SegmentError(data, k).None? ==>
          && p.offset + p.filesz <= |data|
          && SegmentAt(data, k) ==
             Segment(p.vaddr, p.memsz, data[p.offset..p.offset + p.filesz], p.r, p.w, p.x, p.align))
  }
}

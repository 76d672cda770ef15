/** Whole GenericFS volumes: well-formedness, file contents and what a write does to them. */
module GenericFsVolume {
  import opened Wrappers
  import opened LittleEndian
  import opened GenericFsDisk
  import opened GenericFsTree
  import opened GenericFsExtents

  const MAGIC: seq<byte> := [0x47, 0x45, 0x4e, 0x46, 0x53, 0x31, 0, 0]  // "GENFS1\0\0"
  const VERSION: nat := 1

  // ----------------------------------------------------------- well-formedness

  ghost predicate Decodes(disk: Disk) {
    DATA_START + 1 < |disk| < U32 && forall i :: 1 <= i <= INODE_COUNT ==> Lookup(disk, i).Ok?
  }

  function Inodes(disk: Disk): Table
    requires Decodes(disk)
  {
    seq(INODE_COUNT, k requires 0 <= k < INODE_COUNT => Lookup(disk, k + 1).value)
  }

  /** The fields `mount` insists on. */
  predicate GoodSuperblock(disk: Disk)
    requires |disk| > 0
  {
    && disk[0][..8] == MAGIC
    && Decode(disk[0][8..12]) == VERSION && Decode(disk[0][12..16]) == INODE_COUNT
    && Decode(disk[0][16..24]) == DATA_START && Decode(disk[0][24..32]) == |disk|
  }

  ghost predicate WellFormed(disk: Disk) {
    && Decodes(disk) && GoodSuperblock(disk)
    && Tree(Inodes(disk)) && Extents(Inodes(disk), |disk|)
  }

  /** `d` differs from `disk` at most in sectors [lo, hi). */
  ghost predicate Differ(disk: Disk, d: Disk, lo: nat, hi: nat) {
    |d| == |disk| && forall s :: 0 <= s < |disk| && !(lo <= s < hi) ==> d[s] == disk[s]
  }

  lemma SameInodes(disk: Disk, d: Disk, lo: nat, hi: nat)
    requires Decodes(disk) && Differ(disk, d, lo, hi) && DATA_START <= lo
    ensures Decodes(d) && Inodes(d) == Inodes(disk)
    ensures GoodSuperblock(d) == GoodSuperblock(disk)
  {
    forall i | 1 <= i <= INODE_COUNT
      ensures Lookup(d, i) == Lookup(disk, i)
    {
      assert d[TableSector(i)] == disk[TableSector(i)];
    }
  }

  /** Storing an inode updates exactly that entry of the table. */
  lemma StoreInodes(disk: Disk, inode: nat, e: DiskInode)
    requires Decodes(disk) && 1 <= inode <= INODE_COUNT && Encodable(e) && e.kind <= 2 && e.nameLen <= MAX_DISK_NAME
    ensures Decodes(Store(disk, inode, e)) && Inodes(Store(disk, inode, e)) == Inodes(disk)[inode - 1 := e]
    ensures GoodSuperblock(Store(disk, inode, e)) == GoodSuperblock(disk)
    ensures forall s :: DATA_START <= s < |disk| ==> Store(disk, inode, e)[s] == disk[s]
  {
    hide Store, Lookup;
    StoreSectors(disk, inode, e);
    forall i | 1 <= i <= INODE_COUNT
      ensures Lookup(Store(disk, inode, e), i) == if i == inode then Ok(e) else Lookup(disk, i)
    {
      StoreLookup(disk, inode, e, i);
    }
  }

  lemma StoreSectors(disk: Disk, inode: nat, e: DiskInode)
    requires 1 <= inode <= INODE_COUNT && DATA_START <= |disk| && Encodable(e)
    ensures |Store(disk, inode, e)| == |disk|
    ensures forall s :: 0 <= s < |disk| && s != TableSector(inode) ==> Store(disk, inode, e)[s] == disk[s]
    ensures 1 <= TableSector(inode) < DATA_START
  {
  }

  lemma InodesAreEncodable(disk: Disk, i: nat)
    requires Decodes(disk) && 1 <= i <= INODE_COUNT
    ensures Encodable(Inodes(disk)[i - 1]) && Inodes(disk)[i - 1].kind <= 2
    ensures Inodes(disk)[i - 1].nameLen <= MAX_DISK_NAME
  {
    assert Lookup(disk, i).Ok?;
    DecodedIsEncodable(SlotBytes(disk, i));
  }

  // ------------------------------------------------------------------ contents

  /** Byte `p` of the run of sectors from `start` on. */
  function ByteAt(disk: Disk, start: nat, p: nat): byte
    requires start + p / SECTOR_SIZE < |disk|
  {
    disk[start + p / SECTOR_SIZE][p % SECTOR_SIZE]
  }

  ghost predicate InBounds(disk: Disk, e: DiskInode) {
    SectorsFor(e.len) <= e.sectorCount && e.startSector + e.sectorCount <= |disk|
  }

  lemma PositionInBounds(disk: Disk, e: DiskInode, p: nat)
    requires InBounds(disk, e) && p < e.len
    ensures p / SECTOR_SIZE < e.sectorCount && e.startSector + p / SECTOR_SIZE < |disk|
  {
  }

  /** What a file holds. */
  ghost function Contents(disk: Disk, e: DiskInode): (data: seq<byte>)
    requires InBounds(disk, e)
    ensures |data| == e.len
  {
    seq(e.len, p requires 0 <= p < e.len => PositionInBounds(disk, e, p); ByteAt(disk, e.startSector, p))
  }

  /** The extent of `e` and [lo, hi) have no sector in common. */
  predicate Apart(e: DiskInode, lo: nat, hi: nat) {
    e.sectorCount == 0 || hi <= lo || hi <= e.startSector || e.startSector + e.sectorCount <= lo
  }

  /** A file away from the changed sectors keeps its contents. */
  lemma ContentsElsewhere(disk: Disk, d: Disk, e: DiskInode, lo: nat, hi: nat)
    requires InBounds(disk, e) && Differ(disk, d, lo, hi)
    requires Apart(e, lo, hi)
    ensures InBounds(d, e) && Contents(d, e) == Contents(disk, e)
  {
    forall p | 0 <= p < e.len
      ensures Contents(d, e)[p] == Contents(disk, e)[p]
    {
      PositionInBounds(disk, e, p);
    }
  }

  // ------------------------------------------------- the in-memory reference

  /** `Vec::resize` with zero fill, as the RAM filesystem uses it. */
  function Resize(data: seq<byte>, n: nat): seq<byte> {
    if n <= |data| then data[..n] else data + Zeros(n - |data|)
  }

  /** What the RAM filesystem makes of a write. */
  function RamWrite(data: seq<byte>, offset: nat, bytes: seq<byte>): seq<byte> {
    var end := offset + |bytes|;
    var grown := if end > |data| then Resize(data, end) else data;
    grown[..offset] + bytes + grown[end..]
  }

  lemma RamWriteAt(data: seq<byte>, offset: nat, bytes: seq<byte>, p: nat)
    ensures |RamWrite(data, offset, bytes)| == if offset + |bytes| > |data| then offset + |bytes| else |data|
    ensures p < |RamWrite(data, offset, bytes)| ==>
              RamWrite(data, offset, bytes)[p] ==
              if offset <= p < offset + |bytes| then bytes[p - offset] else if p < |data| then data[p] else 0
  {
  }

  // ------------------------------------------------------------------- growth

  /** Growing from `e0` to `e1` overwrites old sector `s` before it is copied. */
  predicate Clobbered(e0: DiskInode, e1: DiskInode, s: nat) {
    e0.sectorCount < e1.sectorCount &&
    e1.startSector <= e0.startSector + s < e1.startSector + e1.sectorCount
  }

  /** Sector `s` of a grown file. */
  function Kept(disk: Disk, e0: DiskInode, e1: DiskInode, s: nat): Sector
    requires s < e0.sectorCount ==> e0.startSector + s < |disk|
  {
    if s < e0.sectorCount && !Clobbered(e0, e1, s) then disk[e0.startSector + s] else ZERO
  }

  ghost predicate SectorKept(disk: Disk, e0: DiskInode, d: Disk, e1: DiskInode, s: nat) {
    && e1.startSector + s < |d| && (s < e0.sectorCount ==> e0.startSector + s < |disk|)
    && d[e1.startSector + s] == Kept(disk, e0, e1, s)
  }

  /** What `ensure_capacity` promises when it succeeds. */
  ghost predicate Grown(t: Table, inode: nat, disk: Disk, e0: DiskInode, needed: nat, d: Disk, e1: DiskInode) {
    if needed <= e0.sectorCount then e1 == e0 && d == disk
    else
      && e1 == e0.(startSector := e1.startSector, sectorCount := needed)
      && FirstFit(t, inode, needed, |disk|, Ok(e1.startSector))
      && Differ(disk, d, e1.startSector, e1.startSector + needed)
      && forall s: nat :: s < needed ==> SectorKept(disk, e0, d, e1, s)
  }

  /** A grown extent that meets the old one starts no later: nothing is copied over itself. */
  lemma OverlapStartsBelow(t: Table, inode: nat, sectors: nat, needed: nat, c: nat, s: int)
    requires Extents(t, sectors) && Owns(t, inode, s)
    requires FirstFit(t, inode, needed, sectors, Ok(c)) && c <= s < c + needed
    ensures c <= t[inode - 1].startSector
  {
    var start := t[inode - 1].startSector;
    if start < c {
      assert Housed(t, inode, sectors);
      forall x | start <= x < start + needed
        ensures !OwnedByOther(t, inode, x)
      {
        if x < c {
          assert Owns(t, inode, x);
        }
      }
      assert FreeRun(t, inode, start, needed, sectors);
    }
  }

  // ------------------------------------------------------------------ overlays

  /** In the run of `cap` sectors from `start`, `data` has been written at `from` and nothing else changed. */
  ghost predicate Overlaid(disk: Disk, d: Disk, start: nat, cap: nat, from: nat, data: seq<byte>) {
    && start + cap <= |disk| && Differ(disk, d, start, start + cap)
    && forall p: nat :: p / SECTOR_SIZE < cap ==>
         ByteAt(d, start, p) == if from <= p < from + |data| then data[p - from] else ByteAt(disk, start, p)
  }

  /** One read-modify-write of the sector that holds position `p`. */
  lemma PatchOverlays(disk: Disk, start: nat, cap: nat, p: nat, chunk: seq<byte>)
    requires start + cap <= |disk| && p / SECTOR_SIZE < cap && p % SECTOR_SIZE + |chunk| <= SECTOR_SIZE
    ensures var i := start + p / SECTOR_SIZE;
            Overlaid(disk, disk[i := Splice(disk[i], p % SECTOR_SIZE, chunk)], start, cap, p, chunk)
  {
    var i := start + p / SECTOR_SIZE;
    var d := disk[i := Splice(disk[i], p % SECTOR_SIZE, chunk)];
    forall q: nat | q / SECTOR_SIZE < cap
      ensures ByteAt(d, start, q) == if p <= q < p + |chunk| then chunk[q - p] else ByteAt(disk, start, q)
    {
      if q / SECTOR_SIZE == p / SECTOR_SIZE {
        assert q - p == q % SECTOR_SIZE - p % SECTOR_SIZE;
      }
    }
  }

  lemma OverlayMore(disk: Disk, d: Disk, d': Disk, start: nat, cap: nat, from: nat, data: seq<byte>, more: seq<byte>)
    requires Overlaid(disk, d, start, cap, from, data)
    requires Overlaid(d, d', start, cap, from + |data|, more)
    ensures Overlaid(disk, d', start, cap, from, data + more)
  {
  }

  // ------------------------------------------------------- contents of a write

  /** What is left of the old contents once the extent has moved from `e0` to `e1`. */
  ghost function Survivors(disk: Disk, e0: DiskInode, e1: DiskInode): (data: seq<byte>)
    requires InBounds(disk, e0)
    ensures |data| == e0.len
  {
    seq(e0.len, p requires 0 <= p < e0.len => if Clobbered(e0, e1, p / SECTOR_SIZE) then 0 else Contents(disk, e0)[p])
  }

  lemma GrownByte(t: Table, inode: nat, disk: Disk, e0: DiskInode, needed: nat, d: Disk, e1: DiskInode, p: nat)
    requires Grown(t, inode, disk, e0, needed, d, e1) && InBounds(disk, e0) && InBounds(d, e1) && p < e0.len
    ensures e1.startSector + p / SECTOR_SIZE < |d|
    ensures ByteAt(d, e1.startSector, p) == Survivors(disk, e0, e1)[p]
  {
    PositionInBounds(disk, e0, p);
    if needed > e0.sectorCount {
      assert SectorKept(disk, e0, d, e1, p / SECTOR_SIZE);
    }
  }

  ghost function Max(a: nat, b: nat): nat {
    if a < b then b else a
  }

  /** Zeroing the gap between the old length and `to`, if there is one. */
  ghost predicate GapZeroed(d: Disk, d': Disk, e1: DiskInode, len: nat, to: nat) {
    if len < to then Overlaid(d, d', e1.startSector, e1.sectorCount, len, Zeros(to - len)) else d' == d
  }

  /** Growing, zeroing the gap and overlaying give what the RAM filesystem makes of the survivors. */
  lemma WriteContents(t: Table, inode: nat, disk: Disk, e0: DiskInode, d1: Disk, e1: DiskInode, d2: Disk, d3: Disk,
                      offset: nat, data: seq<byte>)
    requires InBounds(disk, e0) && Grown(t, inode, disk, e0, SectorsFor(offset + |data|), d1, e1)
    requires GapZeroed(d1, d2, e1, e0.len, offset)
    requires Overlaid(d2, d3, e1.startSector, e1.sectorCount, offset, data)
    ensures InBounds(d3, e1.(len := Max(e0.len, offset + |data|)))
    ensures Contents(d3, e1.(len := Max(e0.len, offset + |data|))) == RamWrite(Survivors(disk, e0, e1), offset, data)
  {
    var e2 := e1.(len := Max(e0.len, offset + |data|));
    var want := RamWrite(Survivors(disk, e0, e1), offset, data);
    RamWriteAt(Survivors(disk, e0, e1), offset, data, 0);
    forall p | 0 <= p < e2.len
      ensures Contents(d3, e2)[p] == want[p]
    {
      RamWriteAt(Survivors(disk, e0, e1), offset, data, p);
      PositionInBounds(d3, e2, p);
      if p < e0.len {
        GrownByte(t, inode, disk, e0, SectorsFor(offset + |data|), d1, e1, p);
      }
    }
  }

  lemma TruncateContents(t: Table, inode: nat, disk: Disk, e0: DiskInode, d1: Disk, e1: DiskInode, d2: Disk, len: nat)
    requires InBounds(disk, e0) && Grown(t, inode, disk, e0, SectorsFor(len), d1, e1)
    requires GapZeroed(d1, d2, e1, e0.len, len)
    ensures InBounds(d2, e1.(len := len))
    ensures Contents(d2, e1.(len := len)) == Resize(Survivors(disk, e0, e1), len)
  {
    var e2 := e1.(len := len);
    forall p | 0 <= p < len
      ensures Contents(d2, e2)[p] == Resize(Survivors(disk, e0, e1), len)[p]
    {
      PositionInBounds(d2, e2, p);
      if p < e0.len {
        GrownByte(t, inode, disk, e0, SectorsFor(len), d1, e1, p);
      }
    }
  }

  /** Old byte `p` is overwritten before it is copied. */
  predicate Lost(e0: DiskInode, e1: DiskInode, p: nat) {
    Clobbered(e0, e1, p / SECTOR_SIZE)
  }

  /** Without growth, or with extents apart, everything survives. */
  lemma AllSurvive(disk: Disk, e0: DiskInode, e1: DiskInode)
    requires InBounds(disk, e0)
    requires e1.sectorCount <= e0.sectorCount || Apart(e0, e1.startSector, e1.startSector + e1.sectorCount)
    ensures Survivors(disk, e0, e1) == Contents(disk, e0)
  {
    forall p | 0 <= p < e0.len
      ensures Survivors(disk, e0, e1)[p] == Contents(disk, e0)[p]
    {
      PositionInBounds(disk, e0, p);
    }
  }

  /** Losing bytes makes no difference to a write exactly if those not overlaid were zero already. */
  lemma OverlayAgreesIff(disk: Disk, e0: DiskInode, e1: DiskInode, offset: nat, data: seq<byte>)
    requires InBounds(disk, e0)
    ensures RamWrite(Survivors(disk, e0, e1), offset, data) == RamWrite(Contents(disk, e0), offset, data) <==>
            forall p: nat :: p < e0.len && Lost(e0, e1, p) && !(offset <= p < offset + |data|) ==>
                               Contents(disk, e0)[p] == 0
  {
    var have, want := RamWrite(Survivors(disk, e0, e1), offset, data), RamWrite(Contents(disk, e0), offset, data);
    RamWriteAt(Survivors(disk, e0, e1), offset, data, 0);
    RamWriteAt(Contents(disk, e0), offset, data, 0);
    hide RamWrite;
    forall p: nat | p < |want|
      ensures have[p] == want[p] <==>
              (p < e0.len && Lost(e0, e1, p) && !(offset <= p < offset + |data|) ==> Contents(disk, e0)[p] == 0)
    {
      RamWriteAt(Survivors(disk, e0, e1), offset, data, p);
      RamWriteAt(Contents(disk, e0), offset, data, p);
    }
  }

  /** Losing bytes makes no difference to a resize exactly if those that remain were zero already. */
  lemma ResizeAgreesIff(disk: Disk, e0: DiskInode, e1: DiskInode, len: nat)
    requires InBounds(disk, e0)
    ensures Resize(Survivors(disk, e0, e1), len) == Resize(Contents(disk, e0), len) <==>
            forall p: nat :: p < e0.len && Lost(e0, e1, p) && p < len ==> Contents(disk, e0)[p] == 0
  {
    var have, want := Resize(Survivors(disk, e0, e1), len), Resize(Contents(disk, e0), len);
    forall p: nat | p < len
      ensures have[p] == want[p] <==> (p < e0.len && Lost(e0, e1, p) && p < len ==> Contents(disk, e0)[p] == 0)
    {
    }
  }

  /** A file that can only grow where it stands loses everything it held. */
  lemma GrowInPlaceLosesAll(t: Table, inode: nat, disk: Disk, e0: DiskInode, needed: nat, d: Disk, e1: DiskInode)
    requires InBounds(disk, e0) && Grown(t, inode, disk, e0, needed, d, e1) && needed > e0.sectorCount
    requires FreeRun(t, inode, e0.startSector, needed, |disk|)
    requires forall c: nat :: c < e0.startSector ==> !FreeRun(t, inode, c, needed, |disk|)
    ensures Survivors(disk, e0, e1) == Zeros(e0.len)
  {
    assert e1.startSector == e0.startSector;
    forall p | 0 <= p < e0.len
      ensures Survivors(disk, e0, e1)[p] == 0
    {
      PositionInBounds(disk, e0, p);
    }
  }

  // --------------------------------------------------------- keeping the volume

  /** Changing a file's length and extent leaves the tree alone. */
  lemma ResizeKeepsTree(t: Table, i: nat, e: DiskInode)
    requires Tree(t) && Live(t, i)
    requires e == t[i - 1].(len := e.len, startSector := e.startSector, sectorCount := e.sectorCount)
    ensures Tree(t[i - 1 := e])
  {
    hide GoodName, Name;
    var t' := t[i - 1 := e];
    assert Name(e) == Name(t[i - 1]) && GoodName(e) == GoodName(t[i - 1]) by { SameName(e, t[i - 1]); }
    assert forall j :: Live(t', j) <==> Live(t, j);
    assert forall j, k :: Siblings(t', j, k) ==> Siblings(t, j, k);
    forall j | Live(t', j)
      ensures Placed(t', j)
    {
      var n: nat :| Rooted(t, j, n);
      RootedSame(t, t', j, n);
    }
  }

  lemma SameName(e: DiskInode, f: DiskInode)
    requires e.name == f.name && e.nameLen == f.nameLen
    ensures Name(e) == Name(f) && GoodName(e) == GoodName(f)
  {
  }

  lemma {:induction false} RootedSame(t: Table, t': Table, i: nat, n: nat)
    requires forall j :: Live(t, j) ==> Live(t', j) && t'[j - 1].parent == t[j - 1].parent
    requires Rooted(t, i, n)
    ensures Rooted(t', i, n)
    decreases n
  {
    if n > 0 {
      RootedSame(t, t', t[i - 1].parent, n - 1);
    }
  }

  /** No other file has a sector in [lo, hi), and neither has the inode table. */
  ghost predicate Private(t: Table, inode: nat, lo: nat, hi: nat) {
    (lo < hi ==> DATA_START <= lo) && forall s :: lo <= s < hi ==> !OwnedByOther(t, inode, s)
  }

  lemma ReplaceKeepsExtents(t: Table, inode: nat, sectors: nat, e: DiskInode)
    requires Extents(t, sectors) && 1 <= inode <= INODE_COUNT
    requires e.kind == 1 ==>
               && SectorsFor(e.len) <= e.sectorCount && e.startSector + e.sectorCount <= sectors
               && Private(t, inode, e.startSector, e.startSector + e.sectorCount)
    ensures Extents(t[inode - 1 := e], sectors)
  {
    var t' := t[inode - 1 := e];
    forall i: nat
      ensures Housed(t', i, sectors)
    {
      assert Housed(t, i, sectors);
    }
    forall i: nat, j: nat, s | Owns(t', i, s) && Owns(t', j, s)
      ensures i == j
    {
      assert i != inode ==> Owns(t, i, s);
      assert j != inode ==> Owns(t, j, s);
      assert i == inode && j != inode ==> OwnedByOther(t, inode, s);
      assert j == inode && i != inode ==> OwnedByOther(t, inode, s);
    }
  }

  /** A file's own extent is private to it. */
  lemma OwnExtentIsPrivate(t: Table, inode: nat, sectors: nat)
    requires Extents(t, sectors) && 2 <= inode <= INODE_COUNT && t[inode - 1].kind == 1
    ensures Private(t, inode, t[inode - 1].startSector, t[inode - 1].startSector + t[inode - 1].sectorCount)
    ensures t[inode - 1].startSector + t[inode - 1].sectorCount <= sectors
    ensures SectorsFor(t[inode - 1].len) <= t[inode - 1].sectorCount
  {
    assert Housed(t, inode, sectors);
    forall s | t[inode - 1].startSector <= s < t[inode - 1].startSector + t[inode - 1].sectorCount
      ensures !OwnedByOther(t, inode, s)
    {
      assert Owns(t, inode, s);
    }
  }

  // -------------------------------------------------------------- crash states

  /** File `j` of `disk` is still there in `d`, with the same record and the same bytes. */
  ghost predicate FileKept(disk: Disk, d: Disk, j: nat)
    requires WellFormed(disk) && WellFormed(d)
  {
    2 <= j <= INODE_COUNT && Inodes(disk)[j - 1].kind == 1 ==>
      var e := Inodes(disk)[j - 1];
      Inodes(d)[j - 1] == e && InBounds(disk, e) && InBounds(d, e) && Contents(d, e) == Contents(disk, e)
  }

  /** `d` is a well-formed volume with inode table `t` in which every file but `inode` is as in `disk`. */
  ghost predicate Shows(disk: Disk, d: Disk, inode: nat, t: Table)
    requires WellFormed(disk)
  {
    WellFormed(d) && Inodes(d) == t && forall j :: j != inode ==> FileKept(disk, d, j)
  }

  lemma FileInBounds(disk: Disk, j: nat)
    requires WellFormed(disk) && 2 <= j <= INODE_COUNT && Inodes(disk)[j - 1].kind == 1
    ensures InBounds(disk, Inodes(disk)[j - 1])
    ensures Inodes(disk)[j - 1].sectorCount != 0 ==> DATA_START <= Inodes(disk)[j - 1].startSector
  {
    assert Housed(Inodes(disk), j, |disk|);
  }

  /** While only private sectors change, the volume shows its old table. */
  lemma PrivateShows(disk: Disk, d: Disk, inode: nat, lo: nat, hi: nat)
    requires WellFormed(disk) && Differ(disk, d, lo, hi) && lo <= hi <= |disk| && Private(Inodes(disk), inode, lo, hi)
    ensures Shows(disk, d, inode, Inodes(disk))
  {
    hide Tree, Decodes, GoodSuperblock;
    var lo' := if lo < hi then lo else DATA_START;
    var hi' := if lo < hi then hi else DATA_START;
    SameInodes(disk, d, lo', hi');
    forall j: nat | j != inode
      ensures FileKept(disk, d, j)
    {
      if 2 <= j <= INODE_COUNT && Inodes(disk)[j - 1].kind == 1 {
        var e := Inodes(disk)[j - 1];
        FileInBounds(disk, j);
        var s := if e.startSector < lo then lo else e.startSector;
        assert Owns(Inodes(disk), j, s) ==> OwnedByOther(Inodes(disk), inode, s);
        ContentsElsewhere(disk, d, e, lo, hi);
      }
    }
  }

  /** Storing the new record of `inode` shows the new table. */
  lemma StoreShows(disk: Disk, d: Disk, inode: nat, e: DiskInode)
    requires WellFormed(disk) && Shows(disk, d, inode, Inodes(disk))
    requires 1 <= inode <= INODE_COUNT && Encodable(e) && e.kind <= 2 && e.nameLen <= MAX_DISK_NAME
    requires Tree(Inodes(disk)[inode - 1 := e]) && Extents(Inodes(disk)[inode - 1 := e], |disk|)
    requires |d| == |disk|
    ensures Shows(disk, Store(d, inode, e), inode, Inodes(disk)[inode - 1 := e])
    ensures |Store(d, inode, e)| == |d| && forall s :: DATA_START <= s < |d| ==> Store(d, inode, e)[s] == d[s]
  {
    hide Tree, GoodSuperblock, Store, Encodable;
    var d' := Store(d, inode, e);
    StoreInodes(d, inode, e);
    StoreSectors(d, inode, e);
    forall j: nat | j != inode
      ensures FileKept(disk, d', j)
    {
      assert FileKept(disk, d, j);
      if 2 <= j <= INODE_COUNT && Inodes(disk)[j - 1].kind == 1 {
        FileInBounds(disk, j);
        ContentsElsewhere(d, d', Inodes(disk)[j - 1], 1, DATA_START);
      }
    }
  }
}

/**
 What GenericFS writes do to contents, seen from before the call: when they agree with the RAM
 filesystem, what they lose when they do not, and what a length that wraps around destroys.
 */
module GenericFsAgreement {
  import opened Wrappers
  import opened LittleEndian
  import opened GenericFsDisk
  import opened GenericFsTree
  import opened GenericFsExtents
  import opened GenericFsVolume
  import opened GenericFsFormat
  import opened GenericFs
  import opened VfsErrors

  // ------------------------------------------------- agreeing with the RAM filesystem

  /** Where a file of `needed` sectors goes: `c` is the lowest fit, if the file has to grow. */
  ghost predicate GrowsTo(disk: Disk, inode: nat, needed: nat, c: nat)
    requires WellFormed(disk) && Inaccessible(disk, inode).None?
  {
    needed > Inodes(disk)[inode - 1].sectorCount ==> FirstFit(Inodes(disk), inode, needed, |disk|, Ok(c))
  }

  /** Byte `p` of the file lies in a sector that growing to `needed` sectors at `c` overwrites first. */
  predicate InTheWay(e: DiskInode, needed: nat, c: nat, p: nat) {
    needed > e.sectorCount && c <= e.startSector + p / SECTOR_SIZE < c + needed
  }

  lemma LostIsInTheWay(disk: Disk, inode: nat, needed: nat, c: nat, e0: DiskInode, e2: DiskInode)
    requires WellFormed(disk) && Inaccessible(disk, inode).None? && GrowsTo(disk, inode, needed, c)
    requires e0 == Inodes(disk)[inode - 1] && Rehoused(Inodes(disk), inode, |disk|, e0, needed, e2)
    ensures forall p: nat :: Lost(e0, e2, p) <==> InTheWay(e0, needed, c, p)
  {
    hide Tree, Extents, GoodSuperblock, Decodes, Inodes, FreeRun;
    var t := Inodes(disk);
    if needed > e0.sectorCount {
      assert FreeRun(t, inode, c, needed, |disk|) && FreeRun(t, inode, e2.startSector, needed, |disk|);
      assert e2.startSector == c;
    }
  }

  /**
   Exactly when a successful write does what the RAM filesystem does, in terms of the volume before
   the call: every byte in the way that the write does not overlay was zero.
   */
  lemma WriteAgreesIff(disk: Disk, h: seq<Disk>, inode: nat, offset: nat, data: seq<byte>,
                       d: Disk, h': seq<Disk>, r: Result<nat, VfsError>, c: nat)
    requires WellFormed(disk) && WellFormed(d) && Written(disk, h, inode, offset, data, d, h', r) && r.Ok?
    requires GrowsTo(disk, inode, SectorsFor(offset + |data|), c)
    ensures var e0, e2 := Inodes(disk)[inode - 1], Inodes(d)[inode - 1];
            && InBounds(disk, e0) && InBounds(d, e2)
            && (Contents(d, e2) == RamWrite(Contents(disk, e0), offset, data) <==>
                forall p: nat ::
                  p < e0.len && InTheWay(e0, SectorsFor(offset + |data|), c, p) && !(offset <= p < offset + |data|) ==>
                    Contents(disk, e0)[p] == 0)
  {
    hide Tree, Extents, GoodSuperblock, Decodes, Inodes, Contents, RamWrite, Survivors, CrashSafe, MovesSafely,
         SectorsFor, InBounds, FirstFit, Rehoused;
    var e0, e2 := Inodes(disk)[inode - 1], Inodes(d)[inode - 1];
    LostIsInTheWay(disk, inode, SectorsFor(offset + |data|), c, e0, e2);
    OverlayAgreesIff(disk, e0, e2, offset, data);
  }

  /** The same for a successful truncate: every byte in the way that remains was zero. */
  lemma TruncateAgreesIff(disk: Disk, h: seq<Disk>, inode: nat, len: nat,
                          d: Disk, h': seq<Disk>, r: Result<(), VfsError>, c: nat)
    requires WellFormed(disk) && WellFormed(d) && Truncated(disk, h, inode, len, d, h', r) && r.Ok?
    requires GrowsTo(disk, inode, SectorsFor(len), c)
    ensures var e0, e2 := Inodes(disk)[inode - 1], Inodes(d)[inode - 1];
            && InBounds(disk, e0) && InBounds(d, e2)
            && (Contents(d, e2) == Resize(Contents(disk, e0), len) <==>
                forall p: nat :: p < e0.len && InTheWay(e0, SectorsFor(len), c, p) && p < len ==>
                                   Contents(disk, e0)[p] == 0)
  {
    hide Tree, Extents, GoodSuperblock, Decodes, Inodes, Contents, Resize, Survivors, CrashSafe, MovesSafely,
         SectorsFor, InBounds, FirstFit, Rehoused;
    var e0, e2 := Inodes(disk)[inode - 1], Inodes(d)[inode - 1];
    LostIsInTheWay(disk, inode, SectorsFor(len), c, e0, e2);
    ResizeAgreesIff(disk, e0, e2, len);
  }

  /**
   The condition is about where the file lies: whenever a byte is in the way and not overlaid, there
   is a well-formed volume with the same table on which every successful such write disagrees.
   */
  lemma SomeContentsAreLost(disk: Disk, inode: nat, offset: nat, data: seq<byte>, c: nat, p: nat) returns (lost: Disk)
    requires WellFormed(disk) && Inaccessible(disk, inode).None? && p < Inodes(disk)[inode - 1].len
    requires GrowsTo(disk, inode, SectorsFor(offset + |data|), c) && !(offset <= p < offset + |data|)
    requires InTheWay(Inodes(disk)[inode - 1], SectorsFor(offset + |data|), c, p)
    ensures WellFormed(lost) && |lost| == |disk| && Inodes(lost) == Inodes(disk)
    ensures InBounds(lost, Inodes(disk)[inode - 1])
    ensures forall h, d, h', r :: WellFormed(d) && Written(lost, h, inode, offset, data, d, h', r) && r.Ok? ==>
              InBounds(d, Inodes(d)[inode - 1]) &&
              Contents(d, Inodes(d)[inode - 1]) != RamWrite(Contents(lost, Inodes(disk)[inode - 1]), offset, data)
  {
    hide Tree, Extents, GoodSuperblock, Lookup, Inodes, RamWrite, FirstFit, SectorsFor, Written;
    var e0 := Inodes(disk)[inode - 1];
    FileBasics(disk, inode);
    FileInBounds(disk, inode);
    PositionInBounds(disk, e0, p);
    var i := e0.startSector + p / SECTOR_SIZE;
    lost := disk[i := disk[i][p % SECTOR_SIZE := 1]];
    SameInodes(disk, lost, i, i + 1);
    assert Contents(lost, e0)[p] == 1;
    forall h, d, h', r | WellFormed(d) && Written(lost, h, inode, offset, data, d, h', r) && r.Ok?
      ensures InBounds(d, Inodes(d)[inode - 1])
      ensures Contents(d, Inodes(d)[inode - 1]) != RamWrite(Contents(lost, e0), offset, data)
    {
      WriteAgreesIff(lost, h, inode, offset, data, d, h', r, c);
    }
  }

  // ------------------------------------------------------------ lost contents

  const LETTER_A: seq<byte> := [97]
  const SEVENS: Sector := seq(SECTOR_SIZE, _ => 7)

  /** The record of a one-sector file "a" at the start of the data area. */
  function SmallFile(): DiskInode {
    NewEntry(1, 1, LETTER_A).(len := SECTOR_SIZE, startSector := DATA_START, sectorCount := 1)
  }

  lemma SmallTable()
    ensures Tree(FreshTable()[1 := SmallFile()]) && Extents(FreshTable()[1 := SmallFile()], 20)
    ensures Encodable(SmallFile())
  {
    var t := FreshTable();
    FreshTableIsGood(20);
    assert Create(t, 1, LETTER_A, 1) == (Ok(2), t[1 := NewEntry(1, 1, LETTER_A)]) by {
      assert ValidateName(LETTER_A).None?;
      FindChildFinds(t, 1, LETTER_A, 2);
    }
    assert Utf8(LETTER_A);
    CreateKeepsTree(t, 1, LETTER_A, 1);
    ResizeKeepsTree(t[1 := NewEntry(1, 1, LETTER_A)], 2, SmallFile());
    assert t[1 := NewEntry(1, 1, LETTER_A)][1 := SmallFile()] == t[1 := SmallFile()];
    ReplaceKeepsExtents(t, 2, 20, SmallFile());
  }

  /** A volume of 20 sectors with the one file, full of sevens. */
  lemma SmallVolume() returns (disk: Disk)
    ensures |disk| == 20 && WellFormed(disk) && Inodes(disk) == FreshTable()[1 := SmallFile()]
    ensures disk[DATA_START] == SEVENS
  {
    hide Tree, Extents, GoodSuperblock, Lookup, Store, Encodable, Superblock, SmallFile, FreshTable;
    var blank: Disk := seq(20, _ => ZERO);
    RootCompletes(blank[0 := Superblock(20)]);
    SmallTable();
    SmallFileBasics();
    var d := Store(blank[0 := Superblock(20)], 1, ROOT);
    StoreInodes(d, 2, SmallFile());
    StoreSectors(d, 2, SmallFile());
    var d' := Store(d, 2, SmallFile());
    disk := d'[DATA_START := SEVENS];
    SameInodes(d', disk, DATA_START, DATA_START + 1);
  }

  lemma SmallFileBasics()
    ensures var e := SmallFile();
            && e.kind == 1 && e.nameLen <= MAX_DISK_NAME && e.len == SECTOR_SIZE && e.startSector == DATA_START
            && e.sectorCount == 1
  {
  }

  /**
   Appending one byte to that file succeeds and turns the 512 sevens before it into zeros: the only
   run it can grow into starts where it stands, and is zeroed before it is copied.
   */
  lemma AppendLosesContents() returns (disk: Disk)
    ensures WellFormed(disk) && Inaccessible(disk, 2).None? && InBounds(disk, Inodes(disk)[1])
    ensures Contents(disk, Inodes(disk)[1]) == SEVENS
    ensures forall h, d, h', r :: WellFormed(d) && Written(disk, h, 2, SECTOR_SIZE, [7], d, h', r) ==>
              r == Ok(1) && InBounds(d, Inodes(d)[1]) && Contents(d, Inodes(d)[1]) == Zeros(SECTOR_SIZE) + [7]
  {
    disk := SmallVolume();
    hide Tree, GoodSuperblock, Lookup, CrashSafe, Extents, FreshTable, SmallFile;
    SmallFileBasics();
    FileBasics(disk, 2);
    var e0, t := SmallFile(), Inodes(disk);
    assert Contents(disk, e0) == SEVENS;
    assert FreeRun(t, 2, DATA_START, 2, 20) by { OnlyOneFile(); }
    forall h, d, h', r | WellFormed(d) && Written(disk, h, 2, SECTOR_SIZE, [7], d, h', r)
      ensures r == Ok(1) && InBounds(d, Inodes(d)[1]) && Contents(d, Inodes(d)[1]) == Zeros(SECTOR_SIZE) + [7]
    {
      var e2 := Inodes(d)[1];
      assert r.Ok?;
      assert e2.startSector == DATA_START && e2.sectorCount == 2;
      assert Survivors(disk, e0, e2) == Zeros(SECTOR_SIZE);
    }
  }

  /** So does extending it: a truncate to two sectors leaves nothing of the first. */
  lemma ExtendLosesContents() returns (disk: Disk)
    ensures WellFormed(disk) && Inaccessible(disk, 2).None? && InBounds(disk, Inodes(disk)[1])
    ensures Contents(disk, Inodes(disk)[1]) == SEVENS
    ensures forall h, d, h', r :: WellFormed(d) && Truncated(disk, h, 2, 2 * SECTOR_SIZE, d, h', r) ==>
              r.Ok? && InBounds(d, Inodes(d)[1]) && Contents(d, Inodes(d)[1]) == Zeros(2 * SECTOR_SIZE)
  {
    disk := SmallVolume();
    hide Tree, GoodSuperblock, Lookup, CrashSafe, Extents, FreshTable, SmallFile;
    SmallFileBasics();
    FileBasics(disk, 2);
    var e0, t := SmallFile(), Inodes(disk);
    assert Contents(disk, e0) == SEVENS;
    assert FreeRun(t, 2, DATA_START, 2, 20) by { OnlyOneFile(); }
    forall h, d, h', r | WellFormed(d) && Truncated(disk, h, 2, 2 * SECTOR_SIZE, d, h', r)
      ensures r.Ok? && InBounds(d, Inodes(d)[1]) && Contents(d, Inodes(d)[1]) == Zeros(2 * SECTOR_SIZE)
    {
      var e2 := Inodes(d)[1];
      assert r.Ok?;
      assert e2.startSector == DATA_START && e2.sectorCount == 2;
      assert Survivors(disk, e0, e2) == Zeros(SECTOR_SIZE);
    }
  }

  lemma OnlyOneFile()
    ensures FreeRun(FreshTable()[1 := SmallFile()], 2, DATA_START, 2, 20)
  {
  }

  // -------------------------------------------------- lengths that wrap around

  /** The byte at (s, b) belongs to the superblock, the inode table or the contents of a file. */
  ghost predicate Matters(disk: Disk, s: nat, b: nat)
    requires WellFormed(disk)
  {
    s < DATA_START || exists j :: HoldsByte(Inodes(disk), j, s, b)
  }

  predicate HoldsByte(t: Table, j: nat, s: nat, b: nat) {
    && 2 <= j <= INODE_COUNT && t[j - 1].kind == 1
    && var start := t[j - 1].startSector * SECTOR_SIZE; start <= s * SECTOR_SIZE + b < start + t[j - 1].len
  }

  /** `d` has the same superblock and inode table as `disk`, and the same bytes in every file. */
  ghost predicate Intact(disk: Disk, d: Disk)
    requires WellFormed(disk)
  {
    && |d| == |disk| && (forall s :: 0 <= s < DATA_START ==> d[s] == disk[s])
    && forall j :: SameFile(disk, d, j)
  }

  ghost predicate SameFile(disk: Disk, d: Disk, j: nat)
    requires WellFormed(disk)
  {
    2 <= j <= INODE_COUNT && Inodes(disk)[j - 1].kind == 1 ==>
      var e := Inodes(disk)[j - 1];
      InBounds(disk, e) && InBounds(d, e) && Contents(d, e) == Contents(disk, e)
  }

  lemma IntactIsWellFormed(disk: Disk, d: Disk)
    requires WellFormed(disk) && Intact(disk, d)
    ensures WellFormed(d) && Inodes(d) == Inodes(disk)
  {
    hide Tree, Extents, Lookup, Contents;
    SameInodes(disk, d, DATA_START, |disk|);
  }

  lemma BytePosition(start: nat, p: nat)
    ensures (start + p / SECTOR_SIZE) * SECTOR_SIZE + p % SECTOR_SIZE == start * SECTOR_SIZE + p
  {
  }

  lemma SectorPosition(start: nat, s: nat, b: nat)
    requires b < SECTOR_SIZE && start * SECTOR_SIZE <= s * SECTOR_SIZE + b
    ensures start <= s && var p := (s - start) * SECTOR_SIZE + b;
              p == s * SECTOR_SIZE + b - start * SECTOR_SIZE && p / SECTOR_SIZE == s - start && p % SECTOR_SIZE == b
  {
  }

  ghost predicate HarmlessAt(disk: Disk, from: nat, s: nat, b: nat)
    requires WellFormed(disk)
  {
    s < |disk| && b < SECTOR_SIZE && from <= s * SECTOR_SIZE + b && Matters(disk, s, b) ==> disk[s][b] == 0
  }

  ghost predicate Harmless(disk: Disk, from: nat)
    requires WellFormed(disk)
  {
    forall s: nat, b: nat :: HarmlessAt(disk, from, s, b)
  }

  /**
   Exactly when a call that wraps around does no harm: every byte behind the file that belongs to
   the table or to a file's contents was zero already.
   */
  lemma WipeHarmlessIff(disk: Disk, inode: nat, d: Disk)
    requires WellFormed(disk) && Inaccessible(disk, inode).None? && WipedAfter(disk, inode, d)
    ensures var e := Inodes(disk)[inode - 1];
            Intact(disk, d) <==> Harmless(disk, e.startSector * SECTOR_SIZE + e.len)
  {
    hide Tree, Extents, GoodSuperblock, Lookup, Inodes;
    var e := Inodes(disk)[inode - 1];
    var from := e.startSector * SECTOR_SIZE + e.len;
    if Intact(disk, d) {
      forall s: nat, b: nat
        ensures HarmlessAt(disk, from, s, b)
      {
        IntactIsHarmless(disk, d, from, s, b);
      }
    }
    if Harmless(disk, from) {
      forall s | 0 <= s < DATA_START
        ensures d[s] == disk[s]
      {
        forall b: nat | b < SECTOR_SIZE
          ensures d[s][b] == disk[s][b]
        {
          assert HarmlessAt(disk, from, s, b);
        }
      }
      forall j: nat
        ensures SameFile(disk, d, j)
      {
        HarmlessIsSame(disk, d, from, j);
      }
    }
  }

  lemma IntactIsHarmless(disk: Disk, d: Disk, from: nat, s: nat, b: nat)
    requires WellFormed(disk) && Intact(disk, d) && Cleared(disk, d, from, |disk| * SECTOR_SIZE)
    ensures HarmlessAt(disk, from, s, b)
  {
    hide Tree, Extents, GoodSuperblock, Lookup, Inodes;
    if s < |disk| && b < SECTOR_SIZE && from <= s * SECTOR_SIZE + b && Matters(disk, s, b) {
      assert d[s][b] == 0;
      if s >= DATA_START {
        var j :| HoldsByte(Inodes(disk), j, s, b);
        var e := Inodes(disk)[j - 1];
        assert SameFile(disk, d, j);
        SectorPosition(e.startSector, s, b);
        var p := (s - e.startSector) * SECTOR_SIZE + b;
        assert Contents(d, e)[p] == Contents(disk, e)[p];
        assert ByteAt(d, e.startSector, p) == d[s][b] && ByteAt(disk, e.startSector, p) == disk[s][b];
      }
    }
  }

  lemma HarmlessIsSame(disk: Disk, d: Disk, from: nat, j: nat)
    requires WellFormed(disk) && Cleared(disk, d, from, |disk| * SECTOR_SIZE)
    requires Harmless(disk, from)
    ensures SameFile(disk, d, j)
  {
    hide Tree, Extents, GoodSuperblock, Lookup, Inodes, Matters;
    if 2 <= j <= INODE_COUNT && Inodes(disk)[j - 1].kind == 1 {
      var e := Inodes(disk)[j - 1];
      FileInBounds(disk, j);
      forall p | 0 <= p < e.len
        ensures Contents(d, e)[p] == Contents(disk, e)[p]
      {
        PositionInBounds(disk, e, p);
        BytePosition(e.startSector, p);
        var s, b := e.startSector + p / SECTOR_SIZE, p % SECTOR_SIZE;
        ContentsMatter(disk, j, s, b);
        assert HarmlessAt(disk, from, s, b) && d[s][b] == disk[s][b];
      }
    }
  }

  lemma ContentsMatter(disk: Disk, j: nat, s: nat, b: nat)
    requires WellFormed(disk) && HoldsByte(Inodes(disk), j, s, b)
    ensures Matters(disk, s, b)
  {
    hide Tree, Extents, GoodSuperblock, Lookup, Inodes;
  }

  /** On a file that never had an extent, the call erases the whole volume, and the next mount formats it. */
  lemma WipeErasesVolume(disk: Disk, inode: nat, d: Disk)
    requires WellFormed(disk) && Inaccessible(disk, inode).None? && WipedAfter(disk, inode, d)
    requires Inodes(disk)[inode - 1].startSector == 0 && Inodes(disk)[inode - 1].len == 0
    ensures (forall s :: 0 <= s < |d| ==> d[s] == ZERO) && Verdict(d, true) == Ok(true) && !Intact(disk, d)
  {
    hide Tree, Extents, Lookup, Inodes;
    forall s: nat | s < |d|
      ensures d[s] == ZERO
    {
      assert forall b: nat :: b < SECTOR_SIZE ==> d[s][b] == 0;
    }
    assert ZERO[..8][0] != MAGIC[0];
  }
}

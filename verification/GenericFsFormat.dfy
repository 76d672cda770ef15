/** Formatting a GenericFS volume and the verdict of mounting one. */
module GenericFsFormat {
  import opened Wrappers
  import opened VfsErrors
  import opened LittleEndian
  import opened GenericFsDisk
  import opened GenericFsTree
  import opened GenericFsExtents
  import opened GenericFsVolume

  /** The superblock `format` writes. */
  function Superblock(sectors: nat): Sector {
    MAGIC + Encode(VERSION, 4) + Encode(INODE_COUNT, 4) + Encode(DATA_START, 8) + Encode(sectors, 8) + Zeros(480)
  }

  /** The table of a new volume: the root directory and nothing else. */
  function FreshTable(): Table {
    [ROOT] + seq(INODE_COUNT - 1, _ => EMPTY)
  }

  predicate HasMagic(disk: Disk)
    requires |disk| > 0
  {
    disk[0][..8] == MAGIC
  }

  /** What `mount` answers: Ok(true) if it formats, Ok(false) if it takes the volume as it is. */
  function Verdict(disk: Disk, formatIfMissing: bool): Result<bool, VfsError> {
    if |disk| <= DATA_START + 1 then Err(NoSpace)
    else if HasMagic(disk) then
      if !GoodSuperblock(disk) then Err(CorruptFilesystem)
      else
        var root := Lookup(disk, 1);
        if root.Err? then Err(root.error) else if root.value.kind != 2 then Err(CorruptFilesystem) else Ok(false)
    else if formatIfMissing then Ok(true)
    else Err(CorruptFilesystem)
  }

  /** A well-formed volume mounts as it is, whatever the flag. */
  lemma WellFormedMounts(disk: Disk, formatIfMissing: bool)
    requires WellFormed(disk)
    ensures Verdict(disk, formatIfMissing) == Ok(false)
  {
    assert Inodes(disk)[0].kind == 2;
  }

  /** `d` is `disk` after `format`: a root directory over the data sectors as they were. */
  ghost predicate Formatted(disk: Disk, d: Disk) {
    && |d| == |disk| && DATA_START + 1 < |d|
    && (forall s :: DATA_START <= s < |disk| ==> d[s] == disk[s])
    && (|d| < U32 ==> WellFormed(d) && Inodes(d) == FreshTable())
    && forall flag :: Verdict(d, flag) == Ok(false)
  }

  /** The table area is blank from sector `from` to sector `to`. */
  ghost predicate Blank(disk: Disk, from: nat, to: nat) {
    to <= |disk| && forall s :: from <= s < to ==> disk[s] == ZERO
  }

  lemma ZerosDecode(n: nat)
    ensures Decode(Zeros(n)) == 0
  {
    if n > 0 {
      ZerosDecode(n - 1);
      assert Zeros(n)[1..] == Zeros(n - 1);
    }
  }

  lemma BlankSlot()
    ensures DecodeInode(Zeros(INODE_SIZE)) == Ok(EMPTY)
  {
    hide Decode;
    ZerosDecode(8);
    ZerosDecode(4);
    var raw := Zeros(INODE_SIZE);
    assert raw[4..12] == Zeros(8) && raw[12..20] == Zeros(8) && raw[20..28] == Zeros(8) && raw[28..32] == Zeros(4);
    assert raw[32..96] == Zeros(64);
  }

  lemma BlankLookup(disk: Disk, inode: nat)
    requires Blank(disk, INODE_TABLE_START, DATA_START) && 1 <= inode <= INODE_COUNT
    ensures Lookup(disk, inode) == Ok(EMPTY)
  {
    hide DecodeInode;
    BlankSlot();
    assert SlotBytes(disk, inode) == Zeros(INODE_SIZE);
  }

  /** Five fields and a tail, each found where it was put. */
  lemma FiveFields(m: seq<byte>, a: seq<byte>, b: seq<byte>, c: seq<byte>, e: seq<byte>, tail: seq<byte>, s: seq<byte>)
    requires |m| == 8 && |a| == |b| == 4 && |c| == |e| == 8 && s == m + a + b + c + e + tail
    ensures s[..8] == m && s[8..12] == a && s[12..16] == b && s[16..24] == c && s[24..32] == e
  {
  }

  lemma SuperblockIsGood(disk: Disk)
    requires 0 < |disk| < U64 && disk[0] == Superblock(|disk|)
    ensures GoodSuperblock(disk)
  {
    hide Encode, Decode, Pow256;
    Widths();
    FiveFields(MAGIC, Encode(VERSION, 4), Encode(INODE_COUNT, 4), Encode(DATA_START, 8), Encode(|disk|, 8), Zeros(480),
               disk[0]);
    RoundTrip(VERSION, 4);
    RoundTrip(INODE_COUNT, 4);
    RoundTrip(DATA_START, 8);
    RoundTrip(|disk|, 8);
  }

  /** The fields `mount` insists on are those `format` writes, byte for byte. */
  lemma GoodSuperblockIff(disk: Disk)
    requires 0 < |disk| < U64
    ensures GoodSuperblock(disk) <==> disk[0][..32] == Superblock(|disk|)[..32]
  {
    hide Encode, Decode, Pow256;
    var want: Sector := Superblock(|disk|);
    var d := disk[0 := want];
    SuperblockIsGood(d);
    if disk[0][..32] == want[..32] {
      SameHead(disk[0], want);
    }
    if GoodSuperblock(disk) {
      FieldsDecide(disk[0], want);
    }
  }

  lemma SameHead(a: Sector, b: Sector)
    requires a[..32] == b[..32]
    ensures a[..8] == b[..8] && a[8..12] == b[8..12] && a[12..16] == b[12..16]
    ensures a[16..24] == b[16..24] && a[24..32] == b[24..32]
  {
    assert forall i :: 0 <= i < 32 ==> a[i] == a[..32][i] && b[i] == b[..32][i];
  }

  lemma FieldsDecide(a: Sector, b: Sector)
    requires a[..8] == b[..8] && Decode(a[8..12]) == Decode(b[8..12]) && Decode(a[12..16]) == Decode(b[12..16])
    requires Decode(a[16..24]) == Decode(b[16..24]) && Decode(a[24..32]) == Decode(b[24..32])
    ensures a[..32] == b[..32]
  {
    hide Decode, Encode;
    SameNumber(a[8..12], b[8..12]);
    SameNumber(a[12..16], b[12..16]);
    SameNumber(a[16..24], b[16..24]);
    SameNumber(a[24..32], b[24..32]);
    assert a[..32] == a[..8] + a[8..12] + a[12..16] + a[16..24] + a[24..32];
    assert b[..32] == b[..8] + b[8..12] + b[12..16] + b[16..24] + b[24..32];
  }

  lemma SameNumber(a: seq<byte>, b: seq<byte>)
    requires |a| == |b| && Decode(a) == Decode(b)
    ensures a == b
  {
    DecodeInjective(a);
    DecodeInjective(b);
  }

  lemma LookupErrors(disk: Disk, inode: nat)
    requires DATA_START <= |disk|
    ensures Lookup(disk, inode).Err? ==> Lookup(disk, inode).error != NoSpace
  {
  }

  /** A volume is taken as it is exactly if it starts as a formatted one does and its root is a directory. */
  lemma MountsIff(disk: Disk, formatIfMissing: bool)
    requires |disk| < U64
    ensures Verdict(disk, formatIfMissing) == Ok(false) <==>
            && DATA_START + 1 < |disk| && disk[0][..32] == Superblock(|disk|)[..32]
            && Lookup(disk, 1).Ok? && Lookup(disk, 1).value.kind == 2
    ensures Verdict(disk, formatIfMissing) == Ok(true) <==>
            DATA_START + 1 < |disk| && disk[0][..8] != MAGIC && formatIfMissing
    ensures Verdict(disk, formatIfMissing) == Err(NoSpace) ==> |disk| <= 18
    ensures |disk| <= 18 ==> Verdict(disk, formatIfMissing) == Err(NoSpace)
  {
    hide Lookup, Superblock;
    if |disk| > 0 {
      GoodSuperblockIff(disk);
    }
    if DATA_START <= |disk| {
      LookupErrors(disk, 1);
    }
  }

  lemma FreshTableIsGood(sectors: nat)
    ensures Tree(FreshTable()) && Extents(FreshTable(), sectors)
  {
    assert forall i :: !Live(FreshTable(), i);
    assert forall i :: Housed(FreshTable(), i, sectors);
  }

  lemma RootIsEncodable()
    ensures Encodable(ROOT) && ROOT.kind == 2 && ROOT.nameLen <= MAX_DISK_NAME
  {
  }

  /** The last write of `format`: the root inode, over a blank table and a good superblock. */
  lemma RootCompletes(disk: Disk)
    requires DATA_START + 1 < |disk| < U64 && disk[0] == Superblock(|disk|)
    requires Blank(disk, INODE_TABLE_START, DATA_START)
    ensures Encodable(ROOT) && Formatted(disk, Store(disk, 1, ROOT))
  {
    hide Lookup, Superblock, Encodable, Store, Tree, Extents, Blank;
    RootIsEncodable();
    SuperblockIsGood(disk);
    forall i: nat | 1 <= i <= INODE_COUNT
      ensures Lookup(disk, i) == Ok(EMPTY)
    {
      BlankLookup(disk, i);
    }
    var d := Store(disk, 1, ROOT);
    StoreSectors(disk, 1, ROOT);
    StoreLookup(disk, 1, ROOT, 1);
    if |disk| < U32 {
      StoreInodes(disk, 1, ROOT);
      FreshTableIsGood(|disk|);
      assert Inodes(d) == FreshTable();
    }
  }

  /**
   A crash inside `format` leaves a volume that still has no magic and would be formatted again,
   except between its last two writes: there the superblock is good and the root is missing, and
   every later mount is refused.
   */
  ghost predicate FormatCrashes(disk: Disk, history: seq<Disk>, d: Disk, history': seq<Disk>) {
    && |history'| == |history| + DATA_START + 2 && history <= history' && history'[|history'| - 1] == d
    && (forall k :: |history| <= k < |history'| - 2 ==> Verdict(history'[k], true) == Ok(true))
    && Verdict(history'[|history'| - 2], true) == Err(CorruptFilesystem)
    && Verdict(history'[|history'| - 2], false) == Err(CorruptFilesystem)
  }

  /** The sector writes of `format` before the superblock: `s` zeroed sectors and no magic anywhere. */
  ghost predicate Blanking(disk: Disk, history: seq<Disk>, s: nat, d: Disk, history': seq<Disk>) {
    && |d| == |disk| && |history'| == |history| + s && history <= history'
    && Blank(d, 0, s) && (forall i :: s <= i < |disk| ==> d[i] == disk[i])
    && forall k :: |history| <= k < |history'| ==> Verdict(history'[k], true) == Ok(true)
  }

  lemma BlankMore(disk: Disk, history: seq<Disk>, s: nat, d: Disk, history': seq<Disk>)
    requires Blanking(disk, history, s, d, history') && s < DATA_START && DATA_START + 1 < |disk| && !HasMagic(disk)
    ensures Blanking(disk, history, s + 1, d[s := ZERO], history' + [d[s := ZERO]])
  {
    hide Lookup, GoodSuperblock;
    assert d[s := ZERO][0] == ZERO;
    assert ZERO[..8][0] != MAGIC[0];
  }

  lemma FormatEnds(disk: Disk, history: seq<Disk>, d: Disk, history': seq<Disk>)
    requires Blanking(disk, history, DATA_START, d, history') && DATA_START + 1 < |disk| < U64
    ensures Encodable(ROOT)
    ensures var d1 := d[0 := Superblock(|disk|)];
            var d2 := Store(d1, 1, ROOT);
            Formatted(disk, d2) && FormatCrashes(disk, history, d2, history' + [d1] + [d2])
  {
    hide Lookup, GoodSuperblock, Superblock, Store, Encodable, WellFormed, Verdict;
    var d1 := d[0 := Superblock(|disk|)];
    RootCompletes(d1);
    RootlessIsRefused(d1, true);
    RootlessIsRefused(d1, false);
  }

  lemma RootlessIsRefused(disk: Disk, flag: bool)
    requires DATA_START + 1 < |disk| < U64 && disk[0] == Superblock(|disk|)
    requires Blank(disk, INODE_TABLE_START, DATA_START)
    ensures Verdict(disk, flag) == Err(CorruptFilesystem)
  {
    hide Lookup, Superblock, Blank;
    SuperblockIsGood(disk);
    BlankLookup(disk, 1);
  }
}

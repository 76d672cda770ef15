/** The on-disk layout of GenericFS: sectors, the inode codec and the inode table. */
module GenericFsDisk {
  import opened Wrappers
  import opened VfsErrors
  import opened LittleEndian

  const SECTOR_SIZE: nat := 512
  const INODE_COUNT: nat := 64
  const INODE_SIZE: nat := 128
  const INODES_PER_SECTOR: nat := 4
  const INODE_TABLE_START: nat := 1
  const DATA_START: nat := 17
  const MAX_DISK_NAME: nat := 63
  const U64: nat := 0x1_0000_0000_0000_0000
  const U32: nat := 0x1_0000_0000

  type Sector = s: seq<byte> | |s| == SECTOR_SIZE witness seq(SECTOR_SIZE, _ => 0)
  type Disk = seq<Sector>

  const ZERO: Sector := Zeros(SECTOR_SIZE)

  datatype DiskInode = DiskInode(
    kind: nat, nameLen: nat, parent: nat, len: nat, startSector: nat, sectorCount: nat, name: seq<byte>)

  const EMPTY: DiskInode := DiskInode(0, 0, 0, 0, 0, 0, Zeros(64))
  const ROOT: DiskInode := EMPTY.(kind := 2, parent := 1)

  /** The field widths of the record on disk. */
  predicate Encodable(e: DiskInode) {
    && e.kind < 256 && e.nameLen < 256 && |e.name| == 64
    && e.parent < U64 && e.len < U64 && e.startSector < U64 && e.sectorCount < U32
  }

  function EncodeInode(e: DiskInode): (raw: seq<byte>)
    requires Encodable(e)
    ensures |raw| == INODE_SIZE
  {
    var head: seq<byte> := [e.kind, 0, e.nameLen, 0];
    head + Encode(e.parent, 8) + Encode(e.len, 8) + Encode(e.startSector, 8) + Encode(e.sectorCount, 4) +
    e.name + Zeros(32)
  }

  function DecodeInode(raw: seq<byte>): Result<DiskInode, VfsError>
    requires |raw| == INODE_SIZE
  {
    var e := DiskInode(raw[0], raw[2], Decode(raw[4..12]), Decode(raw[12..20]), Decode(raw[20..28]),
                       Decode(raw[28..32]), raw[32..96]);
    if e.nameLen > MAX_DISK_NAME || e.kind > 2 then Err(CorruptFilesystem) else Ok(e)
  }

  /** Fields one behind the other, each found where it was put. */
  lemma SixFields(head: seq<byte>, a: seq<byte>, b: seq<byte>, c: seq<byte>, d: seq<byte>, name: seq<byte>,
                  tail: seq<byte>, raw: seq<byte>)
    requires |head| == 4 && |a| == |b| == |c| == 8 && |d| == 4 && |name| == 64
    requires raw == head + a + b + c + d + name + tail
    ensures raw[..4] == head && raw[4..12] == a && raw[12..20] == b && raw[20..28] == c && raw[28..32] == d
    ensures raw[32..96] == name
  {
  }

  lemma EncodedFields(e: DiskInode)
    requires Encodable(e)
    ensures var raw := EncodeInode(e);
            && raw[0] == e.kind && raw[2] == e.nameLen
            && raw[4..12] == Encode(e.parent, 8) && raw[12..20] == Encode(e.len, 8)
            && raw[20..28] == Encode(e.startSector, 8) && raw[28..32] == Encode(e.sectorCount, 4)
            && raw[32..96] == e.name
  {
    hide Encode;
    SixFields([e.kind, 0, e.nameLen, 0], Encode(e.parent, 8), Encode(e.len, 8), Encode(e.startSector, 8),
              Encode(e.sectorCount, 4), e.name, Zeros(32), EncodeInode(e));
  }

  /** What is written to an inode slot is what is read from it. */
  lemma InodeRoundTrip(e: DiskInode)
    requires Encodable(e) && e.kind <= 2 && e.nameLen <= MAX_DISK_NAME
    ensures DecodeInode(EncodeInode(e)) == Ok(e)
  {
    hide EncodeInode, Encode, Decode, Pow256;
    EncodedFields(e);
    Widths();
    RoundTrip(e.parent, 8);
    RoundTrip(e.len, 8);
    RoundTrip(e.startSector, 8);
    RoundTrip(e.sectorCount, 4);
  }

  /** Every record that decodes fits the field widths. */
  lemma DecodedIsEncodable(raw: seq<byte>)
    requires |raw| == INODE_SIZE && DecodeInode(raw).Ok?
    ensures Encodable(DecodeInode(raw).value) && DecodeInode(raw).value.kind <= 2
    ensures DecodeInode(raw).value.nameLen <= MAX_DISK_NAME
  {
    hide Decode, Pow256;
    Widths();
    DecodeBound(raw[4..12]);
    DecodeBound(raw[12..20]);
    DecodeBound(raw[20..28]);
    DecodeBound(raw[28..32]);
  }

  // ---------------------------------------------------------- the inode table

  function TableSector(inode: nat): nat
    requires 1 <= inode <= INODE_COUNT
  {
    INODE_TABLE_START + (inode - 1) / INODES_PER_SECTOR
  }

  function SlotOffset(inode: nat): nat
    requires 1 <= inode <= INODE_COUNT
  {
    (inode - 1) % INODES_PER_SECTOR * INODE_SIZE
  }

  /** Records stand one behind the other from byte 512 of the device on. */
  lemma SlotPosition(inode: nat)
    requires 1 <= inode <= INODE_COUNT
    ensures TableSector(inode) * SECTOR_SIZE + SlotOffset(inode) == 512 + 128 * (inode - 1)
    ensures SlotOffset(inode) + INODE_SIZE <= SECTOR_SIZE
  {
  }

  function SlotBytes(disk: Disk, inode: nat): (raw: seq<byte>)
    requires 1 <= inode <= INODE_COUNT && DATA_START <= |disk|
    ensures |raw| == INODE_SIZE
  {
    disk[TableSector(inode)][SlotOffset(inode)..SlotOffset(inode) + INODE_SIZE]
  }

  /** `read_inode`. */
  function Lookup(disk: Disk, inode: nat): Result<DiskInode, VfsError>
    requires DATA_START <= |disk|
  {
    if 1 <= inode <= INODE_COUNT then DecodeInode(SlotBytes(disk, inode)) else Err(NotFound)
  }

  function Splice(sector: Sector, offset: nat, raw: seq<byte>): Sector
    requires offset + |raw| <= SECTOR_SIZE
  {
    sector[..offset] + raw + sector[offset + |raw|..]
  }

  /** `write_inode`: one sector of the table, read, patched and written back. */
  function Store(disk: Disk, inode: nat, e: DiskInode): Disk
    requires 1 <= inode <= INODE_COUNT && DATA_START <= |disk| && Encodable(e)
  {
    disk[TableSector(inode) := Splice(disk[TableSector(inode)], SlotOffset(inode), EncodeInode(e))]
  }

  lemma SliceOfSplice(sector: Sector, offset: nat, raw: seq<byte>, at: nat, n: nat)
    requires offset + |raw| <= SECTOR_SIZE && at + n <= SECTOR_SIZE
    ensures at == offset && n == |raw| ==> Splice(sector, offset, raw)[at..at + n] == raw
    ensures at + n <= offset || offset + |raw| <= at ==> Splice(sector, offset, raw)[at..at + n] == sector[at..at + n]
  {
  }

  /** Storing an inode changes that inode and no other. */
  lemma StoreLookup(disk: Disk, inode: nat, e: DiskInode, other: nat)
    requires 1 <= inode <= INODE_COUNT && DATA_START <= |disk| && Encodable(e)
    requires e.kind <= 2 && e.nameLen <= MAX_DISK_NAME
    ensures Lookup(Store(disk, inode, e), other) == if other == inode then Ok(e) else Lookup(disk, other)
  {
    hide EncodeInode, DecodeInode, Encodable, Splice;
    if 1 <= other <= INODE_COUNT {
      var s := TableSector(inode);
      var raw := EncodeInode(e);
      if other == inode {
        SliceOfSplice(disk[s], SlotOffset(inode), raw, SlotOffset(inode), INODE_SIZE);
        InodeRoundTrip(e);
      } else if TableSector(other) == s {
        SliceOfSplice(disk[s], SlotOffset(inode), raw, SlotOffset(other), INODE_SIZE);
      }
    }
  }
}

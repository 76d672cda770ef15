/**
 The GenericFS operations over a sector device.  There is no in-memory state: every
 operation reads the inode table from the device and writes single sectors back.
 */
module GenericFs {
  import opened Wrappers
  import opened Units
  import opened VfsErrors
  import opened LittleEndian
  import opened GenericFsDisk
  import opened GenericFsTree
  import opened GenericFsExtents
  import opened GenericFsVolume
  import opened GenericFsFormat

  // ------------------------------------------------------------ write histories

  /** From `disk` to `d`, with the given histories, only sectors [lo, hi) were written. */
  ghost predicate Phase(disk: Disk, history: seq<Disk>, d: Disk, history': seq<Disk>, lo: nat, hi: nat) {
    && Differ(disk, d, lo, hi) && history <= history'
    && (|history'| == |history| ==> d == disk)
    && (|history'| > |history| ==> history'[|history'| - 1] == d)
    && forall k :: |history| <= k < |history'| ==> Differ(disk, history'[k], lo, hi)
  }

  lemma PhaseJoin(disk: Disk, h: seq<Disk>, d: Disk, h': seq<Disk>, d': Disk, h'': seq<Disk>, lo: nat, hi: nat)
    requires Phase(disk, h, d, h', lo, hi) && Phase(d, h', d', h'', lo, hi)
    ensures Phase(disk, h, d', h'', lo, hi)
  {
    forall k | |h| <= k < |h''|
      ensures Differ(disk, h''[k], lo, hi)
    {
      if k < |h'| {
        assert h''[k] == h'[k];
      }
    }
  }

  lemma PhaseWrite(disk: Disk, h: seq<Disk>, s: nat, sector: Sector, lo: nat, hi: nat)
    requires lo <= s < hi && s < |disk|
    ensures Phase(disk, h, disk[s := sector], h + [disk[s := sector]], lo, hi)
  {
  }

  /**
   At every prefix of an operation's sector writes the volume is well formed and shows
   the old inode table, until the last write, which shows the new one; and no prefix
   disturbs any file but `inode`.
   */
  ghost predicate CrashSafe(disk: Disk, history: seq<Disk>, d: Disk, history': seq<Disk>, inode: nat)
    requires WellFormed(disk) && WellFormed(d)
  {
    && history <= history'
    && (|history'| == |history| ==> d == disk)
    && (|history'| > |history| ==> history'[|history'| - 1] == d)
    && (forall k :: |history| <= k < |history'| - 1 ==> Shows(disk, history'[k], inode, Inodes(disk)))
    && Shows(disk, d, inode, Inodes(d))
  }

  /** Until its last write, the operation leaves every byte of file `inode` as it was. */
  ghost predicate OldBytesShow(disk: Disk, history: seq<Disk>, history': seq<Disk>, inode: nat)
    requires WellFormed(disk) && 1 <= inode <= INODE_COUNT && InBounds(disk, Inodes(disk)[inode - 1])
  {
    var e0 := Inodes(disk)[inode - 1];
    forall k :: |history| <= k < |history'| - 1 ==>
                  InBounds(history'[k], e0) && Contents(history'[k], e0) == Contents(disk, e0)
  }

  /** A file that moves clear of its old extent shows its old bytes in every crash state before the last. */
  ghost predicate MovesSafely(disk: Disk, history: seq<Disk>, history': seq<Disk>, inode: nat, e2: DiskInode)
    requires WellFormed(disk) && 1 <= inode <= INODE_COUNT && InBounds(disk, Inodes(disk)[inode - 1])
  {
    Apart(Inodes(disk)[inode - 1], e2.startSector, e2.startSector + e2.sectorCount) ==>
      OldBytesShow(disk, history, history', inode)
  }

  class GenericFs {
    var disk: Disk
    ghost var history: seq<Disk>  // the device after each sector write

    ghost predicate Valid()
      reads this
    {
      WellFormed(disk)
    }

    method WriteSector(s: nat, sector: Sector)
      requires s < |disk|
      modifies this
      ensures disk == old(disk)[s := sector] && history == old(history) + [disk]
    {
      disk := disk[s := sector];
      history := history + [disk];
    }

    /** `mount`, on a device of any contents. */
    method Mount(formatIfMissing: bool) returns (r: Result<bool, VfsError>)
      requires |disk| < U64
      modifies this
      ensures r == Verdict(old(disk), formatIfMissing)
      ensures if r == Ok(true) then Formatted(old(disk), disk) && FormatCrashes(old(disk), old(history), disk, history)
              else Untouched(old(disk), old(history), disk, history)
    {
      if |disk| <= DATA_START + 1 {
        r := Err(NoSpace);
      } else if HasMagic(disk) {
        if !GoodSuperblock(disk) {
          r := Err(CorruptFilesystem);
        } else {
          var root := Lookup(disk, 1);
          if root.Err? {
            r := Err(root.error);
          } else {
            r := if root.value.kind != 2 then Err(CorruptFilesystem) else Ok(false);
          }
        }
      } else if !formatIfMissing {
        r := Err(CorruptFilesystem);
      } else {
        Format();
        r := Ok(true);
      }
    }

    method Format()
      requires DATA_START + 1 < |disk| < U64 && !HasMagic(disk)
      modifies this
      ensures Formatted(old(disk), disk) && FormatCrashes(old(disk), old(history), disk, history)
    {
      hide Formatted, FormatCrashes, Verdict, HasMagic, Encodable, Superblock;
      ghost var d0, h0 := disk, history;
      var sector := 0;
      while sector < DATA_START
        invariant sector <= DATA_START && Blanking(d0, h0, sector, disk, history)
      {
        BlankMore(d0, h0, sector, disk, history);
        WriteSector(sector, ZERO);
        sector := sector + 1;
      }
      FormatEnds(d0, h0, disk, history);
      WriteSector(0, Superblock(|disk|));
      WriteInode(1, ROOT);
    }

    method WriteInode(inode: nat, e: DiskInode)
      requires 1 <= inode <= INODE_COUNT && DATA_START <= |disk| && Encodable(e)
      modifies this
      ensures disk == Store(old(disk), inode, e) && history == old(history) + [disk]
    {
      var s := TableSector(inode);
      WriteSector(s, Splice(disk[s], SlotOffset(inode), EncodeInode(e)));
    }

    /** The read-modify-write loop: `data` goes to position `from` of the run of `cap` sectors at `start`. */
    method Overlay(start: nat, cap: nat, from: nat, data: seq<byte>)
      requires start + cap <= |disk| && from + |data| <= cap * SECTOR_SIZE
      modifies this
      ensures Overlaid(old(disk), disk, start, cap, from, data)
      ensures Phase(old(disk), old(history), disk, history, start, start + cap)
    {
      hide Overlaid, Phase;
      ghost var d0, h0 := disk, history;
      var done := 0;
      assert data[..done] == [];
      OverlayNothing(disk, history, start, cap, from);
      while done < |data|
        invariant done <= |data| && |disk| == |d0|
        invariant Overlaid(d0, disk, start, cap, from, data[..done])
        invariant Phase(d0, h0, disk, history, start, start + cap)
      {
        var position := from + done;
        var within := position % SECTOR_SIZE;
        var room := SECTOR_SIZE - within;
        var count := if room < |data| - done then room else |data| - done;
        var chunk := data[done..done + count];
        var s := start + position / SECTOR_SIZE;
        ghost var d1, h1 := disk, history;
        PatchOverlays(disk, start, cap, position, chunk);
        PhaseWrite(disk, history, s, Splice(disk[s], within, chunk), start, start + cap);
        WriteSector(s, Splice(disk[s], within, chunk));
        OverlayMore(d0, d1, disk, start, cap, from, data[..done], chunk);
        PhaseJoin(d0, h0, d1, h1, disk, history, start, start + cap);
        assert data[..done] + chunk == data[..done + count];
        done := done + count;
      }
      assert data[..done] == data;
    }

    /** `ensure_capacity`: moves a file that has to grow to the first run that fits it. */
    method EnsureCapacity(inode: nat, entry: DiskInode, needed: nat) returns (r: Result<DiskInode, VfsError>)
      requires Valid() && 2 <= inode <= INODE_COUNT && entry.kind == 1 && entry == Inodes(disk)[inode - 1]
      modifies this
      ensures r.Err? ==>
                && r.error == NoSpace && disk == old(disk) && history == old(history)
                && Inaccessible(disk, inode).None? && NoRoom(disk, inode, needed)
      ensures r.Ok? ==>
                && Grown(Inodes(old(disk)), inode, old(disk), entry, needed, disk, r.value)
                && Phase(old(disk), old(history), disk, history,
                         r.value.startSector, r.value.startSector + r.value.sectorCount)
    {
      if needed <= entry.sectorCount {
        r := Ok(entry);
      } else {
        var found := FindExtent(Inodes(disk), |disk|, needed, inode);
        if found.Ok? {
          Relocate(Inodes(disk), inode, entry, needed, found.value);
          r := Ok(entry.(startSector := found.value, sectorCount := needed));
        } else {
          r := Err(found.error);
        }
      }
    }

    /** Zeroes the new extent, then copies the old one into it, sector by sector. */
    method Relocate(ghost t: Table, inode: nat, entry: DiskInode, needed: nat, newStart: nat)
      requires Extents(t, |disk|) && 2 <= inode <= INODE_COUNT && entry.kind == 1 && entry == t[inode - 1]
      requires needed > entry.sectorCount && FirstFit(t, inode, needed, |disk|, Ok(newStart))
      modifies this
      ensures Grown(t, inode, old(disk), entry, needed, disk, entry.(startSector := newStart, sectorCount := needed))
      ensures Phase(old(disk), old(history), disk, history, newStart, newStart + needed)
    {
      hide *;
      RelocateBounds(t, inode, |disk|, entry, needed, newStart);
      ghost var d0, h0 := disk, history;
      ghost var e1 := entry.(startSector := newStart, sectorCount := needed);
      ZeroRun(newStart, needed);
      ghost var d1, h1 := disk, history;
      ZeroedIsCopied(d0, d1, entry, e1);
      var s := 0;
      PhaseNothing(disk, history, newStart, newStart + needed);
      while s < entry.sectorCount
        invariant s <= entry.sectorCount && |disk| == |d0| && CopiedTo(d0, disk, entry, e1, s)
        invariant Phase(d1, h1, disk, history, newStart, newStart + needed)
      {
        ghost var d2, h2 := disk, history;
        CopyStep(t, inode, d0, disk, entry, e1, s);
        var sector := disk[entry.startSector + s];
        PhaseWrite(disk, history, newStart + s, sector, newStart, newStart + needed);
        WriteSector(newStart + s, sector);
        PhaseJoin(d1, h1, d2, h2, disk, history, newStart, newStart + needed);
        s := s + 1;
      }
      PhaseJoin(d0, h0, d1, h1, disk, history, newStart, newStart + needed);
      CopiedIsGrown(t, inode, d0, disk, entry, e1);
    }

    method ZeroRun(start: nat, n: nat)
      requires start + n <= |disk|
      modifies this
      ensures ZeroedTo(old(disk), disk, start, n)
      ensures Phase(old(disk), old(history), disk, history, start, start + n)
    {
      hide Phase;
      ghost var d0, h0 := disk, history;
      PhaseNothing(disk, history, start, start + n);
      var s := 0;
      while s < n
        invariant s <= n && ZeroedTo(d0, disk, start, s)
        invariant Phase(d0, h0, disk, history, start, start + n)
      {
        ghost var d1, h1 := disk, history;
        PhaseWrite(disk, history, start + s, ZERO, start, start + n);
        WriteSector(start + s, ZERO);
        PhaseJoin(d0, h0, d1, h1, disk, history, start, start + n);
        s := s + 1;
      }
    }

    /**
     `write`.  In the shipped build the sector count of an end within 511 of the largest `usize` wraps
     to zero; the file then counts as large enough, and the gap before the write is zeroed to the
     end of the device.
     */
    method Write(inode: nat, offset: nat, data: seq<byte>) returns (r: Result<nat, VfsError>)
      requires Valid() && |data| <= ISIZE_MAX
      modifies this
      ensures if Inaccessible(old(disk), inode).None? && WrapsAround(offset + |data|) then
                r == Err(CorruptFilesystem) && WipedAfter(old(disk), inode, disk)
              else
                Valid() && Written(old(disk), old(history), inode, offset, data, disk, history, r)
      ensures IsFile(old(disk), inode) && offset + |data| + (SECTOR_SIZE - 1) <= USIZE_MAX ==>
                Valid() && WriteServed(old(disk), inode, offset, data, disk, r)
    {
      hide WellFormed, WipedAfter, Written, WriteServed;
      var missing := Inaccessible(disk, inode);
      if missing.Some? {
        NothingWritten(disk, history, inode, offset, data, Err(missing.value));
        r := Err(missing.value);
      } else if offset + |data| > USIZE_MAX {
        NothingWritten(disk, history, inode, offset, data, Err(OffsetOverflow));
        r := Err(OffsetOverflow);
      } else if WrapsAround(offset + |data|) {
        ShortFile(disk, inode);
        Wipe(inode);
        r := Err(CorruptFilesystem);
      } else {
        r := WriteFile(inode, offset, data);
      }
      if IsFile(old(disk), inode) && offset + |data| + (SECTOR_SIZE - 1) <= USIZE_MAX {
        WrapsAroundIff(offset + |data|);
        WriteIsServed(old(disk), old(history), inode, offset, data, disk, history, r);
      }
    }

    /** `zero_range` from the end of a file on, off the device: every sector is cleared until one is out of range. */
    method Wipe(inode: nat)
      requires Valid() && Inaccessible(disk, inode).None?
      modifies this
      ensures WipedAfter(old(disk), inode, disk)
    {
      hide Tree, Extents, GoodSuperblock, Lookup, Inodes;
      var entry := Inodes(disk)[inode - 1];
      ghost var d0 := disk;
      var position := entry.len;
      WipedNothing(disk, entry.startSector, position);
      while entry.startSector + position / SECTOR_SIZE < |disk|
        invariant entry.len <= position
        invariant Cleared(d0, disk, entry.startSector * SECTOR_SIZE + entry.len,
                          entry.startSector * SECTOR_SIZE + position)
        decreases |disk| - entry.startSector - position / SECTOR_SIZE
      {
        var within := position % SECTOR_SIZE;
        var s := entry.startSector + position / SECTOR_SIZE;
        ClearMore(d0, disk, entry.startSector, entry.len, position);
        WriteSector(s, Splice(disk[s], within, Zeros(SECTOR_SIZE - within)));
        position := position + (SECTOR_SIZE - within);
      }
      WipedAll(d0, disk, entry.startSector, entry.len, position);
    }

    /** `write`, once the inode is known to be a file and the end not to overflow. */
    method WriteFile(inode: nat, offset: nat, data: seq<byte>) returns (r: Result<nat, VfsError>)
      requires Valid() && Inaccessible(disk, inode).None?
      requires offset + |data| <= USIZE_MAX && !WrapsAround(offset + |data|)
      modifies this
      ensures Valid() && Written(old(disk), old(history), inode, offset, data, disk, history, r)
    {
      hide Tree, Extents, GoodSuperblock, Decodes, Inodes, Inaccessible, Encodable, Grown, Phase, Private, GapZeroed,
        Overlaid, InBounds, Rehoused, Written, NoRoom, Store, SectorsFor;
      FileBasics(disk, inode);
      ghost var d0, h0, t := disk, history, Inodes(disk);
      var entry := Inodes(disk)[inode - 1];
      var end := offset + |data|;
      var grown := EnsureCapacity(inode, entry, SectorsFor(end));
      if grown.Err? {
        NothingWritten(d0, h0, inode, offset, data, Err(NoSpace));
        r := Err(NoSpace);
      } else {
        var e1 := grown.value;
        ghost var d1, h1 := disk, history;
        GrownBasics(t, inode, d0, entry, SectorsFor(end), d1, e1);
        SectorsForLeast(end, e1.sectorCount);
        ZeroGap(e1, entry.len, offset);
        ghost var d2, h2 := disk, history;
        Overlay(e1.startSector, e1.sectorCount, offset, data);
        ghost var d3, h3 := disk, history;
        var e2 := e1.(len := if entry.len < end then end else entry.len);
        PhaseJoin(d0, h0, d1, h1, d2, h2, e1.startSector, e1.startSector + e1.sectorCount);
        PhaseJoin(d0, h0, d2, h2, d3, h3, e1.startSector, e1.startSector + e1.sectorCount);
        WriteFinish(d0, h0, inode, entry, d1, e1, d2, d3, h3, offset, data);
        WriteInode(inode, e2);
        r := Ok(|data|);
      }
    }

    /** Clears what an extended file would otherwise show of stale bytes. */
    method ZeroGap(e1: DiskInode, len: nat, to: nat)
      requires e1.startSector + e1.sectorCount <= |disk| && to <= e1.sectorCount * SECTOR_SIZE
      modifies this
      ensures |disk| == |old(disk)| && GapZeroed(old(disk), disk, e1, len, to)
      ensures Phase(old(disk), old(history), disk, history, e1.startSector, e1.startSector + e1.sectorCount)
    {
      if len < to {
        Overlay(e1.startSector, e1.sectorCount, len, Zeros(to - len));
      } else {
        PhaseNothing(disk, history, e1.startSector, e1.startSector + e1.sectorCount);
      }
    }

    /** `truncate`, with the same wrap-around as `write`. */
    method Truncate(inode: nat, len: nat) returns (r: Result<(), VfsError>)
      requires Valid() && len <= USIZE_MAX
      modifies this
      ensures if Inaccessible(old(disk), inode).None? && WrapsAround(len) then
                r == Err(CorruptFilesystem) && WipedAfter(old(disk), inode, disk)
              else
                Valid() && Truncated(old(disk), old(history), inode, len, disk, history, r)
      ensures IsFile(old(disk), inode) && len + (SECTOR_SIZE - 1) <= USIZE_MAX ==>
                Valid() && TruncateServed(old(disk), inode, len, disk, r)
    {
      hide WellFormed, WipedAfter, Truncated, TruncateServed;
      var missing := Inaccessible(disk, inode);
      if missing.Some? {
        NothingTruncated(disk, history, inode, len, missing.value);
        r := Err(missing.value);
      } else if WrapsAround(len) {
        ShortFile(disk, inode);
        Wipe(inode);
        r := Err(CorruptFilesystem);
      } else {
        r := TruncateFile(inode, len);
      }
      if IsFile(old(disk), inode) && len + (SECTOR_SIZE - 1) <= USIZE_MAX {
        WrapsAroundIff(len);
        TruncateIsServed(old(disk), old(history), inode, len, disk, history, r);
      }
    }

    /** `truncate`, once the inode is known to be a file and the length not to overflow. */
    method TruncateFile(inode: nat, len: nat) returns (r: Result<(), VfsError>)
      requires Valid() && Inaccessible(disk, inode).None? && len <= USIZE_MAX && !WrapsAround(len)
      modifies this
      ensures Valid() && Truncated(old(disk), old(history), inode, len, disk, history, r)
    {
      hide Tree, Extents, GoodSuperblock, Decodes, Inodes, Encodable, Grown, Phase, Private, GapZeroed,
        InBounds, Rehoused, NoRoom, Store, SectorsFor, FileBecomes, CrashSafe, Contents, Survivors, Resize;
      FileBasics(disk, inode);
      ghost var d0, h0, t := disk, history, Inodes(disk);
      var entry := Inodes(disk)[inode - 1];
      var grown := EnsureCapacity(inode, entry, SectorsFor(len));
      if grown.Err? {
        r := Err(NoSpace);
      } else {
        var e1 := grown.value;
        ghost var d1, h1 := disk, history;
        GrownBasics(t, inode, d0, entry, SectorsFor(len), d1, e1);
        SectorsForLeast(len, e1.sectorCount);
        ZeroGap(e1, entry.len, len);
        PhaseJoin(d0, h0, d1, h1, disk, history, e1.startSector, e1.startSector + e1.sectorCount);
        TruncateFinish(d0, h0, inode, entry, d1, e1, disk, history, len);
        WriteInode(inode, e1.(len := len));
        r := Ok(());
      }
    }

    /** `create`, for files (kind 1) and directories (kind 2). */
    method CreateEntry(parent: nat, name: seq<byte>, kind: nat) returns (r: Result<nat, VfsError>)
      requires Valid() && Utf8(name) && 1 <= kind <= 2
      modifies this
      ensures Valid() && r == Create(Inodes(old(disk)), parent, name, kind).0
      ensures Inodes(disk) == Create(Inodes(old(disk)), parent, name, kind).1
      ensures if r.Ok? then CrashSafe(old(disk), old(history), disk, history, r.value)
              else Untouched(old(disk), old(history), disk, history)
    {
      ghost var d0 := disk;
      var t := Inodes(disk);
      var bad := ValidateName(name);
      if bad.Some? {
        r := Err(bad.value);
      } else if !(1 <= parent <= INODE_COUNT) || t[parent - 1].kind == 0 {
        r := Err(NotFound);
      } else if t[parent - 1].kind != 2 {
        r := Err(NotDirectory);
      } else {
        var child := ScanForChild(t, parent, name);
        if child.Some? {
          r := Err(AlreadyExists);
        } else {
          var free := ScanForFree(t);
          if free.None? {
            r := Err(NoSpace);
          } else {
            CreateFinish(disk, history, parent, name, kind);
            hide *;
            WriteInode(free.value, NewEntry(kind, parent, name));
            r := Ok(free.value);
          }
        }
      }
    }

    method RemoveEntry(parent: nat, name: seq<byte>) returns (r: Result<nat, VfsError>)
      requires Valid()
      modifies this
      ensures Valid() && r == Remove(Inodes(old(disk)), parent, name).0
      ensures Inodes(disk) == Remove(Inodes(old(disk)), parent, name).1
      ensures if r.Ok? then CrashSafe(old(disk), old(history), disk, history, r.value)
              else Untouched(old(disk), old(history), disk, history)
    {
      hide Tree, Extents, GoodSuperblock, Decodes, Inodes, CrashSafe, Encodable, Store, FindChild, HasChildren;
      var t := Inodes(disk);
      var child := ScanForChild(t, parent, name);
      if child.None? {
        r := Err(NotFound);
      } else {
        var inode := child.value;
        FindChildFinds(t, parent, name, 2);
        var occupied := false;
        if t[inode - 1].kind == 2 {
          occupied := ScanForChildren(t, inode);
        }
        if occupied {
          r := Err(DirectoryNotEmpty);
        } else {
          RemoveFinish(disk, history, parent, name);
          hide *;
          WriteInode(inode, EMPTY);
          r := Ok(inode);
        }
      }
    }

    /** Fills the caller's buffer from `offset` on. */
    method Read(inode: nat, offset: nat, buffer: array<byte>) returns (r: Result<nat, VfsError>)
      requires Valid()
      modifies buffer
      ensures Valid() && disk == old(disk)
      ensures match Inaccessible(disk, inode)
              case Some(e) => r == Err(e) && buffer[..] == old(buffer[..])
              case None =>
                && r.Ok? && InBounds(disk, Inodes(disk)[inode - 1])
                && ReadFrom(Contents(disk, Inodes(disk)[inode - 1]), offset, old(buffer[..]), r.value, buffer[..])
    {
      hide Tree, Extents, GoodSuperblock, Decodes, Inodes, Contents, InBounds, ReadFrom;
      var missing := Inaccessible(disk, inode);
      if missing.Some? {
        r := Err(missing.value);
      } else {
        FileBasics(disk, inode);
        var entry := Inodes(disk)[inode - 1];
        var total := if offset >= entry.len then 0
                     else if buffer.Length < entry.len - offset then buffer.Length else entry.len - offset;
        var done := 0;
        ghost var before, data := buffer[..], Contents(disk, entry);
        while done < total
          invariant done <= total && (total == 0 || offset + total <= |data|)
          invariant ReadSoFar(data, offset, before, done, buffer[..])
        {
          var position := offset + done;
          var within := position % SECTOR_SIZE;
          var room := SECTOR_SIZE - within;
          var count := if room < total - done then room else total - done;
          ChunkReads(disk, entry, position, count);
          var chunk := disk[entry.startSector + position / SECTOR_SIZE][within..within + count];
          ghost var now := buffer[..];
          CopyInto(buffer, done, chunk);
          ReadMore(data, offset, before, done, now, chunk, buffer[..]);
          done := done + count;
        }
        ReadAll(data, offset, before, done, buffer[..]);
        r := Ok(total);
      }
    }
  }

  lemma PhaseNothing(disk: Disk, h: seq<Disk>, lo: nat, hi: nat)
    ensures Phase(disk, h, disk, h, lo, hi)
  {
  }

  lemma RelocateBounds(t: Table, inode: nat, sectors: nat, entry: DiskInode, needed: nat, newStart: nat)
    requires Extents(t, sectors) && 2 <= inode <= INODE_COUNT && entry.kind == 1 && entry == t[inode - 1]
    requires FirstFit(t, inode, needed, sectors, Ok(newStart))
    ensures newStart + needed <= sectors && entry.startSector + entry.sectorCount <= sectors
  {
    assert Housed(t, inode, sectors);
  }

  lemma ZeroedIsCopied(disk: Disk, d: Disk, e0: DiskInode, e1: DiskInode)
    requires ZeroedTo(disk, d, e1.startSector, e1.sectorCount) && e0.startSector + e0.sectorCount <= |disk|
    ensures CopiedTo(disk, d, e0, e1, 0) && |d| == |disk|
  {
  }

  lemma CopyStep(t: Table, inode: nat, disk: Disk, d: Disk, e0: DiskInode, e1: DiskInode, k: nat)
    requires CopiedTo(disk, d, e0, e1, k) && k < e0.sectorCount < e1.sectorCount
    requires Extents(t, |disk|) && 2 <= inode <= INODE_COUNT && e0 == t[inode - 1] && e0.kind == 1
    requires FirstFit(t, inode, e1.sectorCount, |disk|, Ok(e1.startSector))
    ensures e0.startSector + k < |d| == |disk| && e1.startSector + k < |d|
    ensures CopiedTo(disk, d[e1.startSector + k := d[e0.startSector + k]], e0, e1, k + 1)
  {
    hide Extents, Kept;
    CopyReads(t, inode, disk, d, e0, e1, k);
  }

  ghost predicate ZeroedTo(disk: Disk, d: Disk, start: nat, k: nat) {
    |d| == |disk| && forall s :: 0 <= s < |d| ==> d[s] == if start <= s < start + k then ZERO else disk[s]
  }

  /** The new extent is zeroed and its first `k` sectors are copied. */
  ghost predicate CopiedTo(disk: Disk, d: Disk, e0: DiskInode, e1: DiskInode, k: nat) {
    && |d| == |disk| && e0.startSector + e0.sectorCount <= |disk|
    && forall s :: 0 <= s < |d| ==>
         d[s] == if !(e1.startSector <= s < e1.startSector + e1.sectorCount) then disk[s]
                 else if s - e1.startSector < k then Kept(disk, e0, e1, s - e1.startSector)
                 else ZERO
  }

  /** What the copy loop reads as sector `k` is what is kept of it. */
  lemma CopyReads(t: Table, inode: nat, disk: Disk, d: Disk, e0: DiskInode, e1: DiskInode, k: nat)
    requires CopiedTo(disk, d, e0, e1, k) && k < e0.sectorCount < e1.sectorCount
    requires Extents(t, |disk|) && 2 <= inode <= INODE_COUNT && e0 == t[inode - 1] && e0.kind == 1
    requires FirstFit(t, inode, e1.sectorCount, |disk|, Ok(e1.startSector))
    ensures e0.startSector + k < |d| && d[e0.startSector + k] == Kept(disk, e0, e1, k)
  {
    var s := e0.startSector + k;
    assert Owns(t, inode, s);
    if e1.startSector <= s < e1.startSector + e1.sectorCount {
      OverlapStartsBelow(t, inode, |disk|, e1.sectorCount, e1.startSector, s);
    }
  }

  lemma CopiedIsGrown(t: Table, inode: nat, disk: Disk, d: Disk, e0: DiskInode, e1: DiskInode)
    requires CopiedTo(disk, d, e0, e1, e0.sectorCount) && e0.sectorCount < e1.sectorCount
    requires e1 == e0.(startSector := e1.startSector, sectorCount := e1.sectorCount)
    requires FirstFit(t, inode, e1.sectorCount, |disk|, Ok(e1.startSector))
    ensures Grown(t, inode, disk, e0, e1.sectorCount, d, e1)
  {
    forall s: nat | s < e1.sectorCount
      ensures SectorKept(disk, e0, d, e1, s)
    {
      assert d[e1.startSector + s] == Kept(disk, e0, e1, s);
    }
  }

  /** What stops a file operation on `inode`, if anything. */
  function Inaccessible(disk: Disk, inode: nat): Option<VfsError>
    requires WellFormed(disk)
  {
    if !(1 <= inode <= INODE_COUNT) || Inodes(disk)[inode - 1].kind == 0 then Some(NotFound)
    else if Inodes(disk)[inode - 1].kind == 2 then Some(VfsError.IsDirectory)
    else None
  }

  /** The extent of `e2` is that of `e0`, or the first fit for a file that has to grow. */
  ghost predicate Rehoused(t: Table, inode: nat, sectors: nat, e0: DiskInode, needed: nat, e2: DiskInode) {
    if needed <= e0.sectorCount then e2.startSector == e0.startSector && e2.sectorCount == e0.sectorCount
    else e2.sectorCount == needed && FirstFit(t, inode, needed, sectors, Ok(e2.startSector))
  }

  /** The file `inode` has the record `e2`, with contents `data`; all else in the table is as it was. */
  ghost predicate FileBecomes(disk: Disk, d: Disk, inode: nat, needed: nat, len: nat, e2: DiskInode)
    requires WellFormed(disk) && WellFormed(d) && Inaccessible(disk, inode).None?
  {
    var e0 := Inodes(disk)[inode - 1];
    && e2 == e0.(len := len, startSector := e2.startSector, sectorCount := e2.sectorCount)
    && Rehoused(Inodes(disk), inode, |disk|, e0, needed, e2)
    && Inodes(d) == Inodes(disk)[inode - 1 := e2]
    && InBounds(disk, e0) && InBounds(d, e2)
  }

  /** A failed operation wrote nothing. */
  ghost predicate Untouched(disk: Disk, history: seq<Disk>, d: Disk, history': seq<Disk>) {
    d == disk && history' == history
  }

  /** The exact condition under which growing is impossible. */
  ghost predicate NoRoom(disk: Disk, inode: nat, needed: nat)
    requires WellFormed(disk) && Inaccessible(disk, inode).None?
  {
    needed > Inodes(disk)[inode - 1].sectorCount && forall c: nat :: !FreeRun(Inodes(disk), inode, c, needed, |disk|)
  }

  /** What `write` promises. */
  ghost predicate Written(disk: Disk, history: seq<Disk>, inode: nat, offset: nat, data: seq<byte>,
                          d: Disk, history': seq<Disk>, r: Result<nat, VfsError>)
    requires WellFormed(disk) && WellFormed(d)
  {
    if Inaccessible(disk, inode).Some? then
      r == Err(Inaccessible(disk, inode).value) && Untouched(disk, history, d, history')
    else if offset + |data| > USIZE_MAX then
      r == Err(OffsetOverflow) && Untouched(disk, history, d, history')
    else if r.Err? then
      r.error == NoSpace && NoRoom(disk, inode, SectorsFor(offset + |data|)) && Untouched(disk, history, d, history')
    else
      var e0, e2 := Inodes(disk)[inode - 1], Inodes(d)[inode - 1];
      && r == Ok(|data|)
      && FileBecomes(disk, d, inode, SectorsFor(offset + |data|), Max(e0.len, offset + |data|), e2)
      && Contents(d, e2) == RamWrite(Survivors(disk, e0, e2), offset, data)
      && CrashSafe(disk, history, d, history', inode) && MovesSafely(disk, history, history', inode, e2)
  }

  lemma FileBasics(disk: Disk, inode: nat)
    requires WellFormed(disk) && Inaccessible(disk, inode).None?
    ensures 2 <= inode <= INODE_COUNT && Inodes(disk)[inode - 1].kind == 1 && InBounds(disk, Inodes(disk)[inode - 1])
    ensures Encodable(Inodes(disk)[inode - 1]) && Inodes(disk)[inode - 1].nameLen <= MAX_DISK_NAME
    ensures Private(Inodes(disk), inode, Inodes(disk)[inode - 1].startSector,
                    Inodes(disk)[inode - 1].startSector + Inodes(disk)[inode - 1].sectorCount)
  {
    assert Inodes(disk)[0].kind == 2;
    InodesAreEncodable(disk, inode);
    FileInBounds(disk, inode);
    OwnExtentIsPrivate(Inodes(disk), inode, |disk|);
  }

  lemma NothingWritten(
      disk: Disk, history: seq<Disk>, inode: nat, offset: nat, data: seq<byte>, r: Result<nat, VfsError>)
    requires WellFormed(disk)
    requires match Inaccessible(disk, inode)
             case Some(e) => r == Err(e)
             case None =>
               if offset + |data| > USIZE_MAX then r == Err(OffsetOverflow)
               else r == Err(NoSpace) && NoRoom(disk, inode, SectorsFor(offset + |data|))
    ensures Written(disk, history, inode, offset, data, disk, history, r)
  {
  }

  lemma GrownBasics(t: Table, inode: nat, disk: Disk, e0: DiskInode, needed: nat, d: Disk, e1: DiskInode)
    requires Grown(t, inode, disk, e0, needed, d, e1) && InBounds(disk, e0)
    requires Private(t, inode, e0.startSector, e0.startSector + e0.sectorCount)
    ensures |d| == |disk| && e1.startSector + e1.sectorCount <= |d| && needed <= e1.sectorCount
    ensures e0.sectorCount <= e1.sectorCount && Rehoused(t, inode, |disk|, e0, needed, e1)
    ensures e1 == e0.(startSector := e1.startSector, sectorCount := e1.sectorCount)
    ensures Private(t, inode, e1.startSector, e1.startSector + e1.sectorCount)
  {
  }

  /** The record that ends a resize keeps the tree and the extents. */
  lemma NewRecord(disk: Disk, inode: nat, d: Disk, e2: DiskInode)
    requires WellFormed(disk) && Inaccessible(disk, inode).None? && e2.len < U64 && |d| == |disk|
    requires e2 == Inodes(disk)[inode - 1].(len := e2.len, startSector := e2.startSector, sectorCount := e2.sectorCount)
    requires InBounds(d, e2) && Private(Inodes(disk), inode, e2.startSector, e2.startSector + e2.sectorCount)
    ensures 1 <= inode <= INODE_COUNT && DATA_START <= |d| && e2.startSector + e2.sectorCount <= |d|
    ensures Encodable(e2) && e2.kind <= 2 && e2.nameLen <= MAX_DISK_NAME
    ensures Tree(Inodes(disk)[inode - 1 := e2]) && Extents(Inodes(disk)[inode - 1 := e2], |disk|)
    ensures e2.sectorCount != 0 ==> DATA_START <= e2.startSector
  {
    hide Tree, Extents, Lookup, GoodSuperblock, Inodes, SectorsFor, OwnedByOther;
    FileBasics(disk, inode);
    ResizeKeepsTree(Inodes(disk), inode, e2);
    ReplaceKeepsExtents(Inodes(disk), inode, |disk|, e2);
  }

  /** The single inode write that ends an operation is safe, and is the first to show the new table. */
  lemma Finish(disk: Disk, h: seq<Disk>, inode: nat, d: Disk, h': seq<Disk>, e2: DiskInode)
    requires WellFormed(disk) && Inaccessible(disk, inode).None? && e2.len < U64
    requires e2 == Inodes(disk)[inode - 1].(len := e2.len, startSector := e2.startSector, sectorCount := e2.sectorCount)
    requires InBounds(d, e2) && Private(Inodes(disk), inode, e2.startSector, e2.startSector + e2.sectorCount)
    requires Phase(disk, h, d, h', e2.startSector, e2.startSector + e2.sectorCount)
    ensures Encodable(e2) && DATA_START <= |d| == |disk|
    ensures var d' := Store(d, inode, e2);
            && WellFormed(d') && CrashSafe(disk, h, d', h' + [d'], inode)
            && Inodes(d') == Inodes(disk)[inode - 1 := e2]
            && InBounds(d', e2) && Contents(d', e2) == Contents(d, e2)
            && InBounds(disk, Inodes(disk)[inode - 1]) && MovesSafely(disk, h, h' + [d'], inode, e2)
  {
    hide Decodes, GoodSuperblock, Shows, Encodable, Private, Tree, Extents, Inodes, Store, Inaccessible, InBounds,
         Contents;
    assert |d| == |disk|;
    var lo, hi := e2.startSector, e2.startSector + e2.sectorCount;
    NewRecord(disk, inode, d, e2);
    PrivateShows(disk, d, inode, lo, hi);
    forall k | |h| <= k < |h'|
      ensures Shows(disk, h'[k], inode, Inodes(disk))
    {
      PrivateShows(disk, h'[k], inode, lo, hi);
    }
    StoreShows(disk, d, inode, e2);
    StoreKeepsContents(d, inode, e2, e2);
    ShowsBasics(disk, Store(d, inode, e2), inode, Inodes(disk)[inode - 1 := e2]);
    FileBasics(disk, inode);
    OldBytesKept(disk, h, d, h', inode, e2, Store(d, inode, e2));
  }

  lemma OldBytesKept(disk: Disk, h: seq<Disk>, d: Disk, h': seq<Disk>, inode: nat, e2: DiskInode, last: Disk)
    requires WellFormed(disk) && 1 <= inode <= INODE_COUNT && InBounds(disk, Inodes(disk)[inode - 1])
    requires Phase(disk, h, d, h', e2.startSector, e2.startSector + e2.sectorCount)
    ensures MovesSafely(disk, h, h' + [last], inode, e2)
  {
    hide Decodes, GoodSuperblock, Tree, Extents, Inodes, Contents, InBounds, Differ;
    var e0, lo, hi := Inodes(disk)[inode - 1], e2.startSector, e2.startSector + e2.sectorCount;
    if Apart(e0, lo, hi) {
      forall k | |h| <= k < |h'|
        ensures InBounds(h'[k], e0) && Contents(h'[k], e0) == Contents(disk, e0)
      {
        ContentsElsewhere(disk, h'[k], e0, lo, hi);
      }
    }
  }

  lemma ShowsBasics(disk: Disk, d: Disk, inode: nat, t: Table)
    requires WellFormed(disk) && Shows(disk, d, inode, t)
    ensures WellFormed(d) && Inodes(d) == t
  {
  }

  lemma StoreKeepsContents(d: Disk, inode: nat, e: DiskInode, f: DiskInode)
    requires 1 <= inode <= INODE_COUNT && DATA_START <= |d| && Encodable(e) && InBounds(d, f)
    requires f.sectorCount != 0 ==> DATA_START <= f.startSector
    ensures InBounds(Store(d, inode, e), f) && Contents(Store(d, inode, e), f) == Contents(d, f)
  {
    StoreSectors(d, inode, e);
    ContentsElsewhere(d, Store(d, inode, e), f, 1, DATA_START);
  }

  lemma WriteFinish(disk: Disk, h: seq<Disk>, inode: nat, e0: DiskInode, d1: Disk, e1: DiskInode, d2: Disk, d3: Disk,
                    h3: seq<Disk>, offset: nat, data: seq<byte>)
    requires WellFormed(disk) && Inaccessible(disk, inode).None? && e0 == Inodes(disk)[inode - 1]
    requires offset + |data| <= USIZE_MAX && Grown(Inodes(disk), inode, disk, e0, SectorsFor(offset + |data|), d1, e1)
    requires GapZeroed(d1, d2, e1, e0.len, offset) && Overlaid(d2, d3, e1.startSector, e1.sectorCount, offset, data)
    requires Phase(disk, h, d3, h3, e1.startSector, e1.startSector + e1.sectorCount)
    ensures var e2 := e1.(len := Max(e0.len, offset + |data|));
            && Encodable(e2) && DATA_START <= |d3|
            && WellFormed(Store(d3, inode, e2))
            && Written(disk, h, inode, offset, data, Store(d3, inode, e2), h3 + [Store(d3, inode, e2)], Ok(|data|))
  {
    hide Tree, Extents, GoodSuperblock, Decodes, Grown, GapZeroed, Overlaid, Phase, Contents, Survivors, RamWrite,
      CrashSafe, Store, InBounds, Encodable, Private, Inodes, SectorsFor, Rehoused;
    var e2 := e1.(len := Max(e0.len, offset + |data|));
    FileBasics(disk, inode);
    LengthEncodable(e0);
    GrownBasics(Inodes(disk), inode, disk, e0, SectorsFor(offset + |data|), d1, e1);
    WriteContents(Inodes(disk), inode, disk, e0, d1, e1, d2, d3, offset, data);
    SurvivorsByExtent(disk, e0, e1, e2);
    Finish(disk, h, inode, d3, h3, e2);
    RehousedByExtent(Inodes(disk), inode, |disk|, e0, SectorsFor(offset + |data|), e1, e2);
    assert Inodes(Store(d3, inode, e2))[inode - 1] == e2;
  }

  lemma LengthEncodable(e: DiskInode)
    requires Encodable(e)
    ensures e.len < U64
  {
  }

  lemma RehousedByExtent(t: Table, inode: nat, sectors: nat, e0: DiskInode, needed: nat, e1: DiskInode, e2: DiskInode)
    requires Rehoused(t, inode, sectors, e0, needed, e1)
    requires e1.startSector == e2.startSector && e1.sectorCount == e2.sectorCount
    ensures Rehoused(t, inode, sectors, e0, needed, e2)
  {
  }

  lemma SurvivorsByExtent(disk: Disk, e0: DiskInode, e1: DiskInode, e2: DiskInode)
    requires InBounds(disk, e0) && e1.startSector == e2.startSector && e1.sectorCount == e2.sectorCount
    ensures Survivors(disk, e0, e1) == Survivors(disk, e0, e2)
  {
    forall p | 0 <= p < e0.len
      ensures Survivors(disk, e0, e1)[p] == Survivors(disk, e0, e2)[p]
    {
    }
  }

  // ---------------------------------------------------------------- wrap-around

  const ISIZE_MAX: nat := 0x7fff_ffff_ffff_ffff  // no slice is longer

  /** Rounding this length up to sectors overflows a `usize`. */
  predicate WrapsAround(len: nat) {
    USIZE_MAX - (SECTOR_SIZE - 1) < len <= USIZE_MAX
  }

  /** What the source computes in 64 bits is the number of sectors exactly for lengths that do not wrap around. */
  lemma WrapsAroundIff(len: nat)
    requires len <= USIZE_MAX
    ensures WrapsAround(len) <==> (len + 511) % 0x1_0000_0000_0000_0000 / 512 != SectorsFor(len)
    ensures WrapsAround(len) <==> len + 511 > USIZE_MAX
  {
  }

  predicate IsFile(disk: Disk, inode: nat)
    requires WellFormed(disk)
  {
    1 <= inode <= INODE_COUNT && Inodes(disk)[inode - 1].kind == 1
  }

  /** A write to a file takes place, or there is no run of sectors for it and nothing has changed. */
  ghost predicate WriteServed(disk: Disk, inode: nat, offset: nat, data: seq<byte>, d: Disk, r: Result<nat, VfsError>)
    requires WellFormed(disk) && WellFormed(d) && IsFile(disk, inode)
  {
    var e0, e2, end := Inodes(disk)[inode - 1], Inodes(d)[inode - 1], offset + |data|;
    if r.Ok? then
      && r.value == |data| && e2.kind == 1 && e2.len == (if e0.len < end then end else e0.len)
      && InBounds(disk, e0) && InBounds(d, e2) && Contents(d, e2) == RamWrite(Survivors(disk, e0, e2), offset, data)
    else r.error == NoSpace && d == disk && CannotGrow(disk, inode, end)
  }

  ghost predicate TruncateServed(disk: Disk, inode: nat, len: nat, d: Disk, r: Result<(), VfsError>)
    requires WellFormed(disk) && WellFormed(d) && IsFile(disk, inode)
  {
    var e0, e2 := Inodes(disk)[inode - 1], Inodes(d)[inode - 1];
    if r.Ok? then
      && e2.kind == 1 && e2.len == len
      && InBounds(disk, e0) && InBounds(d, e2) && Contents(d, e2) == Resize(Survivors(disk, e0, e2), len)
    else r.error == NoSpace && d == disk && CannotGrow(disk, inode, len)
  }

  /** The file is smaller than `end` bytes need, and no run that large is free for it. */
  ghost predicate CannotGrow(disk: Disk, inode: nat, end: nat)
    requires WellFormed(disk) && IsFile(disk, inode)
  {
    && Inodes(disk)[inode - 1].sectorCount * SECTOR_SIZE < end
    && forall c: nat, n: nat :: n * SECTOR_SIZE >= end ==> !FreeRun(Inodes(disk), inode, c, n, |disk|)
  }

  lemma NoRoomIsCannotGrow(disk: Disk, inode: nat, end: nat)
    requires WellFormed(disk) && IsFile(disk, inode) && NoRoom(disk, inode, SectorsFor(end))
    ensures CannotGrow(disk, inode, end)
  {
    hide Tree, Extents, GoodSuperblock, Lookup, Inodes;
    SectorsForLeast(end, Inodes(disk)[inode - 1].sectorCount);
    forall c: nat, n: nat | n * SECTOR_SIZE >= end
      ensures !FreeRun(Inodes(disk), inode, c, n, |disk|)
    {
      SectorsForLeast(end, n);
      assert !FreeRun(Inodes(disk), inode, c, SectorsFor(end), |disk|);
    }
  }

  lemma WriteIsServed(disk: Disk, h: seq<Disk>, inode: nat, offset: nat, data: seq<byte>, d: Disk, h': seq<Disk>,
                      r: Result<nat, VfsError>)
    requires WellFormed(disk) && WellFormed(d) && IsFile(disk, inode) && offset + |data| <= USIZE_MAX
    requires Written(disk, h, inode, offset, data, d, h', r)
    ensures WriteServed(disk, inode, offset, data, d, r)
  {
    hide Tree, Extents, GoodSuperblock, Lookup, Inodes, Contents, Survivors, RamWrite, CrashSafe, MovesSafely,
         CannotGrow, SectorsFor, NoRoom, InBounds, Rehoused;
    if r.Err? {
      NoRoomIsCannotGrow(disk, inode, offset + |data|);
    }
  }

  lemma TruncateIsServed(disk: Disk, h: seq<Disk>, inode: nat, len: nat, d: Disk, h': seq<Disk>,
                         r: Result<(), VfsError>)
    requires WellFormed(disk) && WellFormed(d) && IsFile(disk, inode) && Truncated(disk, h, inode, len, d, h', r)
    ensures TruncateServed(disk, inode, len, d, r)
  {
    hide Tree, Extents, GoodSuperblock, Lookup, Inodes, Contents, Survivors, Resize, CrashSafe, MovesSafely, CannotGrow,
         SectorsFor, NoRoom, InBounds, Rehoused;
    if r.Err? {
      NoRoomIsCannotGrow(disk, inode, len);
    }
  }

  lemma NothingTruncated(disk: Disk, history: seq<Disk>, inode: nat, len: nat, why: VfsError)
    requires WellFormed(disk) && Inaccessible(disk, inode) == Some(why)
    ensures Truncated(disk, history, inode, len, disk, history, Err(why))
  {
  }

  /** The bytes of the device from position `from` to position `to` are zero, the others as before. */
  ghost predicate Cleared(disk: Disk, d: Disk, from: nat, to: nat) {
    && |d| == |disk|
    && forall s: nat, b: nat :: s < |disk| && b < SECTOR_SIZE ==>
         d[s][b] == if from <= s * SECTOR_SIZE + b < to then 0 else disk[s][b]
  }

  /** Everything behind the last byte of file `inode`, to the end of the device, is zero. */
  ghost predicate WipedAfter(disk: Disk, inode: nat, d: Disk)
    requires WellFormed(disk) && Inaccessible(disk, inode).None?
  {
    var e := Inodes(disk)[inode - 1];
    Cleared(disk, d, e.startSector * SECTOR_SIZE + e.len, |disk| * SECTOR_SIZE)
  }

  /**
   No file of a well-formed volume is nearly as long as the lengths that wrap around, nor is its
   device: the gap before such an end is never empty, and zeroing it runs off the device.
   */
  lemma ShortFile(disk: Disk, inode: nat)
    requires WellFormed(disk) && Inaccessible(disk, inode).None?
    ensures Inodes(disk)[inode - 1].len + ISIZE_MAX + SECTOR_SIZE < USIZE_MAX
    ensures |disk| < (USIZE_MAX - SECTOR_SIZE - ISIZE_MAX) / SECTOR_SIZE
  {
    hide Tree, Extents, GoodSuperblock, Lookup, Inodes;
    FileBasics(disk, inode);
  }

  lemma WipedNothing(disk: Disk, start: nat, position: nat)
    ensures Cleared(disk, disk, start * SECTOR_SIZE + position, start * SECTOR_SIZE + position)
  {
  }

  lemma ClearMore(disk: Disk, d: Disk, start: nat, from: nat, position: nat)
    requires Cleared(disk, d, start * SECTOR_SIZE + from, start * SECTOR_SIZE + position)
    requires from <= position && start + position / SECTOR_SIZE < |disk|
    ensures var i, within := start + position / SECTOR_SIZE, position % SECTOR_SIZE;
            var d' := d[i := Splice(d[i], within, Zeros(SECTOR_SIZE - within))];
            Cleared(disk, d', start * SECTOR_SIZE + from, start * SECTOR_SIZE + (position + (SECTOR_SIZE - within)))
  {
    var i, within := start + position / SECTOR_SIZE, position % SECTOR_SIZE;
    var d' := d[i := Splice(d[i], within, Zeros(SECTOR_SIZE - within))];
    var lo, hi := start * SECTOR_SIZE + from, start * SECTOR_SIZE + (position + (SECTOR_SIZE - within));
    assert start * SECTOR_SIZE + position == i * SECTOR_SIZE + within;
    forall s: nat, b: nat | s < |disk| && b < SECTOR_SIZE
      ensures d'[s][b] == if lo <= s * SECTOR_SIZE + b < hi then 0 else disk[s][b]
    {
      assert d[s][b] == if lo <= s * SECTOR_SIZE + b < i * SECTOR_SIZE + within then 0 else disk[s][b];
    }
  }

  lemma WipedAll(disk: Disk, d: Disk, start: nat, from: nat, position: nat)
    requires Cleared(disk, d, start * SECTOR_SIZE + from, start * SECTOR_SIZE + position)
    requires start + position / SECTOR_SIZE >= |disk|
    ensures Cleared(disk, d, start * SECTOR_SIZE + from, |disk| * SECTOR_SIZE)
  {
    var lo, hi := start * SECTOR_SIZE + from, start * SECTOR_SIZE + position;
    forall s: nat, b: nat | s < |disk| && b < SECTOR_SIZE
      ensures d[s][b] == if lo <= s * SECTOR_SIZE + b < |disk| * SECTOR_SIZE then 0 else disk[s][b]
    {
      assert d[s][b] == if lo <= s * SECTOR_SIZE + b < hi then 0 else disk[s][b];
    }
  }

  /** What `truncate` promises. */
  ghost predicate Truncated(disk: Disk, history: seq<Disk>, inode: nat, len: nat,
                            d: Disk, history': seq<Disk>, r: Result<(), VfsError>)
    requires WellFormed(disk) && WellFormed(d)
  {
    if Inaccessible(disk, inode).Some? then
      r == Err(Inaccessible(disk, inode).value) && Untouched(disk, history, d, history')
    else if r.Err? then
      r.error == NoSpace && NoRoom(disk, inode, SectorsFor(len)) && Untouched(disk, history, d, history')
    else
      var e0, e2 := Inodes(disk)[inode - 1], Inodes(d)[inode - 1];
      && FileBecomes(disk, d, inode, SectorsFor(len), len, e2)
      && Contents(d, e2) == Resize(Survivors(disk, e0, e2), len)
      && CrashSafe(disk, history, d, history', inode) && MovesSafely(disk, history, history', inode, e2)
  }

  lemma TruncateFinish(disk: Disk, h: seq<Disk>, inode: nat, e0: DiskInode, d1: Disk, e1: DiskInode, d2: Disk,
                       h2: seq<Disk>, len: nat)
    requires WellFormed(disk) && Inaccessible(disk, inode).None? && e0 == Inodes(disk)[inode - 1]
    requires len <= USIZE_MAX && Grown(Inodes(disk), inode, disk, e0, SectorsFor(len), d1, e1)
    requires GapZeroed(d1, d2, e1, e0.len, len)
    requires Phase(disk, h, d2, h2, e1.startSector, e1.startSector + e1.sectorCount)
    ensures var e2 := e1.(len := len);
            && Encodable(e2) && DATA_START <= |d2|
            && WellFormed(Store(d2, inode, e2))
            && Truncated(disk, h, inode, len, Store(d2, inode, e2), h2 + [Store(d2, inode, e2)], Ok(()))
  {
    hide Tree, Extents, GoodSuperblock, Decodes, Grown, GapZeroed, Phase, Contents, Survivors, Resize, CrashSafe, Store,
      InBounds, Encodable, Private, Inodes, SectorsFor, Rehoused;
    var e2 := e1.(len := len);
    FileBasics(disk, inode);
    GrownBasics(Inodes(disk), inode, disk, e0, SectorsFor(len), d1, e1);
    TruncateContents(Inodes(disk), inode, disk, e0, d1, e1, d2, len);
    SurvivorsByExtent(disk, e0, e1, e2);
    Finish(disk, h, inode, d2, h2, e2);
    RehousedByExtent(Inodes(disk), inode, |disk|, e0, SectorsFor(len), e1, e2);
    assert Inodes(Store(d2, inode, e2))[inode - 1] == e2;
  }

  /** An operation that only stores one inode. */
  lemma StoreOnly(disk: Disk, h: seq<Disk>, inode: nat, e: DiskInode)
    requires WellFormed(disk) && 1 <= inode <= INODE_COUNT && Encodable(e) && e.kind <= 2 && e.nameLen <= MAX_DISK_NAME
    requires Tree(Inodes(disk)[inode - 1 := e]) && Extents(Inodes(disk)[inode - 1 := e], |disk|)
    ensures var d := Store(disk, inode, e);
            WellFormed(d) && Inodes(d) == Inodes(disk)[inode - 1 := e] && CrashSafe(disk, h, d, h + [d], inode)
  {
    hide Tree, Extents, GoodSuperblock, Encodable, Inodes, Store, Shows;
    PrivateShows(disk, disk, inode, DATA_START, DATA_START);
    StoreShows(disk, disk, inode, e);
    ShowsBasics(disk, Store(disk, inode, e), inode, Inodes(disk)[inode - 1 := e]);
  }

  lemma NewEntryBasics(kind: nat, parent: nat, name: seq<byte>)
    requires kind <= 2 && parent <= INODE_COUNT && |name| <= MAX_DISK_NAME
    ensures var e := NewEntry(kind, parent, name);
            && Encodable(e) && e.kind == kind && e.nameLen <= MAX_DISK_NAME
            && e.len == 0 && e.startSector == 0 && e.sectorCount == 0
  {
  }

  lemma CreateBasics(t: Table, parent: nat, name: seq<byte>, kind: nat)
    requires Create(t, parent, name, kind).0.Ok?
    ensures var i := Create(t, parent, name, kind).0.value;
            && 1 <= i <= INODE_COUNT && |name| <= MAX_DISK_NAME && parent <= INODE_COUNT
            && Create(t, parent, name, kind).1 == t[i - 1 := NewEntry(kind, parent, name)]
  {
    hide FindChild, FreeInode, NewEntry;
    FreeInodeFinds(t, 2);
  }

  lemma NothingIsPrivate(t: Table, inode: nat)
    ensures Private(t, inode, 0, 0)
  {
  }

  lemma CreateFinish(disk: Disk, h: seq<Disk>, parent: nat, name: seq<byte>, kind: nat)
    requires WellFormed(disk) && Utf8(name) && 1 <= kind <= 2
    requires Create(Inodes(disk), parent, name, kind).0.Ok?
    ensures var i := Create(Inodes(disk), parent, name, kind).0.value;
            && 1 <= i <= INODE_COUNT && |name| <= MAX_DISK_NAME && Encodable(NewEntry(kind, parent, name))
            && var d := Store(disk, i, NewEntry(kind, parent, name));
            && WellFormed(d) && Inodes(d) == Create(Inodes(disk), parent, name, kind).1
            && CrashSafe(disk, h, d, h + [d], i)
  {
    hide Tree, Extents, GoodSuperblock, Decodes, Inodes, CrashSafe, Encodable, Create, NewEntry, Store, Utf8, Private;
    var t := Inodes(disk);
    var i := Create(t, parent, name, kind).0.value;
    CreateKeepsTree(t, parent, name, kind);
    CreateBasics(t, parent, name, kind);
    NewEntryBasics(kind, parent, name);
    NothingIsPrivate(t, i);
    ReplaceKeepsExtents(t, i, |disk|, NewEntry(kind, parent, name));
    StoreOnly(disk, h, i, NewEntry(kind, parent, name));
  }

  lemma RemoveFinish(disk: Disk, h: seq<Disk>, parent: nat, name: seq<byte>)
    requires WellFormed(disk) && Remove(Inodes(disk), parent, name).0.Ok?
    ensures var i := Remove(Inodes(disk), parent, name).0.value;
            && 1 <= i <= INODE_COUNT && DATA_START <= |disk| && Encodable(EMPTY)
            && var d := Store(disk, i, EMPTY);
            && WellFormed(d) && Inodes(d) == Remove(Inodes(disk), parent, name).1
            && CrashSafe(disk, h, d, h + [d], i)
  {
    hide Tree, Extents, GoodSuperblock, Lookup, Inodes, CrashSafe, FindChild, HasChildren, Store;
    var t := Inodes(disk);
    var i := Remove(t, parent, name).0.value;
    RemoveKeepsTree(t, parent, name);
    FindChildFinds(t, parent, name, 2);
    ReplaceKeepsExtents(t, i, |disk|, EMPTY);
    StoreOnly(disk, h, i, EMPTY);
  }

  /** `count` bytes of `data` from `offset` on now start the buffer; the rest of it is as before. */
  ghost predicate ReadFrom(data: seq<byte>, offset: nat, before: seq<byte>, count: nat, after: seq<byte>) {
    && count == (if offset >= |data| then 0 else if |before| < |data| - offset then |before| else |data| - offset)
    && after == (if offset >= |data| then [] else data[offset..offset + count]) + before[count..]
  }

  ghost predicate ReadSoFar(data: seq<byte>, offset: nat, before: seq<byte>, done: nat, now: seq<byte>) {
    && |now| == |before| && done <= |before| && (done == 0 || offset + done <= |data|)
    && (forall k :: 0 <= k < done ==> now[k] == data[offset + k])
    && (forall k :: done <= k < |now| ==> now[k] == before[k])
  }

  lemma ReadMore(data: seq<byte>, offset: nat, before: seq<byte>, done: nat, now: seq<byte>, chunk: seq<byte>,
                 next: seq<byte>)
    requires ReadSoFar(data, offset, before, done, now) && offset + done + |chunk| <= |data|
    requires chunk == data[offset + done..offset + done + |chunk|] && done + |chunk| <= |now| == |next|
    requires next == now[..done] + chunk + now[done + |chunk|..]
    ensures ReadSoFar(data, offset, before, done + |chunk|, next)
  {
    forall k | 0 <= k < done + |chunk|
      ensures next[k] == data[offset + k]
    {
      if done <= k {
        assert next[k] == chunk[k - done];
      }
    }
  }

  lemma ReadAll(data: seq<byte>, offset: nat, before: seq<byte>, done: nat, now: seq<byte>)
    requires ReadSoFar(data, offset, before, done, now)
    requires done == if offset >= |data| then 0 else if |before| < |data| - offset then |before| else |data| - offset
    ensures ReadFrom(data, offset, before, done, now)
  {
  }

  /** A sector's worth of an in-bounds file, read off the device. */
  lemma ChunkReads(disk: Disk, entry: DiskInode, position: nat, count: nat)
    requires InBounds(disk, entry) && 0 < count && position + count <= entry.len
    requires position % SECTOR_SIZE + count <= SECTOR_SIZE
    ensures |Contents(disk, entry)| == entry.len && entry.startSector + position / SECTOR_SIZE < |disk|
    ensures disk[entry.startSector + position / SECTOR_SIZE][position % SECTOR_SIZE..position % SECTOR_SIZE + count]
            == Contents(disk, entry)[position..position + count]
  {
    var at, within := position / SECTOR_SIZE, position % SECTOR_SIZE;
    PositionInBounds(disk, entry, position);
    forall p | position <= p < position + count
      ensures p / SECTOR_SIZE == at
      ensures ByteAt(disk, entry.startSector, p) == disk[entry.startSector + at][within + (p - position)]
    {
    }
  }

  method CopyInto(buffer: array<byte>, at: nat, chunk: seq<byte>)
    requires at + |chunk| <= buffer.Length
    modifies buffer
    ensures buffer[..] == old(buffer[..at]) + chunk + old(buffer[at + |chunk|..])
  {
    var k := 0;
    while k < |chunk|
      invariant k <= |chunk|
      invariant forall i :: 0 <= i < buffer.Length ==>
                  buffer[i] == if at <= i < at + k then chunk[i - at] else old(buffer[i])
    {
      buffer[at + k] := chunk[k];
      k := k + 1;
    }
  }

  method ScanForChild(t: Table, parent: nat, name: seq<byte>) returns (r: Option<nat>)
    ensures r == FindChild(t, parent, name, 2)
  {
    var inode := 2;
    while inode <= INODE_COUNT && !IsChild(t, parent, name, inode)
      invariant 2 <= inode <= INODE_COUNT + 1
      invariant FindChild(t, parent, name, 2) == FindChild(t, parent, name, inode)
    {
      inode := inode + 1;
    }
    r := if inode <= INODE_COUNT then Some(inode) else None;
  }

  method ScanForFree(t: Table) returns (r: Option<nat>)
    ensures r == FreeInode(t, 2)
  {
    var inode := 2;
    while inode <= INODE_COUNT && t[inode - 1].kind != 0
      invariant 2 <= inode <= INODE_COUNT + 1
      invariant FreeInode(t, 2) == FreeInode(t, inode)
    {
      inode := inode + 1;
    }
    r := if inode <= INODE_COUNT then Some(inode) else None;
  }

  method ScanForChildren(t: Table, inode: nat) returns (found: bool)
    ensures found == HasChildren(t, inode)
  {
    var child := 2;
    found := false;
    while child <= INODE_COUNT && !found
      invariant 2 <= child <= INODE_COUNT + 1
      invariant found ==> HasChildren(t, inode)
      invariant !found ==> forall j :: 2 <= j < child && Live(t, j) ==> t[j - 1].parent != inode
      decreases INODE_COUNT + 1 - child, if found then 0 else 1
    {
      if t[child - 1].kind != 0 && t[child - 1].parent == inode {
        assert Live(t, child);
        found := true;
      } else {
        child := child + 1;
      }
    }
  }

  lemma OverlayNothing(disk: Disk, h: seq<Disk>, start: nat, cap: nat, from: nat)
    requires start + cap <= |disk|
    ensures Overlaid(disk, disk, start, cap, from, []) && Phase(disk, h, disk, h, start, start + cap)
  {
  }
}

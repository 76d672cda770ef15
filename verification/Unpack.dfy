/** Unpacking the initramfs archive into the mounted filesystems. */
module Unpack {
  import opened Wrappers
  import opened VfsErrors
  import opened LittleEndian
  import opened Paths
  import opened Initramfs
  import opened PathTree
  import opened MountedTree = Vfs
  import Volume = GenericFsVolume

  /** The path a record names, below the root. */
  function Key(r: Record): Result<seq<Name>, VfsError> {
    Named([SLASH] + r.path)
  }

  /** What a record leaves at its path. */
  function Left(r: Record): Entry {
    if r.kind == DIRECTORY then Directory else File(r.data)
  }

  /** A record can go where something of its kind is, or where nothing is but a directory to hold it. */
  ghost predicate Fits(t: Tree, r: Record) {
    Key(r).Ok? && FitsAt(t, Key(r).value, r.kind == DIRECTORY)
  }

  ghost function Applied(t: Tree, rs: seq<Record>): Tree {
    if rs == [] then t
    else
      var r := rs[|rs| - 1];
      var before := Applied(t, rs[..|rs| - 1]);
      if Key(r).Ok? then before[Key(r).value := Left(r)] else before
  }

  /** Every record can go where it should, at its turn. */
  ghost predicate Installs(t: Tree, rs: seq<Record>) {
    forall k :: 0 <= k < |rs| ==> FitsNext(t, rs, k)
  }

  ghost predicate FitsNext(t: Tree, rs: seq<Record>, k: nat)
    requires k < |rs|
  {
    Fits(Applied(t, rs[..k]), rs[k])
  }

  function Files(rs: seq<Record>): nat {
    if rs == [] then 0 else Files(rs[..|rs| - 1]) + if rs[|rs| - 1].kind == FILE then 1 else 0
  }

  ghost function FileIndices(rs: seq<Record>): set<nat> {
    set k: nat | k < |rs| && rs[k].kind == 1
  }

  /** The number `unpack` returns is that of the records that are files. */
  lemma {:induction false} FilesCounted(rs: seq<Record>)
    ensures Files(rs) == |FileIndices(rs)|
    decreases |rs|
  {
    if rs == [] {
      assert FileIndices([]) == {};
    } else {
      var n := |rs| - 1;
      FilesCounted(rs[..n]);
      assert FileIndices(rs) == FileIndices(rs[..n]) + if rs[n].kind == 1 then {n} else {};
    }
  }

  /** For repeated paths the last record wins, with exactly its data. */
  lemma {:induction false} LastRecordWins(t: Tree, rs: seq<Record>, k: nat)
    requires k < |rs| && Key(rs[k]).Ok? && forall j :: k < j < |rs| ==> Key(rs[j]) != Key(rs[k])
    ensures Key(rs[k]).value in Applied(t, rs) && Applied(t, rs)[Key(rs[k]).value] == Left(rs[k])
    decreases |rs|
  {
    hide Key;
    var n := |rs| - 1;
    if k < n {
      LastRecordWins(t, rs[..n], k);
      assert Key(rs[n]) != Key(rs[k]);
    }
  }

  /** A record the reader can come across. */
  predicate Readable(r: Record) {
    (r.kind == FILE || (r.kind == DIRECTORY && r.data == [])) && |r.data| < 0x1_0000_0000
  }

  function Outcome<T>(r: Result<T, VfsError>): Result<(), VfsError> {
    if r.Err? then Err(r.error) else Ok(())
  }

  ghost predicate Installed(t: Tree, t': Tree, r: Record, done: Result<(), VfsError>) {
    match done
    case Ok(_) => Fits(t, r) && t' == t[Key(r).value := Left(r)]
    case Err(why) => t' == t && (Fits(t, r) ==> why == InodeExhausted)
  }

  /** Makes room for a record: the directory is there, or the file is and is empty. */
  method Prepare(vfs: Vfs, path: Path, directory: bool) returns (done: Result<(), VfsError>)
    requires vfs.Valid()
    modifies vfs.Filesystems()
    ensures vfs.Valid() && vfs.mounts == old(vfs.mounts) && vfs.points == old(vfs.points)
    ensures Named(path).Err? ==> done == Err(Named(path).error) && vfs.Contents() == old(vfs.Contents())
    ensures Named(path).Ok? ==> Prepared(old(vfs.Contents()), vfs.Contents(), Named(path).value, directory, done)
  {
    hide Named, TreeOf, PartsOf, Describes, CreateDone, TruncateDone, Prepared;
    ghost var t, p := vfs.Contents(), if Named(path).Ok? then Named(path).value else [];
    var metadata := vfs.Metadata(path);
    if metadata.Ok? && metadata.value.directory != directory {
      done := Err(AlreadyExists);
      NotPrepared(t, p, directory, metadata, AlreadyExists);
    } else if metadata.Err? && metadata.error != NotFound {
      done := Err(metadata.error);
      if Named(path).Ok? {
        NotPrepared(t, p, directory, metadata, metadata.error);
      }
    } else if metadata.Err? {
      ghost var vs := vfs.Parts();
      var created, i := vfs.Create(path, directory);
      done := Outcome(created);
      if Named(path).Ok? {
        NowThere(vs, vfs.Parts(), i, p, directory, metadata, created);
      }
    } else if directory {
      done := Ok(());
      StillThere(t, p, metadata);
    } else {
      done := vfs.Truncate(path, 0);
      NowEmpty(t, vfs.Contents(), p, metadata, done);
    }
  }

  ghost predicate FitsAt(t: Tree, p: seq<Name>, directory: bool) {
    if p in t then t[p] == Directory <==> directory else Vacant(t, p)
  }

  ghost predicate Prepared(t: Tree, t': Tree, p: seq<Name>, directory: bool, done: Result<(), VfsError>) {
    match done
    case Ok(_) => FitsAt(t, p, directory) && t' == t[p := NewNode(directory)]
    case Err(why) => t' == t && (FitsAt(t, p, directory) ==> why == InodeExhausted)
  }

  lemma NotPrepared(t: Tree, p: seq<Name>, directory: bool, m: Result<Metadata, VfsError>, why: VfsError)
    requires Describes(t, p, m)
    requires if m.Ok? then m.value.directory != directory else m.error != NotFound
    ensures Prepared(t, t, p, directory, Err(why))
  {
  }

  lemma NowThere(vs: seq<Part>, vs': seq<Part>, i: nat, p: seq<Name>, directory: bool, m: Result<Metadata, VfsError>,
                 r: Result<nat, VfsError>)
    requires Describes(TreeOf(vs), p, m) && m.Err? && CreateDone(vs, vs', i, p, directory, r)
    ensures Prepared(TreeOf(vs), TreeOf(vs'), p, directory, Outcome(r))
  {
    hide TreeOf, Vacant;
  }

  lemma StillThere(t: Tree, p: seq<Name>, m: Result<Metadata, VfsError>)
    requires Describes(t, p, m) && m.Ok? && m.value.directory
    ensures Prepared(t, t, p, true, Ok(()))
  {
    assert t[p := Directory] == t;
  }

  lemma NowEmpty(t: Tree, t': Tree, p: seq<Name>, m: Result<Metadata, VfsError>, r: Result<(), VfsError>)
    requires Describes(t, p, m) && m.Ok? && !m.value.directory && TruncateDone(t, t', p, 0, r)
    ensures Prepared(t, t', p, false, r)
  {
    assert Volume.Resize(t[p].data, 0) == [];
  }

  /** For a directory that is all; a file is not installed yet. */
  lemma PreparedFor(t: Tree, t': Tree, r: Record, done: Result<(), VfsError>)
    requires Readable(r)
    requires match Key(r)
             case Err(e) => done == Err(e) && t' == t
             case Ok(p) => Prepared(t, t', p, r.kind == DIRECTORY, done)
    ensures done.Err? || r.kind == DIRECTORY ==> Installed(t, t', r, done)
    ensures done.Ok? ==> Fits(t, r) && t' == t[Key(r).value := NewNode(r.kind == DIRECTORY)]
  {
    hide Key, FitsAt;
  }

  lemma Filled(t: Tree, t1: Tree, t2: Tree, r: Record, written: Result<nat, VfsError>)
    requires Readable(r) && r.kind == FILE && Fits(t, r) && t1 == t[Key(r).value := File([])]
    requires WriteDone(t1, t2, Key(r).value, 0, r.data, written)
    ensures Installed(t, t2, r, Outcome(written))
  {
    hide Key, FitsAt;
    assert Volume.RamWrite([], 0, r.data) == r.data;
  }

  /** One record of `unpack`: it is installed or nothing has changed. */
  method Install(vfs: Vfs, r: Record) returns (done: Result<(), VfsError>)
    requires vfs.Valid() && Readable(r)
    modifies vfs.Filesystems()
    ensures vfs.Valid() && vfs.mounts == old(vfs.mounts) && vfs.points == old(vfs.points)
    ensures Installed(old(vfs.Contents()), vfs.Contents(), r, done)
  {
    hide Named, TreeOf, PartsOf, WriteDone, FitsAt, Prepared, Installed;
    ghost var t := vfs.Contents();
    var path := [SLASH] + r.path;
    done := Prepare(vfs, path, r.kind == DIRECTORY);
    PreparedFor(t, vfs.Contents(), r, done);
    if done.Ok? && r.kind == FILE {
      ghost var t1 := vfs.Contents();
      var written := vfs.Write(path, 0, r.data);
      Filled(t, t1, vfs.Contents(), r, written);
      done := Outcome(written);
    }
  }

  // -------------------------------------------------------------- the archive

  lemma FoundIsReadable(archive: seq<byte>, offset: nat)
    ensures ItemAt(archive, offset).Found? ==> Readable(ItemAt(archive, offset).record)
  {
    hide Decode, Text.Utf8;
    if offset + 7 <= |archive| {
      Widths();
      DecodeBound(archive[offset + 3..offset + 7]);
    }
  }

  /** How far `unpack` got: `n` records are installed, and then it was through, or why it stopped. */
  ghost predicate Unpacked(t: Tree, t': Tree, rs: seq<Record>, complete: bool, n: nat, r: Result<nat, VfsError>) {
    && n <= |rs| && Installs(t, rs[..n]) && t' == Applied(t, rs[..n])
    && match r
       case Ok(files) => n == |rs| && complete && files == Files(rs)
       case Err(why) =>
         if n == |rs| then !complete && why == CorruptFilesystem
         else Fits(t', rs[n]) ==> why == InodeExhausted
  }

  lemma InstallsNext(t: Tree, rs: seq<Record>, n: nat)
    requires n < |rs| && Installs(t, rs[..n]) && Fits(Applied(t, rs[..n]), rs[n])
    ensures Installs(t, rs[..n + 1])
    ensures Applied(t, rs[..n + 1]) == Applied(t, rs[..n])[Key(rs[n]).value := Left(rs[n])]
    ensures Files(rs[..n + 1]) == Files(rs[..n]) + if rs[n].kind == FILE then 1 else 0
  {
    hide Key, Left, FitsAt;
    var upTo := rs[..n + 1];
    assert upTo[..n] == rs[..n];
    forall k | 0 <= k < |upTo|
      ensures FitsNext(t, upTo, k)
    {
      assert upTo[..k] == rs[..k];
      if k < n {
        assert FitsNext(t, rs[..n], k) && rs[..n][..k] == rs[..k];
      }
    }
  }

  /** The reader has the first `n` records behind it and the others ahead. */
  ghost predicate ReadSoFar(archive: seq<byte>, n: nat, offset: nat, ended: bool) {
    var (rs, complete) := Records(archive, 4);
    n <= |rs| && if ended then n == |rs| && complete else (rs[n..], complete) == Records(archive, offset)
  }

  lemma ReadNext(archive: seq<byte>, n: nat, offset: nat)
    requires ReadSoFar(archive, n, offset, false)
    ensures var (rs, complete) := Records(archive, 4);
            match ItemAt(archive, offset)
            case End => ReadSoFar(archive, n, offset, true)
            case Corrupt => n == |rs| && !complete
            case Found(record, next) => n < |rs| && rs[n] == record && ReadSoFar(archive, n + 1, next, false)
  {
    hide ItemAt;
    var rs := Records(archive, 4).0;
    var item := ItemAt(archive, offset);
    if item.Found? {
      assert rs[n..] == [item.record] + Records(archive, item.next).0;
      assert rs[n + 1..] == rs[n..][1..];
    }
  }

  /** Between records: what is behind the reader is installed. */
  ghost predicate Going(archive: seq<byte>, t: Tree, t': Tree, n: nat, offset: nat, files: nat) {
    var rs := Records(archive, 4).0;
    && ReadSoFar(archive, n, offset, false) && Installs(t, rs[..n]) && t' == Applied(t, rs[..n])
    && files == Files(rs[..n])
  }

  lemma StartsGoing(archive: seq<byte>, t: Tree)
    ensures Going(archive, t, t, 0, 4, 0) && Unpacked(t, t, [], false, 0, Err(CorruptFilesystem))
  {
    var rs := Records(archive, 4).0;
    assert rs[..0] == [] && rs[0..] == rs;
  }

  lemma GoesOn(archive: seq<byte>, t: Tree, t1: Tree, t2: Tree, n: nat, offset: nat, files: nat,
               done: Result<(), VfsError>)
    requires Going(archive, t, t1, n, offset, files) && ItemAt(archive, offset).Found?
    requires Installed(t1, t2, ItemAt(archive, offset).record, done)
    ensures var (rs, complete) := Records(archive, 4);
            var Found(record, next) := ItemAt(archive, offset);
            match done
            case Ok(_) => Going(archive, t, t2, n + 1, next, files + if record.kind == FILE then 1 else 0)
            case Err(why) => Unpacked(t, t2, rs, complete, n, Err(why))
  {
    hide ItemAt, Key, Left, FitsAt, Applied, Files, Installs, Fits;
    ReadNext(archive, n, offset);
    if done.Ok? {
      InstallsNext(t, Records(archive, 4).0, n);
    }
  }

  lemma GoesNoFurther(archive: seq<byte>, t: Tree, t': Tree, n: nat, offset: nat, files: nat)
    requires Going(archive, t, t', n, offset, files) && !ItemAt(archive, offset).Found?
    ensures var (rs, complete) := Records(archive, 4);
            Unpacked(t, t', rs, complete, n, if ItemAt(archive, offset).End? then Ok(files) else Err(CorruptFilesystem))
  {
    hide ItemAt, Applied, Files, Installs;
    ReadNext(archive, n, offset);
    var rs := Records(archive, 4).0;
    assert n == |rs| && rs[..n] == rs;
  }

  /**
   `unpack`: it ends on every byte string.  Records are installed in order as long as they fit, and it
   succeeds exactly if all of them do and the archive ends as it should, inode numbers permitting.
   */
  method UnpackArchive(vfs: Vfs, archive: seq<byte>) returns (r: Result<nat, VfsError>, ghost n: nat)
    requires vfs.Valid()
    modifies vfs.Filesystems()
    ensures vfs.Valid() && vfs.mounts == old(vfs.mounts) && vfs.points == old(vfs.points)
    ensures Unpacked(old(vfs.Contents()), vfs.Contents(), Contents(archive).0, Contents(archive).1, n, r)
  {
    hide ItemAt, TreeOf, PartsOf, Records, Installed, Going, Unpacked;
    ghost var t := vfs.Contents();
    n := 0;
    StartsGoing(archive, t);
    if |archive| < 5 || archive[..4] != MAGIC {
      return Err(CorruptFilesystem), 0;
    }
    var offset, files, ended := 4, 0, false;
    r := Ok(0);
    while !ended
      invariant vfs.Valid() && vfs.mounts == old(vfs.mounts) && vfs.points == old(vfs.points)
      invariant if ended then Unpacked(t, vfs.Contents(), Records(archive, 4).0, Records(archive, 4).1, n, r)
                else Going(archive, t, vfs.Contents(), n, offset, files)
      decreases if offset <= |archive| then |archive| - offset + 1 else 0, !ended
    {
      match ItemAt(archive, offset) {
        case End =>
          GoesNoFurther(archive, t, vfs.Contents(), n, offset, files);
          r, ended := Ok(files), true;
        case Corrupt =>
          GoesNoFurther(archive, t, vfs.Contents(), n, offset, files);
          r, ended := Err(CorruptFilesystem), true;
        case Found(record, next) =>
          FoundIsReadable(archive, offset);
          ghost var before := vfs.Contents();
          var done := Install(vfs, record);
          GoesOn(archive, t, before, vfs.Contents(), n, offset, files, done);
          if done.Err? {
            r, ended := Err(done.error), true;
          } else {
            files, offset, n := files + if record.kind == FILE then 1 else 0, next, n + 1;
          }
      }
    }
  }
}

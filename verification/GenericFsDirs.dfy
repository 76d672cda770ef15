/** GenericFS volumes as directory trees, so that what holds of any mounted tree holds of them. */
module GenericFsDirs {
  import opened Wrappers
  import opened VfsErrors
  import opened LittleEndian
  import opened GenericFsDisk
  import opened GenericFsTree
  import opened GenericFsVolume
  import opened GenericFs
  import opened DirTree

  /** The entry of inode `i`: its directory and its name in it. */
  function EntryOf(t: Table, i: nat): (nat, seq<byte>)
    requires Live(t, i)
  {
    (t[i - 1].parent, Name(t[i - 1]))
  }

  ghost function TableView(t: Table): View
    requires Tree(t)
  {
    EntriesUnique(t);
    View(1, map i: nat | i < INODE_COUNT + 1 && Live(t, i) :: EntryOf(t, i) := i,
         set i: nat | i < INODE_COUNT + 1 && GenericFsTree.IsDirectory(t, i))
  }

  lemma EntriesUnique(t: Table)
    requires Tree(t)
    ensures forall i, j :: Live(t, i) && Live(t, j) && EntryOf(t, i) == EntryOf(t, j) ==> i == j
  {
    assert forall i, j :: Live(t, i) && Live(t, j) && EntryOf(t, i) == EntryOf(t, j) ==> Siblings(t, i, j);
  }

  lemma TableEdges(t: Table)
    requires Tree(t)
    ensures forall e :: e in TableView(t).edges ==>
              Live(t, TableView(t).edges[e]) && EntryOf(t, TableView(t).edges[e]) == e
    ensures forall i :: Live(t, i) ==> EntryOf(t, i) in TableView(t).edges && TableView(t).edges[EntryOf(t, i)] == i
    ensures forall i :: i in TableView(t).dirs <==> GenericFsTree.IsDirectory(t, i)
    ensures TableView(t).root == 1
  {
    EntriesUnique(t);
  }

  /** The tree of inodes is a tree in the VFS's sense. */
  lemma TableTreeLike(t: Table)
    requires Tree(t)
    ensures TreeLike(TableView(t))
  {
    hide TableView;
    TableEdges(t);
    var v := TableView(t);
    forall p: nat, n, c: nat | Edge(v, p, n, c)
      ensures Live(t, c) && EntryOf(t, c) == (p, n)
    {
      assert (p, n) in v.edges;
    }
  }

  /** The tables agree on every inode but `i`. */
  predicate SameBut(t: Table, t': Table, i: nat) {
    forall k :: 0 <= k < INODE_COUNT && k + 1 != i ==> t'[k] == t[k]
  }

  lemma EntryAppears(t: Table, t': Table, i: nat)
    requires Tree(t) && Tree(t') && SameBut(t, t', i) && !Live(t, i) && Live(t', i)
    ensures EntryOf(t', i) !in TableView(t).edges
    ensures TableView(t').edges == TableView(t).edges[EntryOf(t', i) := i]
  {
    hide TableView, Tree, Name;
    TableEdges(t);
    TableEdges(t');
    var v, v', e := TableView(t), TableView(t'), EntryOf(t', i);
    forall x
      ensures x in v.edges ==> x in v'.edges && v'.edges[x] == v.edges[x] && x != e
      ensures x in v'.edges && x != e ==> x in v.edges
    {
      if x in v.edges {
        assert EntryOf(t', v.edges[x]) == x;
      }
      if x in v'.edges && x != e {
        assert EntryOf(t, v'.edges[x]) == x;
      }
    }
    assert v'.edges == v.edges[e := i];
  }

  lemma EntryGoes(t: Table, t': Table, i: nat)
    requires Tree(t) && Tree(t') && SameBut(t, t', i) && Live(t, i) && !Live(t', i)
    ensures EntryOf(t, i) in TableView(t).edges && TableView(t).edges[EntryOf(t, i)] == i
    ensures TableView(t').edges == TableView(t).edges - {EntryOf(t, i)}
  {
    hide TableView, Tree, Name;
    EntryAppears(t', t, i);
    TableEdges(t);
  }

  lemma DirsChange(t: Table, t': Table, i: nat)
    requires Tree(t) && Tree(t') && SameBut(t, t', i) && 1 <= i <= INODE_COUNT
    ensures TableView(t').dirs ==
            if GenericFsTree.IsDirectory(t', i) then TableView(t).dirs + {i} else TableView(t).dirs - {i}
  {
    hide TableView, Tree;
    TableEdges(t);
    TableEdges(t');
  }

  /** A successful `create` adds the entry it names. */
  lemma CreateAdds(t: Table, parent: nat, name: seq<byte>, kind: nat)
    requires Tree(t) && Utf8(name) && 1 <= kind <= 2 && Create(t, parent, name, kind).0.Ok?
    ensures Tree(Create(t, parent, name, kind).1)
    ensures Adds(TableView(t), TableView(Create(t, parent, name, kind).1), parent, name,
                 Create(t, parent, name, kind).0.value, kind == 2)
  {
    hide TableView, Tree, Name, NewEntry, FindChild, FreeInode, Utf8;
    CreateKeepsTree(t, parent, name, kind);
    var i, t' := Create(t, parent, name, kind).0.value, Create(t, parent, name, kind).1;
    FreeInodeFinds(t, 2);
    NewNamed(kind, parent, name);
    EntryAppears(t, t', i);
    DirsChange(t, t', i);
    TableEdges(t);
    TableEdges(t');
    var v := TableView(t);
    assert i !in v.dirs;
    forall p: nat, n
      ensures !Edge(v, p, n, i)
    {
      assert (p, n) in v.edges ==> Live(t, v.edges[(p, n)]);
    }
  }

  lemma NewNamed(kind: nat, parent: nat, name: seq<byte>)
    requires |name| <= MAX_DISK_NAME
    ensures var e := NewEntry(kind, parent, name); Name(e) == name && e.parent == parent && e.kind == kind
  {
  }

  /** A successful `remove` drops the entry it names. */
  lemma RemoveDrops(t: Table, parent: nat, name: seq<byte>)
    requires Tree(t) && Remove(t, parent, name).0.Ok?
    ensures Tree(Remove(t, parent, name).1)
    ensures Drops(TableView(t), TableView(Remove(t, parent, name).1), parent, name)
  {
    hide TableView, Tree, Name, FindChild;
    RemoveKeepsTree(t, parent, name);
    var i, t' := Remove(t, parent, name).0.value, Remove(t, parent, name).1;
    FindChildFinds(t, parent, name, 2);
    EntryGoes(t, t', i);
    DirsChange(t, t', i);
    TableEdges(t);
    TableEdges(t');
    var v := TableView(t);
    RemovedHasNoEntries(t, parent, name);
    forall e | e in v.edges
      ensures e.0 != i
    {
      assert EntryOf(t, v.edges[e]) == e;
    }
    assert forall n :: (i, n) !in v.edges;
  }

  lemma RemovedHasNoEntries(t: Table, parent: nat, name: seq<byte>)
    requires Tree(t) && Remove(t, parent, name).0.Ok?
    ensures forall j :: Live(t, j) ==> EntryOf(t, j).0 != Remove(t, parent, name).0.value
  {
    var i := Remove(t, parent, name).0.value;
    FindChildFinds(t, parent, name, 2);
    forall j | Live(t, j)
      ensures EntryOf(t, j).0 != i
    {
      assert GenericFsTree.IsDirectory(t, t[j - 1].parent);
    }
  }

  /** Up to the length of a record's name field, both filesystems refuse the same names for the same reasons. */
  lemma NamesAgree(name: seq<byte>)
    ensures |name| <= MAX_DISK_NAME ==> GenericFsTree.ValidateName(name) == Paths.ValidateName(name)
    ensures |name| > MAX_DISK_NAME ==> GenericFsTree.ValidateName(name).Some?
  {
  }

  // ------------------------------------------------------------ when they succeed

  /** The inode is neither the root nor where any entry leads. */
  ghost predicate Spare(v: View, i: nat) {
    2 <= i <= INODE_COUNT && forall e :: e in v.edges ==> v.edges[e] != i
  }

  /** Some entry leads to the inode. */
  ghost predicate Entered(v: View, i: nat) {
    exists e :: e in v.edges && v.edges[e] == i
  }

  /** `create`, in terms of the tree: each outcome has its exact condition. */
  lemma CreateDecided(t: Table, parent: nat, name: seq<byte>, kind: nat)
    requires Tree(t) && ValidateName(name).None?
    ensures var (v, r) := (TableView(t), Create(t, parent, name, kind).0);
            && (r.Ok? <==> parent in v.dirs && (parent, name) !in v.edges && exists i: nat :: Spare(v, i))
            && (r == Err(AlreadyExists) <==> (parent, name) in v.edges)
            && (r == Err(NoSpace) <==>
                  parent in v.dirs && (parent, name) !in v.edges && forall i: nat :: !Spare(v, i))
            && (r == Err(NotDirectory) <==> Entered(v, parent) && parent !in v.dirs)
            && (r == Err(NotFound) <==> !Entered(v, parent) && parent !in v.dirs)
  {
    hide TableView, Tree, Name, NewEntry, Create;
    var v := TableView(t);
    TableEdges(t);
    FindChildFinds(t, parent, name, 2);
    FreeInodeFinds(t, 2);
    CreateCases(t, parent, name, kind);
    EntryIff(t, parent, name);
    forall i: nat
      ensures Spare(v, i) <==> 2 <= i && Unused(t, i)
      ensures Entered(v, i) <==> Live(t, i)
    {
      EnteredIff(t, i);
    }
    RootIsDirectory(t);
  }

  lemma RootIsDirectory(t: Table)
    requires Tree(t)
    ensures GenericFsTree.IsDirectory(t, 1)
  {
  }

  lemma CreateCases(t: Table, parent: nat, name: seq<byte>, kind: nat)
    requires ValidateName(name).None?
    ensures Create(t, parent, name, kind).0 ==
            if !(1 <= parent <= INODE_COUNT) || t[parent - 1].kind == 0 then Err(NotFound)
            else if t[parent - 1].kind != 2 then Err(NotDirectory)
            else if FindChild(t, parent, name, 2).Some? then Err(AlreadyExists)
            else if FreeInode(t, 2).None? then Err(NoSpace) else Ok(FreeInode(t, 2).value)
  {
  }

  lemma EntryIff(t: Table, parent: nat, name: seq<byte>)
    requires Tree(t)
    ensures (parent, name) in TableView(t).edges <==> FindChild(t, parent, name, 2).Some?
    ensures (parent, name) in TableView(t).edges ==>
              TableView(t).edges[(parent, name)] == FindChild(t, parent, name, 2).value
              && GenericFsTree.IsDirectory(t, parent)
  {
    hide TableView, Name, FindChild;
    TableEdges(t);
    FindChildFinds(t, parent, name, 2);
    var v := TableView(t);
    if (parent, name) in v.edges {
      assert IsChild(t, parent, name, v.edges[(parent, name)]);
    }
    if FindChild(t, parent, name, 2).Some? {
      assert EntryOf(t, FindChild(t, parent, name, 2).value) == (parent, name);
    }
  }

  lemma EnteredIff(t: Table, i: nat)
    requires Tree(t)
    ensures Entered(TableView(t), i) <==> Live(t, i)
    ensures Spare(TableView(t), i) <==> 2 <= i && Unused(t, i)
  {
    hide TableView, Tree, Name;
    TableEdges(t);
    var v := TableView(t);
    if Live(t, i) {
      assert v.edges[EntryOf(t, i)] == i;
    }
  }

  /** `remove`, in terms of the tree. */
  lemma RemoveDecided(t: Table, parent: nat, name: seq<byte>)
    requires Tree(t)
    ensures var (v, r) := (TableView(t), Remove(t, parent, name).0);
            && (r == Err(NotFound) <==> (parent, name) !in v.edges)
            && (r.Ok? <==> (parent, name) in v.edges && forall n :: (v.edges[(parent, name)], n) !in v.edges)
            && (r.Ok? ==> r.value == v.edges[(parent, name)])
            && (r.Err? ==> r.error == NotFound || r.error == DirectoryNotEmpty)
  {
    hide TableView, Name, FindChild;
    var v := TableView(t);
    EntryIff(t, parent, name);
    FindChildFinds(t, parent, name, 2);
    TableEdges(t);
    if FindChild(t, parent, name, 2).Some? {
      var i := FindChild(t, parent, name, 2).value;
      if HasChildren(t, i) {
        var j :| 2 <= j <= INODE_COUNT && Live(t, j) && t[j - 1].parent == i;
        assert EntryOf(t, j).0 == i && EntryOf(t, j) in v.edges;
        assert GenericFsTree.IsDirectory(t, i);
      }
      if n :| (i, n) in v.edges {
        assert t[v.edges[(i, n)] - 1].parent == i;
      }
    }
  }

  /** File operations are possible on exactly what is entered and no directory. */
  lemma AccessDecided(disk: Disk, inode: nat)
    requires WellFormed(disk)
    ensures var (v, r) := (TableView(Inodes(disk)), Inaccessible(disk, inode));
            && (r.None? <==> Entered(v, inode) && inode !in v.dirs)
            && (r == Some(VfsError.IsDirectory) <==> inode in v.dirs)
            && (r == Some(NotFound) <==> !Entered(v, inode) && inode !in v.dirs)
  {
    hide TableView, Inodes, Name, GoodSuperblock, Lookup;
    EnteredIff(Inodes(disk), inode);
    TableEdges(Inodes(disk));
  }
}

/** The memory filesystem, as a directory tree whose operations the VFS can rely on. */
module RamFs {
  import opened Wrappers
  import opened Units
  import opened VfsErrors
  import opened LittleEndian
  import opened Paths
  import opened DirTree
  import Volume = GenericFsVolume

  const ROOT_INODE: nat := 1
  const INODE_MAX: nat := U64_MAX

  datatype Node = Node(directory: bool, children: map<Name, nat>, data: seq<byte>)

  type Nodes = map<nat, Node>

  const EMPTY_DIRECTORY: Node := Node(true, map[], [])
  const EMPTY_FILE: Node := Node(false, map[], [])

  // ------------------------------------------------------------ the directories

  predicate Listed(nodes: Nodes, edge: (nat, Name)) {
    edge.0 in nodes && edge.1 in nodes[edge.0].children
  }

  ghost function ViewOf(nodes: Nodes): View {
    View(ROOT_INODE,
         map p, n | p in nodes && n in nodes[p].children :: (p, n) := nodes[p].children[n],
         set i | i in nodes && nodes[i].directory)
  }

  lemma ViewEdges(nodes: Nodes, e: (nat, Name))
    ensures e in ViewOf(nodes).edges <==> Listed(nodes, e)
    ensures Listed(nodes, e) ==> ViewOf(nodes).edges[e] == nodes[e.0].children[e.1]
  {
  }

  lemma ViewDirs(nodes: Nodes)
    ensures ViewOf(nodes).root == ROOT_INODE
    ensures forall i :: i in ViewOf(nodes).dirs <==> i in nodes && nodes[i].directory
  {
  }

  /** Directories form a tree, every entry has its node, and no inode number is ahead of the counter. */
  ghost predicate Sane(nodes: Nodes, next: nat) {
    && ROOT_INODE in nodes && TreeLike(ViewOf(nodes)) && ROOT_INODE < next <= INODE_MAX
    && (forall i :: i in nodes ==> i < next)
    && (forall p, n :: Listed(nodes, (p, n)) ==> nodes[p].directory && nodes[p].children[n] in nodes)
  }

  // ------------------------------------------------------------- what goes wrong

  /** A directory to look in, or why there is none. */
  function DirectoryError(nodes: Nodes, parent: nat, name: Name): Option<VfsError> {
    var bad := ValidateName(name);
    if bad.Some? then bad
    else if parent !in nodes then Some(NotFound)
    else if !nodes[parent].directory then Some(NotDirectory)
    else None
  }

  function CreateError(nodes: Nodes, next: nat, parent: nat, name: Name): Option<VfsError> {
    var bad := DirectoryError(nodes, parent, name);
    if bad.Some? then bad
    else if name in nodes[parent].children then Some(AlreadyExists)
    else if next >= INODE_MAX then Some(InodeExhausted)
    else None
  }

  function LookupError(nodes: Nodes, parent: nat, name: Name): Option<VfsError> {
    var bad := DirectoryError(nodes, parent, name);
    if bad.Some? then bad else if name !in nodes[parent].children then Some(NotFound) else None
  }

  function RemoveError(nodes: Nodes, parent: nat, name: Name): Option<VfsError> {
    var bad := LookupError(nodes, parent, name);
    if bad.Some? then bad
    else
      var child := nodes[parent].children[name];
      if child !in nodes then Some(NotFound)
      else if nodes[child].directory && nodes[child].children != map[] then Some(DirectoryNotEmpty)
      else None
  }

  function FileError(nodes: Nodes, inode: nat): Option<VfsError> {
    if inode !in nodes then Some(NotFound) else if nodes[inode].directory then Some(IsDirectory) else None
  }

  // ---------------------------------------------------------------- the lemmas

  function Linked(nodes: Nodes, parent: nat, name: Name, child: nat, directory: bool): Nodes
    requires parent in nodes && child !in nodes
  {
    nodes[child := if directory then EMPTY_DIRECTORY else EMPTY_FILE]
         [parent := nodes[parent].(children := nodes[parent].children[name := child])]
  }

  function Unlinked(nodes: Nodes, parent: nat, name: Name): Nodes
    requires Listed(nodes, (parent, name))
  {
    nodes[parent := nodes[parent].(children := nodes[parent].children - {name})] - {nodes[parent].children[name]}
  }

  lemma LinkedEdge(nodes: Nodes, parent: nat, name: Name, child: nat, directory: bool, e: (nat, Name))
    requires parent in nodes && child !in nodes
    ensures var nodes' := Linked(nodes, parent, name, child, directory);
            && (Listed(nodes', e) <==> Listed(nodes, e) || e == (parent, name))
            && (Listed(nodes', e) ==> nodes'[e.0].children[e.1] ==
                                      if e == (parent, name) then child else nodes[e.0].children[e.1])
  {
  }

  lemma LinkedView(nodes: Nodes, parent: nat, name: Name, child: nat, directory: bool)
    requires parent in nodes && child !in nodes
    ensures var v, v' := ViewOf(nodes), ViewOf(Linked(nodes, parent, name, child, directory));
            v' == View(v.root, v.edges[(parent, name) := child], if directory then v.dirs + {child} else v.dirs)
  {
    hide ViewOf, Listed;
    var nodes' := Linked(nodes, parent, name, child, directory);
    var v, v' := ViewOf(nodes), ViewOf(nodes');
    ViewDirs(nodes);
    ViewDirs(nodes');
    forall e: (nat, Name)
      ensures e in v'.edges <==> e in v.edges || e == (parent, name)
      ensures e in v'.edges ==> v'.edges[e] == if e == (parent, name) then child else v.edges[e]
    {
      LinkedEdge(nodes, parent, name, child, directory, e);
      ViewEdges(nodes, e);
      ViewEdges(nodes', e);
    }
    assert v'.edges == v.edges[(parent, name) := child];
    assert v'.dirs == if directory then v.dirs + {child} else v.dirs;
  }

  /** `create_node` adds one entry to the tree. */
  lemma CreateAdds(nodes: Nodes, next: nat, parent: nat, name: Name, directory: bool)
    requires Sane(nodes, next) && CreateError(nodes, next, parent, name).None?
    ensures next !in nodes
    ensures var nodes' := Linked(nodes, parent, name, next, directory);
            Adds(ViewOf(nodes), ViewOf(nodes'), parent, name, next, directory) && Sane(nodes', next + 1)
  {
    hide TreeLike, ViewOf, Linked;
    var nodes' := Linked(nodes, parent, name, next, directory);
    var v, v' := ViewOf(nodes), ViewOf(nodes');
    LinkedView(nodes, parent, name, next, directory);
    LinkedKeys(nodes, parent, name, next, directory);
    ViewDirs(nodes);
    ViewEdges(nodes, (parent, name));
    forall p, n
      ensures !Edge(v, p, n, next)
    {
      ViewEdges(nodes, (p, n));
    }
    AddsKeeps(v, v', parent, name, next, directory);
    forall p, n | Listed(nodes', (p, n))
      ensures nodes'[p].directory && nodes'[p].children[n] in nodes'
    {
      LinkedEdge(nodes, parent, name, next, directory, (p, n));
    }
  }

  lemma LinkedKeys(nodes: Nodes, parent: nat, name: Name, child: nat, directory: bool)
    requires parent in nodes && child !in nodes
    ensures var nodes' := Linked(nodes, parent, name, child, directory);
            && nodes'.Keys == nodes.Keys + {child} && nodes'[child].data == []
            && (forall i :: i in nodes ==> nodes'[i].directory == nodes[i].directory && nodes'[i].data == nodes[i].data)
  {
  }

  lemma UnlinkedEdge(nodes: Nodes, parent: nat, name: Name, e: (nat, Name))
    requires Listed(nodes, (parent, name)) && nodes[parent].children[name] in nodes
    requires nodes[nodes[parent].children[name]].children == map[] && nodes[parent].children[name] != parent
    ensures var nodes' := Unlinked(nodes, parent, name);
            && (Listed(nodes', e) <==> Listed(nodes, e) && e != (parent, name))
            && (Listed(nodes', e) ==> nodes'[e.0].children[e.1] == nodes[e.0].children[e.1])
  {
  }

  lemma UnlinkedKeys(nodes: Nodes, parent: nat, name: Name)
    requires Listed(nodes, (parent, name)) && nodes[parent].children[name] != parent
    ensures var nodes' := Unlinked(nodes, parent, name);
            && nodes'.Keys == nodes.Keys - {nodes[parent].children[name]}
            && (forall i :: i in nodes' ==>
                  nodes'[i].directory == nodes[i].directory && nodes'[i].data == nodes[i].data)
  {
  }

  lemma UnlinkedView(nodes: Nodes, parent: nat, name: Name)
    requires Listed(nodes, (parent, name)) && nodes[parent].children[name] in nodes
    requires nodes[nodes[parent].children[name]].children == map[] && nodes[parent].children[name] != parent
    ensures var v, v' := ViewOf(nodes), ViewOf(Unlinked(nodes, parent, name));
            v' == View(v.root, v.edges - {(parent, name)}, v.dirs - {nodes[parent].children[name]})
  {
    hide ViewOf, Unlinked;
    var nodes' := Unlinked(nodes, parent, name);
    var v, v' := ViewOf(nodes), ViewOf(nodes');
    ViewDirs(nodes);
    ViewDirs(nodes');
    UnlinkedKeys(nodes, parent, name);
    forall e: (nat, Name)
      ensures e in v'.edges <==> e in v.edges && e != (parent, name)
      ensures e in v'.edges ==> v'.edges[e] == v.edges[e]
    {
      UnlinkedEdge(nodes, parent, name, e);
      ViewEdges(nodes, e);
      ViewEdges(nodes', e);
    }
    assert v'.edges == v.edges - {(parent, name)};
    assert v'.dirs == v.dirs - {nodes[parent].children[name]};
  }

  /** `remove` drops one entry and the node behind it. */
  lemma RemoveDrops(nodes: Nodes, next: nat, parent: nat, name: Name)
    requires Sane(nodes, next) && RemoveError(nodes, parent, name).None?
    ensures Drops(ViewOf(nodes), ViewOf(Unlinked(nodes, parent, name)), parent, name)
    ensures Sane(Unlinked(nodes, parent, name), next) && nodes[parent].children[name] != parent
  {
    hide TreeLike, ViewOf, Unlinked;
    var child := nodes[parent].children[name];
    var nodes' := Unlinked(nodes, parent, name);
    var v, v' := ViewOf(nodes), ViewOf(nodes');
    ChildIsElsewhere(nodes, next, parent, name);
    UnlinkedView(nodes, parent, name);
    UnlinkedKeys(nodes, parent, name);
    ViewEdges(nodes, (parent, name));
    forall n
      ensures (child, n) !in v.edges
    {
      ViewEdges(nodes, (child, n));
    }
    DropsKeeps(v, v', parent, name);
    forall p, n | Listed(nodes', (p, n))
      ensures nodes'[p].directory && nodes'[p].children[n] in nodes'
    {
      UnlinkedEdge(nodes, parent, name, (p, n));
      EntriesDiffer(nodes, next, p, n, parent, name);
    }
  }

  lemma ChildIsElsewhere(nodes: Nodes, next: nat, parent: nat, name: Name)
    requires Sane(nodes, next) && RemoveError(nodes, parent, name).None?
    ensures var child := nodes[parent].children[name];
            child != parent && child != ROOT_INODE && child in nodes && nodes[child].children == map[]
  {
    hide ViewOf;
    var child := nodes[parent].children[name];
    assert Listed(nodes, (parent, name));
    ViewEdges(nodes, (parent, name));
    ViewDirs(nodes);
    assert Edge(ViewOf(nodes), parent, name, child);
    forall n
      ensures n !in nodes[child].children
    {
      assert Listed(nodes, (child, n)) ==> nodes[child].directory;
    }
    assert nodes[child].children == map[];
  }

  lemma EntriesDiffer(nodes: Nodes, next: nat, p: nat, n: Name, q: nat, m: Name)
    requires Sane(nodes, next) && Listed(nodes, (p, n)) && Listed(nodes, (q, m)) && (p, n) != (q, m)
    ensures nodes[p].children[n] != nodes[q].children[m]
  {
    hide ViewOf;
    ViewEdges(nodes, (p, n));
    ViewEdges(nodes, (q, m));
    assert Edge(ViewOf(nodes), p, n, nodes[p].children[n]);
    assert Edge(ViewOf(nodes), q, m, nodes[q].children[m]);
  }

  /** Changing the data of a file leaves the tree alone. */
  lemma DataKeepsView(nodes: Nodes, next: nat, inode: nat, data: seq<byte>)
    requires Sane(nodes, next) && inode in nodes
    ensures var nodes' := nodes[inode := nodes[inode].(data := data)];
            ViewOf(nodes') == ViewOf(nodes) && Sane(nodes', next)
  {
    hide TreeLike, ViewOf;
    var nodes' := nodes[inode := nodes[inode].(data := data)];
    var v, v' := ViewOf(nodes), ViewOf(nodes');
    ViewDirs(nodes);
    ViewDirs(nodes');
    forall e: (nat, Name)
      ensures e in v'.edges <==> e in v.edges
      ensures e in v'.edges ==> v'.edges[e] == v.edges[e]
      ensures Listed(nodes', e) <==> Listed(nodes, e)
    {
      ViewEdges(nodes, e);
      ViewEdges(nodes', e);
    }
    assert v'.edges == v.edges && v'.dirs == v.dirs;
  }

  lemma EmptyIsSane()
    ensures Sane(map[ROOT_INODE := EMPTY_DIRECTORY], 2)
  {
  }

  /** The bytes are those of the file from the offset on, as many as there are and as were asked for. */
  ghost predicate Reads(data: seq<byte>, offset: nat, len: nat, bytes: seq<byte>) {
    && |bytes| == (if offset >= |data| then 0 else if len < |data| - offset then len else |data| - offset)
    && forall k :: 0 <= k < |bytes| ==> bytes[k] == data[offset + k]
  }

  lemma ReadsWhole(data: seq<byte>, bytes: seq<byte>)
    requires Reads(data, 0, |data|, bytes)
    ensures bytes == data
  {
  }

  // ----------------------------------------------------------------- the object

  class RamFs {
    var nodes: Nodes
    var next: nat

    ghost predicate Valid()
      reads this
    {
      Sane(nodes, next)
    }

    ghost function Dirs(): View
      reads this
    {
      ViewOf(nodes)
    }

    constructor ()
      ensures Valid() && nodes == map[ROOT_INODE := EMPTY_DIRECTORY]
    {
      EmptyIsSane();
      nodes := map[ROOT_INODE := EMPTY_DIRECTORY];
      next := 2;
    }

    method Lookup(parent: nat, name: Name) returns (r: Result<nat, VfsError>)
      requires Valid()
      ensures r.Err? <==> LookupError(nodes, parent, name).Some?
      ensures r.Err? ==> r.error == LookupError(nodes, parent, name).value
      ensures r.Ok? ==> Edge(Dirs(), parent, name, r.value) && r.value in nodes
      ensures r.Err? ==> (parent, name) !in Dirs().edges || !GoodName(name)
    {
      var bad := LookupError(nodes, parent, name);
      ViewEdges(nodes, (parent, name));
      if bad.Some? {
        r := Err(bad.value);
      } else {
        r := Ok(nodes[parent].children[name]);
        assert Listed(nodes, (parent, name));
      }
    }

    method CreateNode(parent: nat, name: Name, directory: bool) returns (r: Result<nat, VfsError>)
      requires Valid()
      modifies this
      ensures Valid()
      ensures r.Err? <==> CreateError(old(nodes), old(next), parent, name).Some?
      ensures r.Err? ==> r.error == CreateError(old(nodes), old(next), parent, name).value
                         && nodes == old(nodes) && next == old(next)
      ensures r.Ok? ==> && Adds(old(Dirs()), Dirs(), parent, name, r.value, directory) && r.value !in old(nodes)
                        && r.value == old(next) && parent in old(nodes)
                        && nodes == Linked(old(nodes), parent, name, r.value, directory)
    {
      hide ViewOf, Adds, TreeLike;
      var bad := CreateError(nodes, next, parent, name);
      if bad.Some? {
        r := Err(bad.value);
      } else {
        CreateAdds(nodes, next, parent, name, directory);
        var inode := next;
        next := next + 1;
        nodes := nodes[inode := if directory then EMPTY_DIRECTORY else EMPTY_FILE];
        nodes := nodes[parent := nodes[parent].(children := nodes[parent].children[name := inode])];
        r := Ok(inode);
      }
    }

    method Remove(parent: nat, name: Name) returns (r: Result<nat, VfsError>)
      requires Valid()
      modifies this
      ensures Valid() && next == old(next)
      ensures r.Err? <==> RemoveError(old(nodes), parent, name).Some?
      ensures r.Err? ==> r.error == RemoveError(old(nodes), parent, name).value && nodes == old(nodes)
      ensures r.Ok? ==> && Edge(old(Dirs()), parent, name, r.value) && Drops(old(Dirs()), Dirs(), parent, name)
                        && Listed(old(nodes), (parent, name)) && nodes == Unlinked(old(nodes), parent, name)
    {
      hide ViewOf, Drops, TreeLike;
      var bad := RemoveError(nodes, parent, name);
      if bad.Some? {
        r := Err(bad.value);
      } else {
        RemoveDrops(nodes, next, parent, name);
        ViewEdges(nodes, (parent, name));
        var child := nodes[parent].children[name];
        nodes := nodes[parent := nodes[parent].(children := nodes[parent].children - {name})];
        nodes := nodes - {child};
        r := Ok(child);
      }
    }

    /** `read`: what it leaves in a buffer of the given length. */
    method Read(inode: nat, offset: nat, len: nat) returns (r: Result<seq<byte>, VfsError>)
      requires Valid()
      ensures match FileError(nodes, inode)
              case Some(e) => r == Err(e)
              case None =>
                r.Ok? && Reads(nodes[inode].data, offset, len, r.value)
    {
      var bad := FileError(nodes, inode);
      if bad.Some? {
        r := Err(bad.value);
      } else if offset >= |nodes[inode].data| {
        r := Ok([]);
      } else {
        var data := nodes[inode].data;
        var count := if len < |data| - offset then len else |data| - offset;
        r := Ok(data[offset..offset + count]);
      }
    }

    method Write(inode: nat, offset: nat, data: seq<byte>) returns (r: Result<nat, VfsError>)
      requires Valid()
      modifies this`nodes
      ensures Valid() && Dirs() == old(Dirs())
      ensures match FileError(old(nodes), inode)
              case Some(e) => r == Err(e) && nodes == old(nodes)
              case None =>
                if offset + |data| > USIZE_MAX then r == Err(OffsetOverflow) && nodes == old(nodes)
                else
                  && r == Ok(|data|)
                  && nodes == old(nodes)[inode := Node(false, old(nodes)[inode].children,
                                                       Volume.RamWrite(old(nodes)[inode].data, offset, data))]
    {
      var bad := FileError(nodes, inode);
      if bad.Some? {
        r := Err(bad.value);
      } else if offset + |data| > USIZE_MAX {
        r := Err(OffsetOverflow);
      } else {
        var grown := Volume.Resize(nodes[inode].data, offset + |data|);
        var bytes := if offset + |data| > |nodes[inode].data| then grown else nodes[inode].data;
        bytes := bytes[..offset] + data + bytes[offset + |data|..];
        DataKeepsView(nodes, next, inode, bytes);
        nodes := nodes[inode := nodes[inode].(data := bytes)];
        r := Ok(|data|);
      }
    }

    method Truncate(inode: nat, len: nat) returns (r: Result<(), VfsError>)
      requires Valid()
      modifies this`nodes
      ensures Valid() && Dirs() == old(Dirs())
      ensures match FileError(old(nodes), inode)
              case Some(e) => r == Err(e) && nodes == old(nodes)
              case None =>
                && r == Ok(())
                && nodes == old(nodes)[inode := Node(false, old(nodes)[inode].children,
                                                     Volume.Resize(old(nodes)[inode].data, len))]
    {
      var bad := FileError(nodes, inode);
      if bad.Some? {
        r := Err(bad.value);
      } else {
        DataKeepsView(nodes, next, inode, Volume.Resize(nodes[inode].data, len));
        nodes := nodes[inode := nodes[inode].(data := Volume.Resize(nodes[inode].data, len))];
        r := Ok(());
      }
    }
  }
}

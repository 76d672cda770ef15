/** The mounted filesystems seen from outside: one tree, a map from paths to what is there. */
module PathTree {
  import opened Wrappers
  import opened LittleEndian
  import opened Paths
  import opened Routing
  import opened DirTree
  import opened RamFs

  datatype Entry = Directory | File(data: seq<byte>)

  /** Paths are given by their components. */
  type Tree = imap<seq<Name>, Entry>

  /** A mounted filesystem as a value. */
  datatype Part = Part(at: seq<Name>, nodes: Nodes)

  function PointsOf(vs: seq<Part>): (points: seq<seq<Name>>)
    ensures |points| == |vs|
  {
    seq(|vs|, i requires 0 <= i < |vs| => vs[i].at)
  }

  function EntryOf(node: Node): Entry {
    if node.directory then Directory else File(node.data)
  }

  /** What the names lead to inside one filesystem. */
  ghost function Found(nodes: Nodes, names: seq<Name>): Option<Entry> {
    var inode := Walk(ViewOf(nodes), names);
    if inode.Some? && inode.value in nodes then Some(EntryOf(nodes[inode.value])) else None
  }

  /** What a path leads to: its longest mounted prefix tells in which filesystem to look. */
  ghost function At(vs: seq<Part>, p: seq<Name>): Option<Entry> {
    if i: nat :| IsRoute(PointsOf(vs), p, i) then Found(vs[i].nodes, p[|vs[i].at|..]) else None
  }

  ghost function TreeOf(vs: seq<Part>): Tree {
    imap p: seq<Name> | At(vs, p).Some? :: At(vs, p).value
  }

  lemma AtRoute(vs: seq<Part>, p: seq<Name>, i: nat)
    requires Distinct(PointsOf(vs)) && IsRoute(PointsOf(vs), p, i)
    ensures vs[i].at <= p && At(vs, p) == Found(vs[i].nodes, p[|vs[i].at|..])
  {
    hide Found;
    var points := PointsOf(vs);
    forall j: nat | IsRoute(points, p, j)
      ensures j == i
    {
      RouteUnique(points, points, p, i, j);
    }
  }

  /** The directory above an entry belongs to the same filesystem. */
  lemma RouteAbove(points: seq<seq<Name>>, p: seq<Name>, i: nat)
    requires IsRoute(points, p, i) && points[i] < p
    ensures IsRoute(points, p[..|p| - 1], i)
  {
    var above := p[..|p| - 1];
    assert points[i] <= above;
    forall j | 0 <= j < |points| && points[j] <= above
      ensures points[j] <= p
    {
      assert above <= p;
    }
  }

  // ------------------------------------------------------------ one filesystem

  /** In one filesystem: `names` leads to the entry now, or to nothing, and all else is as it was. */
  ghost predicate Becomes(nodes: Nodes, nodes': Nodes, names: seq<Name>, entry: Option<Entry>) {
    forall q :: Found(nodes', q) == if q == names then entry else Found(nodes, q)
  }

  lemma DataBecomes(nodes: Nodes, next: nat, names: seq<Name>, inode: nat, data: seq<byte>)
    requires Sane(nodes, next) && inode in nodes && !nodes[inode].directory
    requires Walk(ViewOf(nodes), names) == Some(inode)
    ensures Becomes(nodes, nodes[inode := nodes[inode].(data := data)], names, Some(File(data)))
  {
    hide ViewOf, TreeLike, Walk;
    DataKeepsView(nodes, next, inode, data);
    forall q | Walk(ViewOf(nodes), q) == Some(inode)
      ensures q == names
    {
      WalkUnique(ViewOf(nodes), q, names);
    }
  }

  /** After an addition, only the new entry leads anywhere new. */
  lemma {:induction false} AddsOnly(v: View, v': View, parent: nat, name: Name, child: nat, directory: bool,
                                    names: seq<Name>)
    requires TreeLike(v) && Adds(v, v', parent, name, child, directory)
    requires Walk(v', names).Some? && Walk(v', names).value != child
    ensures Walk(v, names) == Walk(v', names)
    decreases |names|
  {
    if names != [] {
      var before, last := names[..|names| - 1], names[|names| - 1];
      var holder := Walk(v', before).value;
      assert (child, last) !in v.edges by {
        assert (child, last) in v.edges ==> Edge(v, child, last, v.edges[(child, last)]);
      }
      assert holder != child;
      AddsOnly(v, v', parent, name, child, directory, before);
    }
  }

  lemma WalkLast(v: View, names: seq<Name>)
    requires names != [] && Walk(v, names[..|names| - 1]).Some?
    ensures var step := (Walk(v, names[..|names| - 1]).value, names[|names| - 1]);
            Walk(v, names) == if step in v.edges then Some(v.edges[step]) else None
  {
  }

  lemma CreateBecomes(nodes: Nodes, next: nat, names: seq<Name>, directory: bool)
    requires Sane(nodes, next) && names != [] && Walk(ViewOf(nodes), names[..|names| - 1]).Some?
    requires CreateError(nodes, next, Walk(ViewOf(nodes), names[..|names| - 1]).value, names[|names| - 1]).None?
    ensures next !in nodes
    ensures var parent := Walk(ViewOf(nodes), names[..|names| - 1]).value;
            Becomes(nodes, Linked(nodes, parent, names[|names| - 1], next, directory), names,
                    Some(if directory then Directory else File([])))
  {
    hide ViewOf, TreeLike, Walk, Linked, Adds;
    var v := ViewOf(nodes);
    var above, last := names[..|names| - 1], names[|names| - 1];
    var parent := Walk(v, above).value;
    CreateAdds(nodes, next, parent, last, directory);
    var nodes' := Linked(nodes, parent, last, next, directory);
    var v' := ViewOf(nodes');
    AddsWalk(v, v', parent, last, next, directory, above);
    NewEntry(nodes, next, parent, last, directory);
    WalkLast(v', names);
    forall q
      ensures Found(nodes', q) ==
              if q == names then Some(if directory then Directory else File([])) else Found(nodes, q)
    {
      CreateFound(nodes, next, parent, names, directory, q);
    }
  }

  lemma NewEntry(nodes: Nodes, next: nat, parent: nat, name: Name, directory: bool)
    requires Sane(nodes, next) && parent in nodes && next !in nodes
    ensures var nodes' := Linked(nodes, parent, name, next, directory);
            && Edge(ViewOf(nodes'), parent, name, next) && TreeLike(ViewOf(nodes))
            && next in nodes' && EntryOf(nodes'[next]) == (if directory then Directory else File([]))
            && (forall i :: i in nodes ==> i in nodes' && EntryOf(nodes'[i]) == EntryOf(nodes[i]))
            && (forall i :: i in nodes' ==> i in nodes || i == next)
  {
    hide ViewOf, TreeLike;
    LinkedView(nodes, parent, name, next, directory);
  }

  lemma CreateFound(nodes: Nodes, next: nat, parent: nat, names: seq<Name>, directory: bool, q: seq<Name>)
    requires Sane(nodes, next) && parent in nodes && next !in nodes && names != []
    requires var nodes' := Linked(nodes, parent, names[|names| - 1], next, directory);
             && Adds(ViewOf(nodes), ViewOf(nodes'), parent, names[|names| - 1], next, directory)
             && TreeLike(ViewOf(nodes')) && Walk(ViewOf(nodes'), names) == Some(next)
    ensures Found(Linked(nodes, parent, names[|names| - 1], next, directory), q) ==
            if q == names then Some(if directory then Directory else File([])) else Found(nodes, q)
  {
    hide ViewOf, TreeLike, Walk, Linked, Adds, Sane;
    var last := names[|names| - 1];
    var nodes' := Linked(nodes, parent, last, next, directory);
    var v, v' := ViewOf(nodes), ViewOf(nodes');
    NewEntry(nodes, next, parent, last, directory);
    if Walk(v', q) == Some(next) {
      WalkUnique(v', q, names);
    } else if Walk(v', q).Some? {
      AddsOnly(v, v', parent, last, next, directory, q);
    } else if Walk(v, q).Some? {
      AddsWalk(v, v', parent, last, next, directory, q);
    }
  }

  /** A removal leads nowhere new. */
  lemma {:induction false} DropsOnly(v: View, v': View, parent: nat, name: Name, names: seq<Name>)
    requires Drops(v, v', parent, name) && Walk(v', names).Some?
    ensures Walk(v, names) == Walk(v', names)
    decreases |names|
  {
    if names != [] {
      DropsOnly(v, v', parent, name, names[..|names| - 1]);
    }
  }

  lemma RemoveBecomes(nodes: Nodes, next: nat, names: seq<Name>)
    requires Sane(nodes, next) && names != [] && Walk(ViewOf(nodes), names[..|names| - 1]).Some?
    requires RemoveError(nodes, Walk(ViewOf(nodes), names[..|names| - 1]).value, names[|names| - 1]).None?
    ensures var parent := Walk(ViewOf(nodes), names[..|names| - 1]).value;
            Becomes(nodes, Unlinked(nodes, parent, names[|names| - 1]), names, None)
  {
    hide ViewOf, TreeLike, Walk, Unlinked, Drops;
    var v := ViewOf(nodes);
    var above, last := names[..|names| - 1], names[|names| - 1];
    var parent := Walk(v, above).value;
    var child := nodes[parent].children[last];
    RemoveDrops(nodes, next, parent, last);
    UnlinkedKeys(nodes, parent, last);
    ViewEdges(nodes, (parent, last));
    WalkLast(v, names);
    var nodes' := Unlinked(nodes, parent, last);
    forall q
      ensures Found(nodes', q) == if q == names then None else Found(nodes, q)
    {
      if Walk(v, q) == Some(child) {
        WalkUnique(v, q, names);
      } else if Walk(v, q).Some? {
        DropsWalk(v, ViewOf(nodes'), parent, last, q);
      }
      if Walk(ViewOf(nodes'), q).Some? {
        DropsOnly(v, ViewOf(nodes'), parent, last, q);
      }
    }
  }

  // ------------------------------------------------------------- all of them

  /** What a change in the filesystem a path belongs to means for the whole tree. */
  lemma TreeBecomes(vs: seq<Part>, i: nat, p: seq<Name>, nodes': Nodes, entry: Option<Entry>)
    requires Distinct(PointsOf(vs)) && IsRoute(PointsOf(vs), p, i)
    requires Becomes(vs[i].nodes, nodes', p[|vs[i].at|..], entry)
    ensures var vs' := vs[i := Part(vs[i].at, nodes')];
            forall q :: At(vs', q) == if q == p then entry else At(vs, q)
  {
    hide Becomes, At, Found, Distinct;
    var vs' := vs[i := Part(vs[i].at, nodes')];
    assert PointsOf(vs') == PointsOf(vs);
    forall q
      ensures At(vs', q) == if q == p then entry else At(vs, q)
    {
      AtBecomes(vs, i, p, nodes', entry, q);
    }
  }

  lemma AtBecomes(vs: seq<Part>, i: nat, p: seq<Name>, nodes': Nodes, entry: Option<Entry>, q: seq<Name>)
    requires Distinct(PointsOf(vs)) && IsRoute(PointsOf(vs), p, i)
    requires Becomes(vs[i].nodes, nodes', p[|vs[i].at|..], entry)
    ensures At(vs[i := Part(vs[i].at, nodes')], q) == if q == p then entry else At(vs, q)
  {
    hide Found, Distinct;
    var vs' := vs[i := Part(vs[i].at, nodes')];
    assert PointsOf(vs') == PointsOf(vs);
    if j: nat :| IsRoute(PointsOf(vs), q, j) {
      hide At, Becomes, IsRoute;
      AtRoute(vs, q, j);
      AtRoute(vs', q, j);
      if j == i {
        SameRest(vs[i].at, p, q);
        BecomesAt(vs[i].nodes, nodes', p[|vs[i].at|..], entry, q[|vs[i].at|..]);
      } else if p == q {
        RouteUnique(PointsOf(vs), PointsOf(vs), p, i, j);
      }
    } else {
      assert q != p;
    }
  }

  lemma SameRest(at: seq<Name>, p: seq<Name>, q: seq<Name>)
    requires at <= p && at <= q
    ensures p == q <==> p[|at|..] == q[|at|..]
  {
    assert p == at + p[|at|..] && q == at + q[|at|..];
  }

  lemma BecomesAt(nodes: Nodes, nodes': Nodes, names: seq<Name>, entry: Option<Entry>, q: seq<Name>)
    requires Becomes(nodes, nodes', names, entry)
    ensures Found(nodes', q) == if q == names then entry else Found(nodes, q)
  {
  }

  function NewNode(directory: bool): Entry {
    if directory then Directory else File([])
  }

  /** A path with nothing there, in a directory. */
  ghost predicate Vacant(t: Tree, p: seq<Name>) {
    p !in t && p != [] && var above := p[..|p| - 1]; above in t && t[above] == Directory
  }

  /** In the filesystem a path belongs to, the walk says what the tree holds there. */
  lemma TreeByWalk(vs: seq<Part>, i: nat, p: seq<Name>, next: nat)
    requires Distinct(PointsOf(vs)) && IsRoute(PointsOf(vs), p, i) && Sane(vs[i].nodes, next)
    ensures vs[i].at <= p
    ensures var (t, inode) := (TreeOf(vs), Walk(ViewOf(vs[i].nodes), p[|vs[i].at|..]));
            && (p in t <==> inode.Some?)
            && (inode.Some? ==> inode.value in vs[i].nodes && t[p] == EntryOf(vs[i].nodes[inode.value]))
  {
    hide ViewOf, Distinct, TreeLike, At;
    AtRoute(vs, p, i);
    WalkInNodes(vs[i].nodes, next, p[|vs[i].at|..]);
  }

  /** The root is always there and is a directory. */
  lemma RootIsDirectory(vs: seq<Part>, next: nat)
    requires Distinct(PointsOf(vs)) && vs != [] && vs[0].at == [] && Sane(vs[0].nodes, next)
    ensures [] in TreeOf(vs) && TreeOf(vs)[[]] == Directory
  {
    hide Distinct, TreeOf;
    TreeByWalk(vs, 0, [], next);
    ViewDirs(vs[0].nodes);
  }

  lemma WalkInNodes(nodes: Nodes, next: nat, names: seq<Name>)
    requires Sane(nodes, next)
    ensures Walk(ViewOf(nodes), names).Some? ==> Walk(ViewOf(nodes), names).value in nodes
  {
    hide ViewOf, TreeLike;
    ViewDirs(nodes);
    if names != [] && Walk(ViewOf(nodes), names).Some? {
      var parent := Walk(ViewOf(nodes), names[..|names| - 1]).value;
      ViewEdges(nodes, (parent, names[|names| - 1]));
    }
  }

  /** The directory that holds the last name of a path, in the filesystem the path belongs to. */
  ghost predicate HeldBy(part: Part, p: seq<Name>, names: seq<Name>, parent: nat) {
    part.at < p && names == p[|part.at|..] && Walk(ViewOf(part.nodes), names[..|names| - 1]) == Some(parent)
  }

  lemma CreatedIn(vs: seq<Part>, i: nat, p: seq<Name>, next: nat, directory: bool, names: seq<Name>, parent: nat)
    requires Distinct(PointsOf(vs)) && IsRoute(PointsOf(vs), p, i) && Sane(vs[i].nodes, next)
    requires HeldBy(vs[i], p, names, parent) && CreateError(vs[i].nodes, next, parent, names[|names| - 1]).None?
    ensures next !in vs[i].nodes
    ensures TreeOf(vs[i := Part(vs[i].at, Linked(vs[i].nodes, parent, names[|names| - 1], next, directory))]) ==
            TreeOf(vs)[p := NewNode(directory)]
  {
    hide ViewOf, Walk, Sane, Linked, Becomes, Distinct, At;
    CreateBecomes(vs[i].nodes, next, names, directory);
    TreeBecomes(vs, i, p, Linked(vs[i].nodes, parent, names[|names| - 1], next, directory), Some(NewNode(directory)));
  }

  lemma RemovedFrom(vs: seq<Part>, i: nat, p: seq<Name>, next: nat, names: seq<Name>, parent: nat)
    requires Distinct(PointsOf(vs)) && IsRoute(PointsOf(vs), p, i) && Sane(vs[i].nodes, next)
    requires HeldBy(vs[i], p, names, parent) && RemoveError(vs[i].nodes, parent, names[|names| - 1]).None?
    ensures TreeOf(vs[i := Part(vs[i].at, Unlinked(vs[i].nodes, parent, names[|names| - 1]))]) == TreeOf(vs) - {p}
  {
    hide ViewOf, Walk, Sane, Unlinked, Becomes, Distinct, At;
    RemoveBecomes(vs[i].nodes, next, names);
    TreeBecomes(vs, i, p, Unlinked(vs[i].nodes, parent, names[|names| - 1]), None);
  }

  lemma DataIn(vs: seq<Part>, i: nat, p: seq<Name>, next: nat, inode: nat, data: seq<byte>)
    requires Distinct(PointsOf(vs)) && IsRoute(PointsOf(vs), p, i) && Sane(vs[i].nodes, next)
    requires Walk(ViewOf(vs[i].nodes), p[|vs[i].at|..]) == Some(inode)
    requires inode in vs[i].nodes && !vs[i].nodes[inode].directory
    ensures var nodes := vs[i].nodes;
            TreeOf(vs[i := Part(vs[i].at, nodes[inode := nodes[inode].(data := data)])]) == TreeOf(vs)[p := File(data)]
  {
    hide ViewOf, Walk, Sane, Becomes, Distinct, At;
    var nodes := vs[i].nodes;
    DataBecomes(nodes, next, p[|vs[i].at|..], inode, data);
    TreeBecomes(vs, i, p, nodes[inode := nodes[inode].(data := data)], Some(File(data)));
  }

  /** A mount hides what was at and below its path, up to the mounts that are deeper still. */
  ghost predicate Hides(vs: seq<Part>, p: seq<Name>, q: seq<Name>) {
    p <= q && forall j :: 0 <= j < |vs| && vs[j].at <= q ==> |vs[j].at| < |p|
  }

  lemma TreeMounts(vs: seq<Part>, p: seq<Name>, nodes: Nodes, q: seq<Name>)
    requires Distinct(PointsOf(vs)) && p !in PointsOf(vs) && vs != [] && vs[0].at == []
    ensures At(vs + [Part(p, nodes)], q) == if Hides(vs, p, q) then Found(nodes, q[|p|..]) else At(vs, q)
  {
    hide Found, At;
    var vs' := vs + [Part(p, nodes)];
    var points, points' := PointsOf(vs), PointsOf(vs');
    assert points' == points + [p];
    var i := SomeRoute(points, q);
    AtRoute(vs, q, i);
    assert forall j :: 0 <= j < |vs| ==> points[j] == vs[j].at;
    if Hides(vs, p, q) {
      AtRoute(vs', q, |vs|);
    } else {
      if p <= q {
        var j :| 0 <= j < |vs| && vs[j].at <= q && |vs[j].at| >= |p|;
        assert |points[j]| <= |points[i]|;
      }
      AtRoute(vs', q, i);
    }
  }

  lemma {:induction false} SomeRoute(points: seq<seq<Name>>, q: seq<Name>) returns (i: nat)
    requires points != [] && points[0] == []
    ensures IsRoute(points, q, i)
    decreases |points|
  {
    var n := |points| - 1;
    if n == 0 {
      i := 0;
    } else {
      i := SomeRoute(points[..n], q);
      RouteNext(points, q, n, i);
      assert points[..n + 1] == points;
      i := if points[n] <= q && |points[n]| > |points[i]| then n else i;
    }
  }
}

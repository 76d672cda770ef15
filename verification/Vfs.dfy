/** The VFS over memory filesystems: pathname resolution, mounting, creating and removing. */
module Vfs {
  import opened Wrappers
  import opened Units
  import opened VfsErrors
  import opened LittleEndian
  import opened Paths
  import opened Routing
  import opened DirTree
  import opened MountRuns
  import opened RamFs
  import opened PathTree
  import Data = GenericFsVolume

  // ---------------------------------------------------------------- resolution

  lemma SplitRelative(names: seq<Name>)
    requires GoodNames(names) && names != []
    ensures Render(names) != [] && Render(names)[0] == SLASH && Split(Render(names)[1..]) == names
    ensures Render(names) != [SLASH]
  {
    hide Slashed;
    SlashedLength(names);
    SplitSlashed(names);
    var rest := Split(Render(names)[1..]);
    assert Split(Render(names)) == [[]] + rest;
    assert ([[]] + rest)[1..] == rest && ([[]] + names)[1..] == names;
  }

  /** A walk that fails at some name fails. */
  lemma WalkStops(v: View, names: seq<Name>, k: nat)
    requires k < |names| && Walk(v, names[..k]).Some? && (Walk(v, names[..k]).value, names[k]) !in v.edges
    ensures Walk(v, names).None?
  {
    assert names[..k + 1][..k] == names[..k];
    assert Walk(v, names[..k + 1]).None?;
    if Walk(v, names).Some? {
      WalkPrefix(v, names, k + 1);
    }
  }

  /** Why a walk fails: at a file on the way, or because a directory on the way has no such entry. */
  ghost predicate Misses(v: View, names: seq<Name>, why: VfsError) {
    exists k :: 0 <= k < |names| && MissesAt(v, names, k, why)
  }

  ghost predicate MissesAt(v: View, names: seq<Name>, k: nat, why: VfsError)
    requires k < |names|
  {
    var at := Walk(v, names[..k]);
    && at.Some? && (at.value, names[k]) !in v.edges
    && why == if at.value in v.dirs then NotFound else NotDirectory
  }

  lemma StopsWhere(v: View, names: seq<Name>, k: nat, why: VfsError)
    requires k < |names| && MissesAt(v, names, k, why)
    ensures Misses(v, names, why)
  {
  }

  /** Where the directory that should hold the entry exists, the entry is just not found. */
  lemma MissesInDirectory(v: View, names: seq<Name>, why: VfsError)
    requires Misses(v, names, why)
    ensures why == NotFound || why == NotDirectory
    ensures Walk(v, names[..|names| - 1]).Some? && Walk(v, names[..|names| - 1]).value in v.dirs ==> why == NotFound
  {
    var k :| 0 <= k < |names| && MissesAt(v, names, k, why);
    var above := names[..|names| - 1];
    if k < |above| && Walk(v, above).Some? {
      assert above[..k] == names[..k];
      WalkStops(v, above, k);
    }
  }

  lemma WalkNothing(v: View)
    ensures Walk(v, []) == Some(v.root)
  {
  }

  lemma RootInNodes(nodes: Nodes, next: nat)
    requires Sane(nodes, next)
    ensures ROOT_INODE in nodes
  {
  }

  /** One component on the way. */
  method ResolveName(fs: RamFs, inode: nat, name: Name, ghost names: seq<Name>, ghost k: nat)
    returns (r: Result<nat, VfsError>)
    requires fs.Valid() && GoodNames(names) && k < |names| && name == names[k] && inode in fs.nodes
    requires Walk(fs.Dirs(), names[..k]) == Some(inode)
    ensures r.Ok? ==> Walk(fs.Dirs(), names[..k + 1]) == Some(r.value) && r.value in fs.nodes
    ensures r.Err? ==> Walk(fs.Dirs(), names).None? && Misses(fs.Dirs(), names, r.error)
  {
    hide ViewOf, TreeLike, Misses;
    ViewDirs(fs.nodes);
    assert GoodName(names[k]);
    assert names[..k + 1][..k] == names[..k];
    r := fs.Lookup(inode, name);
    if r.Err? {
      WalkStops(fs.Dirs(), names, k);
      StopsWhere(fs.Dirs(), names, k, r.error);
    }
  }

  /** `resolve_inode`. */
  method ResolveInode(fs: RamFs, path: Path, ghost names: seq<Name>) returns (r: Result<nat, VfsError>)
    requires fs.Valid() && GoodNames(names) && path == Render(names)
    ensures r.Ok? <==> Walk(fs.Dirs(), names).Some?
    ensures r.Ok? ==> Walk(fs.Dirs(), names) == Some(r.value) && r.value in fs.nodes
    ensures r.Err? ==> Misses(fs.Dirs(), names, r.error)
  {
    hide ViewOf, TreeLike, Walk, Misses, Split, Sane;
    WalkNothing(fs.Dirs());
    if path == [SLASH] {
      RootOnly(names);
      ViewDirs(fs.nodes);
      RootInNodes(fs.nodes, fs.next);
      r := Ok(ROOT_INODE);
    } else {
      SplitRelative(names);
      var parts, k := Split(path[1..]), 0;
      r := Ok(ROOT_INODE);
      ViewDirs(fs.nodes);
      RootInNodes(fs.nodes, fs.next);
      assert names[..0] == [];
      while k < |parts| && r.Ok?
        invariant k <= |parts| && (r.Ok? ==> r.value in fs.nodes)
        invariant r.Ok? ==> Walk(fs.Dirs(), names[..k]) == Some(r.value)
        invariant r.Err? ==> Walk(fs.Dirs(), names).None? && Misses(fs.Dirs(), names, r.error)
        decreases |parts| - k, if r.Ok? then 1 else 0
      {
        r := ResolveName(fs, r.value, parts[k], names, k);
        k := k + 1;
      }
      assert k == |parts| ==> names[..k] == names;
    }
  }

  lemma RootOnly(names: seq<Name>)
    requires GoodNames(names) && Render(names) == [SLASH]
    ensures names == []
  {
    if names != [] {
      SplitRelative(names);
    }
  }

  /** `rsplit_once('/')` on an absolute path. */
  method SplitLast(path: Path) returns (parent: Path, name: Name)
    requires path != [] && path[0] == SLASH
    ensures path == parent + [SLASH] + name && SLASH !in name
  {
    var k := |path| - 1;
    while path[k] != SLASH
      invariant 0 <= k < |path| && SLASH !in path[k + 1..]
      decreases k
    {
      k := k - 1;
    }
    parent, name := path[..k], path[k + 1..];
  }

  /** The last slash of a canonical path separates the last name from the others. */
  lemma LastSlash(names: seq<Name>, parent: Path, name: Name)
    requires GoodNames(names) && names != [] && Render(names) == parent + [SLASH] + name && SLASH !in name
    ensures name == names[|names| - 1] && parent == Slashed(names[..|names| - 1])
  {
    hide Slashed, Split;
    var n := |names| - 1;
    assert GoodName(names[n]);
    SlashedLast(names);
    var whole := Slashed(names[..n]) + [SLASH] + names[n];
    assert whole == parent + [SLASH] + name;
    LastSlashUnique(Slashed(names[..n]), names[n], parent, name);
  }

  lemma LastSlashUnique(a: Path, x: Name, b: Path, y: Name)
    requires a + [SLASH] + x == b + [SLASH] + y && SLASH !in x && SLASH !in y
    ensures a == b && x == y
  {
    var s := a + [SLASH] + x;
    assert s[|a|] == SLASH && s[|b|] == SLASH;
    forall i | |a| < i < |s|
      ensures s[i] != SLASH
    {
      assert s[i] == x[i - |a| - 1];
    }
    forall i | |b| < i < |s|
      ensures s[i] != SLASH
    {
      assert s[i] == y[i - |b| - 1];
    }
    assert s[..|a|] == a && s[..|b|] == b && s[|a| + 1..] == x && s[|b| + 1..] == y;
  }

  /** `resolve_parent`: the directory that holds the last name of a relative path. */
  method ResolveParent(fs: RamFs, path: Path, ghost names: seq<Name>) returns (r: Result<(nat, Name), VfsError>)
    requires fs.Valid() && GoodNames(names) && path == Render(names)
    ensures names == [] ==> r == Err(RootImmutable)
    ensures names != [] ==>
              var parent := Walk(fs.Dirs(), names[..|names| - 1]);
              && (r.Ok? <==> parent.Some? && parent.value in fs.Dirs().dirs)
              && (r.Ok? ==> r.value == (parent.value, names[|names| - 1]))
              && (r.Err? ==> r.error == NotFound || r.error == NotDirectory)
  {
    hide ViewOf, TreeLike, Slashed;
    if path == [SLASH] {
      RootOnly(names);
      r := Err(RootImmutable);
    } else {
      SplitRelative(names);
      var parentPath, name := SplitLast(path);
      LastSlash(names, parentPath, name);
      assert GoodName(names[|names| - 1]) && GoodNames(names[..|names| - 1]);
      var above := if parentPath == [] then [SLASH] else parentPath;
      SlashedEmpty(names[..|names| - 1]);
      var parent := ResolveInode(fs, above, names[..|names| - 1]);
      ViewDirs(fs.nodes);
      if parent.Err? {
        MissesInDirectory(fs.Dirs(), names[..|names| - 1], parent.error);
        r := Err(parent.error);
      } else if !fs.nodes[parent.value].directory {
        r := Err(NotDirectory);
      } else {
        r := Ok((parent.value, name));
      }
    }
  }

  lemma SlashedEmpty(names: seq<Name>)
    requires GoodNames(names)
    ensures Slashed(names) == [] <==> names == []
    ensures Render(names) == if Slashed(names) == [] then [SLASH] else Slashed(names)
  {
    SlashedLength(names);
  }

  // ---------------------------------------------------------------- the object

  datatype Attached = Attached(path: Path, fs: RamFs)

  function PathsOf(mounts: seq<Attached>): (paths: seq<Path>)
    ensures |paths| == |mounts|
  {
    seq(|mounts|, i requires 0 <= i < |mounts| => mounts[i].path)
  }

  /** The filesystems, mount by mount. */
  ghost function PartsOf(mounts: seq<Attached>, points: seq<seq<Name>>): (vs: seq<Part>)
    requires |mounts| == |points|
    reads set m | m in mounts :: m.fs
    ensures |vs| == |mounts| && PointsOf(vs) == points
    ensures forall i :: 0 <= i < |vs| ==> vs[i] == Part(points[i], mounts[i].fs.nodes)
  {
    if mounts == [] then []
    else
      var n := |mounts| - 1;
      var vs := PartsOf(mounts[..n], points[..n]) + [Part(points[n], mounts[n].fs.nodes)];
      assert PointsOf(vs) == points;
      vs
  }

  /** What the filesystems look like to runs of mounts. */
  ghost function MountsOf(vs: seq<Part>): (ms: Mounts)
    ensures |ms| == |vs| && Points(ms) == PointsOf(vs)
    ensures forall i :: 0 <= i < |ms| ==> ms[i] == Mount(vs[i].at, ViewOf(vs[i].nodes))
  {
    seq(|vs|, i requires 0 <= i < |vs| => Mount(vs[i].at, ViewOf(vs[i].nodes)))
  }

  /** Path `p` names an entry that exists and has no entries of its own, and is no mount point. */
  ghost predicate Removable(ms: Mounts, i: nat, p: seq<Name>)
    requires i < |ms|
  {
    && ms[i].at < p && Holder(ms, i, p).Some? && (Holder(ms, i, p).value, p[|p| - 1]) in ms[i].view.edges
    && var child := ms[i].view.edges[(Holder(ms, i, p).value, p[|p| - 1])];
       forall n :: (child, n) !in ms[i].view.edges
  }

  /** Path `p` names no entry of a directory that exists, and is no mount point. */
  ghost predicate Creatable(ms: Mounts, i: nat, p: seq<Name>)
    requires i < |ms|
  {
    && ms[i].at < p && Holder(ms, i, p).Some? && Holder(ms, i, p).value in ms[i].view.dirs
    && (Holder(ms, i, p).value, p[|p| - 1]) !in ms[i].view.edges
  }

  /** Path `p` is a directory below the root and no mount point. */
  ghost predicate Mountable(ms: Mounts, i: nat, p: seq<Name>)
    requires i < |ms| && ms[i].at <= p
  {
    && p != [] && p !in Points(ms)
    && var dir := Walk(ms[i].view, p[|ms[i].at|..]);
       dir.Some? && dir.value in ms[i].view.dirs
  }

  lemma RemovableIff(nodes: Nodes, next: nat, parent: nat, name: Name)
    requires Sane(nodes, next) && GoodName(name) && parent in ViewOf(nodes).dirs
    ensures RemoveError(nodes, parent, name).None? <==>
            && (parent, name) in ViewOf(nodes).edges
            && forall n :: (ViewOf(nodes).edges[(parent, name)], n) !in ViewOf(nodes).edges
  {
    hide ViewOf, TreeLike;
    ViewDirs(nodes);
    ViewEdges(nodes, (parent, name));
    if Listed(nodes, (parent, name)) {
      var child := nodes[parent].children[name];
      forall n
        ensures (child, n) in ViewOf(nodes).edges <==> Listed(nodes, (child, n))
      {
        ViewEdges(nodes, (child, n));
      }
      if nodes[child].children != map[] {
        var n :| n in nodes[child].children;
        assert Listed(nodes, (child, n));
      }
    }
  }

  lemma EntriesInDirectories(nodes: Nodes, next: nat)
    requires Sane(nodes, next)
    ensures forall e :: e in ViewOf(nodes).edges ==> e.0 in ViewOf(nodes).dirs
  {
    hide ViewOf;
    forall e | e in ViewOf(nodes).edges
      ensures e.0 in ViewOf(nodes).dirs
    {
      assert Edge(ViewOf(nodes), e.0, e.1, ViewOf(nodes).edges[e]);
    }
  }

  lemma CreatableIff(nodes: Nodes, next: nat, parent: nat, name: Name)
    requires Sane(nodes, next) && GoodName(name) && parent in ViewOf(nodes).dirs
    ensures var bad := CreateError(nodes, next, parent, name);
            bad.None? || bad == Some(InodeExhausted) <==> (parent, name) !in ViewOf(nodes).edges
  {
    hide ViewOf, TreeLike;
    ViewDirs(nodes);
    ViewEdges(nodes, (parent, name));
  }

  // ------------------------------------------------------------------ the tree

  /** Path `p` belongs to filesystem `i`, which is in order. */
  ghost predicate Placed(vs: seq<Part>, i: nat, p: seq<Name>, next: nat) {
    Distinct(PointsOf(vs)) && IsRoute(PointsOf(vs), p, i) && Sane(vs[i].nodes, next) && GoodNames(p)
  }

  lemma CreatableIsVacant(vs: seq<Part>, i: nat, p: seq<Name>, next: nat)
    requires Placed(vs, i, p, next)
    ensures Creatable(MountsOf(vs), i, p) <==> Vacant(TreeOf(vs), p)
  {
    hide ViewOf, Distinct, TreeLike, TreeOf, Sane;
    var ms := MountsOf(vs);
    TreeByWalk(vs, i, p, next);
    ViewDirs(vs[i].nodes);
    if ms[i].at < p {
      RouteAbove(PointsOf(vs), p, i);
      TreeByWalk(vs, i, p[..|p| - 1], next);
      HolderIsParent(ms, i, p);
      var names := p[|vs[i].at|..];
      assert p[..|p| - 1][|vs[i].at|..] == names[..|names| - 1];
    } else {
      assert p[|vs[i].at|..] == [];
    }
  }

  /** What `create_file` and `create_dir` do: in the tree, and as a step of the mount runs. */
  ghost predicate CreateDone(
      vs: seq<Part>, vs': seq<Part>, i: nat, p: seq<Name>, directory: bool, r: Result<nat, VfsError>) {
    && IsRoute(PointsOf(vs), p, i) && (r.Ok? || r == Err(InodeExhausted) <==> Vacant(TreeOf(vs), p))
    && Step(MountsOf(vs), if r.Ok? then Created(i, p, directory) else Nothing, MountsOf(vs'))
    && TreeOf(vs') == if r.Ok? then TreeOf(vs)[p := NewNode(directory)] else TreeOf(vs)
  }

  /** What `remove` does. */
  ghost predicate RemoveDone(vs: seq<Part>, vs': seq<Part>, i: nat, p: seq<Name>, r: Result<nat, VfsError>) {
    && IsRoute(PointsOf(vs), p, i) && (r.Ok? <==> Removable(MountsOf(vs), i, p))
    && Step(MountsOf(vs), if r.Ok? then Removed(i, p) else Nothing, MountsOf(vs'))
    && TreeOf(vs') == if r.Ok? then TreeOf(vs) - {p} else TreeOf(vs)
  }

  /** The directory that should hold an entry, in the filesystem its path belongs to. */
  ghost function Above(vs: seq<Part>, i: nat, p: seq<Name>): Option<nat>
    requires i < |vs| && vs[i].at < p
  {
    var names := p[|vs[i].at|..];
    Walk(ViewOf(vs[i].nodes), names[..|names| - 1])
  }

  /** What `resolve_parent` says of a path in the filesystem it belongs to. */
  ghost predicate HolderFound(vs: seq<Part>, i: nat, p: seq<Name>, r: Result<(nat, nat, Name), VfsError>)
    requires i < |vs|
  {
    match r
    case Err(why) =>
      && why != InodeExhausted
      && (vs[i].at < p && Above(vs, i, p).Some? ==> Above(vs, i, p).value !in ViewOf(vs[i].nodes).dirs)
    case Ok((index, parent, name)) =>
      && index == i && vs[i].at < p && Above(vs, i, p) == Some(parent)
      && parent in ViewOf(vs[i].nodes).dirs && name == p[|p| - 1]
  }

  lemma NothingDone(vs: seq<Part>, i: nat, p: seq<Name>, next: nat, directory: bool, r: Result<nat, VfsError>)
    requires Placed(vs, i, p, next) && r.Err? && HolderFound(vs, i, p, Err(r.error))
    ensures CreateDone(vs, vs, i, p, directory, r) && RemoveDone(vs, vs, i, p, r)
  {
    hide ViewOf, Walk, Holder, TreeOf, Vacant, TreeLike, Distinct;
    HolderIsParent(MountsOf(vs), i, p);
    EntriesInDirectories(vs[i].nodes, next);
    CreatableIsVacant(vs, i, p, next);
  }

  lemma MountsChanged(vs: seq<Part>, i: nat, nodes': Nodes)
    requires i < |vs|
    ensures MountsOf(vs[i := Part(vs[i].at, nodes')]) == MountsOf(vs)[i := Mount(vs[i].at, ViewOf(nodes'))]
  {
    hide ViewOf;
  }

  lemma CreateOutcome(vs: seq<Part>, i: nat, p: seq<Name>, next: nat, nodes': Nodes, directory: bool,
                      r: Result<nat, VfsError>)
    requires Placed(vs, i, p, next) && vs[i].at < p && Above(vs, i, p).Some?
    requires var (parent, name) := (Above(vs, i, p).value, p[|p| - 1]);
             && parent in ViewOf(vs[i].nodes).dirs && (r.Err? <==> CreateError(vs[i].nodes, next, parent, name).Some?)
             && (r.Err? ==> r.error == CreateError(vs[i].nodes, next, parent, name).value && nodes' == vs[i].nodes)
             && (r.Ok? ==> && next !in vs[i].nodes && parent in vs[i].nodes
                           && nodes' == Linked(vs[i].nodes, parent, name, next, directory))
    ensures CreateDone(vs, vs[i := Part(vs[i].at, nodes')], i, p, directory, r)
  {
    hide ViewOf, Sane, Walk, Holder, Adds, CreateError, Linked, TreeOf, Vacant, Distinct;
    var nodes, parent, name := vs[i].nodes, Above(vs, i, p).value, p[|p| - 1];
    HolderIsParent(MountsOf(vs), i, p);
    GoodSuffix(p, |vs[i].at|);
    CreatableIff(nodes, next, parent, name);
    CreatableIsVacant(vs, i, p, next);
    MountsChanged(vs, i, nodes');
    if r.Ok? {
      CreatedIn(vs, i, p, next, directory, p[|vs[i].at|..], parent);
      CreateAdds(nodes, next, parent, name, directory);
    } else {
      assert vs[i := vs[i]] == vs;
    }
  }

  lemma RemoveOutcome(vs: seq<Part>, i: nat, p: seq<Name>, next: nat, nodes': Nodes, r: Result<nat, VfsError>)
    requires Placed(vs, i, p, next) && vs[i].at < p && Above(vs, i, p).Some?
    requires var (parent, name) := (Above(vs, i, p).value, p[|p| - 1]);
             && parent in ViewOf(vs[i].nodes).dirs && (r.Err? <==> RemoveError(vs[i].nodes, parent, name).Some?)
             && (r.Err? ==> nodes' == vs[i].nodes)
             && (r.Ok? ==> Listed(vs[i].nodes, (parent, name)) && nodes' == Unlinked(vs[i].nodes, parent, name))
    ensures RemoveDone(vs, vs[i := Part(vs[i].at, nodes')], i, p, r)
  {
    hide ViewOf, Sane, Walk, Holder, Drops, RemoveError, Unlinked, TreeOf, Distinct;
    var nodes, parent, name := vs[i].nodes, Above(vs, i, p).value, p[|p| - 1];
    HolderIsParent(MountsOf(vs), i, p);
    GoodSuffix(p, |vs[i].at|);
    RemovableIff(nodes, next, parent, name);
    MountsChanged(vs, i, nodes');
    if r.Ok? {
      RemovedFrom(vs, i, p, next, p[|vs[i].at|..], parent);
      RemoveDrops(nodes, next, parent, name);
    } else {
      assert vs[i := vs[i]] == vs;
    }
  }

  /** What `mount` does: the filesystem joins the others, where a directory is and none is mounted yet. */
  ghost predicate MountDone(vs: seq<Part>, vs': seq<Part>, i: nat, p: seq<Name>, nodes: Nodes, ok: bool) {
    && IsRoute(PointsOf(vs), p, i) && vs[i].at <= p && (ok <==> Mountable(MountsOf(vs), i, p))
    && vs' == (if ok then vs + [Part(p, nodes)] else vs)
    && Step(MountsOf(vs), if ok then MountRuns.Mounted(i, p, ViewOf(nodes)) else Nothing, MountsOf(vs'))
    && forall q :: At(vs', q) == if ok && Hides(vs, p, q) then Found(nodes, q[|p|..]) else At(vs, q)
  }

  lemma MountOutcome(vs: seq<Part>, i: nat, p: seq<Name>, nodes: Nodes, next: nat, next': nat)
    requires Placed(vs, i, p, next) && Sane(nodes, next') && vs != [] && vs[0].at == []
    ensures vs[i].at <= p
    ensures var dir := Walk(ViewOf(vs[i].nodes), p[|vs[i].at|..]);
            var ok := p != [] && p !in PointsOf(vs) && dir.Some? && dir.value in ViewOf(vs[i].nodes).dirs;
            MountDone(vs, if ok then vs + [Part(p, nodes)] else vs, i, p, nodes, ok)
  {
    hide ViewOf, Walk, Distinct, At, Found, TreeLike;
    var ms := MountsOf(vs);
    if p !in PointsOf(vs) {
      assert MountsOf(vs + [Part(p, nodes)]) == ms + [Mount(p, ViewOf(nodes))];
      forall q
        ensures At(vs + [Part(p, nodes)], q) == if Hides(vs, p, q) then Found(nodes, q[|p|..]) else At(vs, q)
      {
        TreeMounts(vs, p, nodes, q);
      }
    }
  }

  /** The rest of a path inside the filesystem it belongs to. */
  ghost predicate Lies(vs: seq<Part>, p: seq<Name>, i: nat, rest: Path) {
    i < |vs| && vs[i].at <= p && rest == Render(p[|vs[i].at|..])
  }

  lemma LiesThere(vs: seq<Part>, p: seq<Name>, i: nat, rest: Path, next: nat)
    requires Placed(vs, i, p, next) && Lies(vs, p, i, rest)
    ensures var names := p[|vs[i].at|..];
            && GoodNames(p) && GoodNames(names) && rest == Render(names) && (names == [] <==> !(vs[i].at < p))
            && (names != [] ==> names[|names| - 1] == p[|p| - 1])
  {
  }

  // --------------------------------------------------------------- what is there

  datatype Metadata = Info(inode: nat, directory: bool, len: nat)

  /** Where a path leads: the filesystem, and the inode in it. */
  ghost predicate Leads(vs: seq<Part>, p: seq<Name>, i: nat, inode: nat) {
    && i < |vs| && vs[i].at <= p && Walk(ViewOf(vs[i].nodes), p[|vs[i].at|..]) == Some(inode)
    && inode in vs[i].nodes && p in TreeOf(vs) && TreeOf(vs)[p] == EntryOf(vs[i].nodes[inode])
  }

  /** Nothing is there, and why. */
  ghost predicate Absent(t: Tree, p: seq<Name>, why: VfsError) {
    p !in t && (why == NotFound || why == NotDirectory) && (Vacant(t, p) ==> why == NotFound)
  }

  /** What `metadata` tells of a path. */
  ghost predicate Describes(t: Tree, p: seq<Name>, r: Result<Metadata, VfsError>) {
    match r
    case Err(why) => Absent(t, p, why)
    case Ok(m) => p in t && if m.directory then t[p] == Directory && m.len == 0
                            else t[p].File? && m.len == |t[p].data|
  }

  /** What `read` gets from a path. */
  ghost predicate ReadDone(t: Tree, p: seq<Name>, offset: nat, len: nat, r: Result<seq<byte>, VfsError>) {
    if p in t && t[p].File? then r.Ok? && Reads(t[p].data, offset, len, r.value)
    else r.Err? && (p in t ==> r.error == IsDirectory)
  }

  /** What `write` makes of a path: the file, zero-extended and overlaid, and nothing else is touched. */
  ghost predicate WriteDone(t: Tree, t': Tree, p: seq<Name>, offset: nat, data: seq<byte>, r: Result<nat, VfsError>) {
    if p in t && t[p].File? && offset + |data| <= USIZE_MAX
    then r == Ok(|data|) && t' == t[p := PathTree.File(Data.RamWrite(t[p].data, offset, data))]
    else r.Err? && t' == t && (p in t && t[p] == Directory ==> r.error == IsDirectory)
  }

  /** What `truncate` makes of a path. */
  ghost predicate TruncateDone(t: Tree, t': Tree, p: seq<Name>, len: nat, r: Result<(), VfsError>) {
    if p in t && t[p].File? then r.Ok? && t' == t[p := PathTree.File(Data.Resize(t[p].data, len))]
    else r.Err? && t' == t && (p in t ==> r.error == IsDirectory)
  }

  /** The walk inside one filesystem decides about the whole path. */
  lemma WalkDecides(vs: seq<Part>, i: nat, p: seq<Name>, next: nat, r: Result<nat, VfsError>)
    requires Placed(vs, i, p, next) && vs[i].at <= p
    requires var names := p[|vs[i].at|..];
             && (r.Ok? ==> Walk(ViewOf(vs[i].nodes), names) == Some(r.value) && r.value in vs[i].nodes)
             && (r.Err? ==> Walk(ViewOf(vs[i].nodes), names).None? && Misses(ViewOf(vs[i].nodes), names, r.error))
    ensures if r.Ok? then Leads(vs, p, i, r.value) else Absent(TreeOf(vs), p, r.error)
  {
    hide ViewOf, Walk, TreeOf, Distinct, TreeLike, Misses, Sane;
    TreeByWalk(vs, i, p, next);
    if r.Err? {
      MissesInDirectory(ViewOf(vs[i].nodes), p[|vs[i].at|..], r.error);
      CreatableIsVacant(vs, i, p, next);
      HolderIsParent(MountsOf(vs), i, p);
    }
  }

  /** New data for the file a path leads to. */
  lemma DataOutcome(vs: seq<Part>, i: nat, p: seq<Name>, next: nat, inode: nat, data: seq<byte>)
    requires Placed(vs, i, p, next) && Leads(vs, p, i, inode) && !vs[i].nodes[inode].directory
    ensures var nodes' := vs[i].nodes[inode := vs[i].nodes[inode].(data := data)];
            var vs' := vs[i := Part(vs[i].at, nodes')];
            && MountsOf(vs') == MountsOf(vs) && TreeOf(vs') == TreeOf(vs)[p := PathTree.File(data)]
  {
    hide ViewOf, TreeLike, Sane, TreeOf, Walk;
    var nodes' := vs[i].nodes[inode := vs[i].nodes[inode].(data := data)];
    DataKeepsView(vs[i].nodes, next, inode, data);
    MountsChanged(vs, i, nodes');
    DataIn(vs, i, p, next, inode, data);
  }

  class Vfs {
    var mounts: seq<Attached>
    ghost var points: seq<seq<Name>>  // the components of each mount path

    ghost function Filesystems(): set<object>
      reads this
    {
      set m | m in mounts :: m.fs
    }

    /** Every filesystem is a tree of its own and is mounted once. */
    ghost predicate Valid()
      reads this, Filesystems()
    {
      && |mounts| == |points| && MountTable(PathsOf(mounts), points)
      && (forall i, j :: 0 <= i < j < |mounts| ==> mounts[i].fs != mounts[j].fs)
      && (forall i :: 0 <= i < |mounts| ==> mounts[i].fs.Valid())
    }

    ghost function Parts(): seq<Part>
      requires |mounts| == |points|
      reads this, Filesystems()
    {
      PartsOf(mounts, points)
    }

    ghost function Views(): Mounts
      requires |mounts| == |points|
      reads this, Filesystems()
    {
      MountsOf(Parts())
    }

    /** All that is mounted, as one tree. */
    ghost function Contents(): Tree
      requires |mounts| == |points|
      reads this, Filesystems()
    {
      TreeOf(Parts())
    }

    constructor (root: RamFs)
      requires root.Valid()
      ensures Valid() && mounts == [Attached([SLASH], root)] && points == [[]]
    {
      mounts := [Attached([SLASH], root)];
      points := [[]];
    }

    lemma RootThere()
      requires Valid()
      ensures [] in Contents() && Contents()[[]] == Directory
    {
      hide PartsOf, TreeOf;
      TableDistinct(PathsOf(mounts), points);
      RootIsDirectory(Parts(), mounts[0].fs.next);
    }

    /** The normal form of a path, the filesystem it belongs to, and its path in there. */
    method Locate(path: Path) returns (r: Result<(nat, Path, Path), VfsError>)
      requires Valid()
      ensures r.Err? <==> Named(path).Err?
      ensures r.Err? ==> r.error == Named(path).error
      ensures r.Ok? ==>
                var (p, (i, whole, rest)) := (Named(path).value, r.value);
                whole == Render(p) && Lies(Parts(), p, i, rest)
                && Placed(Parts(), i, p, mounts[i].fs.next)
    {
      hide MountTable, GoodNames, Normalized, IsRoute, PartsOf, Named, Sane;
      var normal := NormalizePath([SLASH], path);
      NamedRenders(path);
      if normal.Err? {
        r := Err(normal.error);
      } else {
        ghost var p := Named(path).value;
        var i, rest := Route(PathsOf(mounts), normal.value, points, p);
        RouteIsPrefix(points, p, i);
        TableDistinct(PathsOf(mounts), points);
        r := Ok((i, normal.value, rest));
      }
    }

    /** The path as far as the directory that holds its last name: how `create` and `remove` start. */
    method LocateParent(path: Path) returns (r: Result<(nat, nat, Name), VfsError>, ghost i: nat)
      requires Valid()
      ensures match Named(path)
              case Err(e) => r == Err(e)
              case Ok(p) => i < |mounts| && Placed(Parts(), i, p, mounts[i].fs.next) && HolderFound(Parts(), i, p, r)
    {
      hide MountTable, GoodNames, Named, Render, Placed, IsRoute, PartsOf, ViewOf, Sane, TreeLike, Walk;
      i := 0;
      var located := Locate(path);
      if located.Err? {
        r := Err(located.error);
      } else {
        var (index, _, rest) := located.value;
        i := index;
        ghost var p := Named(path).value;
        var fs := mounts[index].fs;
        LiesThere(Parts(), p, i, rest, fs.next);
        var holder := ResolveParent(fs, rest, p[|points[i]|..]);
        r := if holder.Err? then Err(holder.error) else Ok((index, holder.value.0, holder.value.1));
      }
    }

    method Remove(path: Path) returns (r: Result<nat, VfsError>, ghost i: nat)
      requires Valid()
      modifies Filesystems()
      ensures Valid() && mounts == old(mounts) && points == old(points)
      ensures match Named(path)
              case Err(e) => r == Err(e) && Parts() == old(Parts())
              case Ok(p) => RemoveDone(old(Parts()), Parts(), i, p, r)
    {
      hide MountTable, Named, RemoveDone, Placed, PartsOf, ViewOf, Sane, TreeLike, Unlinked, Drops, RemoveError, Above;
      ghost var vs := Parts();
      var holder, at := LocateParent(path);
      i := at;
      if holder.Err? {
        r := Err(holder.error);
        if Named(path).Ok? {
          NothingDone(vs, i, Named(path).value, mounts[i].fs.next, false, r);
        }
      } else {
        var (index, parent, name) := holder.value;
        var fs := mounts[index].fs;
        r := fs.Remove(parent, name);
        OneChanged(i);
        RemoveOutcome(vs, i, Named(path).value, old(fs.next), fs.nodes, r);
      }
    }

    /** `create_file` and `create_dir`. */
    method Create(path: Path, directory: bool) returns (r: Result<nat, VfsError>, ghost i: nat)
      requires Valid()
      modifies Filesystems()
      ensures Valid() && mounts == old(mounts) && points == old(points)
      ensures match Named(path)
              case Err(e) => r == Err(e) && Parts() == old(Parts())
              case Ok(p) => CreateDone(old(Parts()), Parts(), i, p, directory, r)
    {
      hide MountTable, Named, CreateDone, Placed, PartsOf, ViewOf, Sane, TreeLike, Linked, Adds, CreateError, Above;
      ghost var vs := Parts();
      var holder, at := LocateParent(path);
      i := at;
      if holder.Err? {
        r := Err(holder.error);
        if Named(path).Ok? {
          NothingDone(vs, i, Named(path).value, mounts[i].fs.next, directory, r);
        }
      } else {
        var (index, parent, name) := holder.value;
        var fs := mounts[index].fs;
        r := fs.CreateNode(parent, name, directory);
        OneChanged(i);
        CreateOutcome(vs, i, Named(path).value, old(fs.next), fs.nodes, directory, r);
      }
    }

    /** The path as far as an inode: how `metadata`, `read`, `write` and `truncate` start. */
    method Resolve(path: Path) returns (r: Result<(nat, nat), VfsError>)
      requires Valid()
      ensures match Named(path)
              case Err(e) => r == Err(e)
              case Ok(p) =>
                match r {
                  case Err(why) => Absent(Contents(), p, why)
                  case Ok((i, inode)) => Leads(Parts(), p, i, inode) && Placed(Parts(), i, p, mounts[i].fs.next)
                }
    {
      hide MountTable, GoodNames, Named, PartsOf, Render, IsRoute, Walk, ViewOf, TreeLike, Placed, Sane, TreeOf, Leads,
           Absent, Misses;
      var located := Locate(path);
      if located.Err? {
        r := Err(located.error);
      } else {
        var (i, _, rest) := located.value;
        ghost var p := Named(path).value;
        var fs := mounts[i].fs;
        LiesThere(Parts(), p, i, rest, fs.next);
        var inode := ResolveInode(fs, rest, p[|points[i]|..]);
        WalkDecides(Parts(), i, p, fs.next, inode);
        r := if inode.Err? then Err(inode.error) else Ok((i, inode.value));
      }
    }

    method Metadata(path: Path) returns (r: Result<Metadata, VfsError>)
      requires Valid()
      ensures match Named(path)
              case Err(e) => r == Err(e)
              case Ok(p) => Describes(Contents(), p, r)
    {
      hide MountTable, Named, PartsOf, Walk, ViewOf, TreeLike, Placed, Sane, TreeOf, Vacant;
      var found := Resolve(path);
      if found.Err? {
        r := Err(found.error);
      } else {
        var node := mounts[found.value.0].fs.nodes[found.value.1];
        r := Ok(Info(found.value.1, node.directory, if node.directory then 0 else |node.data|));
      }
    }

    /** `read`: what it leaves in a buffer of the given length. */
    method Read(path: Path, offset: nat, len: nat) returns (r: Result<seq<byte>, VfsError>)
      requires Valid()
      ensures match Named(path)
              case Err(e) => r == Err(e)
              case Ok(p) => ReadDone(Contents(), p, offset, len, r)
    {
      hide MountTable, Named, PartsOf, Walk, ViewOf, TreeLike, Placed, Sane, TreeOf, Vacant, Reads;
      var found := Resolve(path);
      if found.Err? {
        r := Err(found.error);
      } else {
        var fs := mounts[found.value.0].fs;
        r := fs.Read(found.value.1, offset, len);
      }
    }

    method ReadAll(path: Path) returns (r: Result<seq<byte>, VfsError>)
      requires Valid()
      ensures match Named(path)
              case Err(e) => r == Err(e)
              case Ok(p) => if p in Contents() && Contents()[p].File? then r == Ok(Contents()[p].data) else r.Err?
    {
      hide MountTable, Named, PartsOf, Sane, TreeOf, Vacant, Reads;
      var metadata := Metadata(path);
      if metadata.Err? {
        r := Err(metadata.error);
      } else if metadata.value.directory {
        r := Err(IsDirectory);
      } else {
        r := Read(path, 0, metadata.value.len);
        ReadsWhole(Contents()[Named(path).value].data, r.value);
      }
    }

    method Write(path: Path, offset: nat, data: seq<byte>) returns (r: Result<nat, VfsError>)
      requires Valid()
      modifies Filesystems()
      ensures Valid() && mounts == old(mounts) && points == old(points) && Views() == old(Views())
      ensures match Named(path)
              case Err(e) => r == Err(e) && Parts() == old(Parts())
              case Ok(p) => WriteDone(old(Contents()), Contents(), p, offset, data, r)
    {
      hide MountTable, Named, PartsOf, Walk, ViewOf, TreeLike, Placed, Sane, TreeOf, Vacant, Data.RamWrite;
      ghost var vs := Parts();
      var found := Resolve(path);
      if found.Err? {
        r := Err(found.error);
      } else {
        var (i, inode) := found.value;
        var fs := mounts[i].fs;
        r := fs.Write(inode, offset, data);
        OneChanged(i);
        if r.Ok? {
          DataOutcome(vs, i, Named(path).value, fs.next, inode, Data.RamWrite(old(fs.nodes)[inode].data, offset, data));
        } else {
          assert vs[i := vs[i]] == vs;
        }
      }
    }

    method Truncate(path: Path, len: nat) returns (r: Result<(), VfsError>)
      requires Valid()
      modifies Filesystems()
      ensures Valid() && mounts == old(mounts) && points == old(points) && Views() == old(Views())
      ensures match Named(path)
              case Err(e) => r == Err(e) && Parts() == old(Parts())
              case Ok(p) => TruncateDone(old(Contents()), Contents(), p, len, r)
    {
      hide MountTable, Named, PartsOf, Walk, ViewOf, TreeLike, Placed, Sane, TreeOf, Vacant, Data.Resize;
      ghost var vs := Parts();
      var found := Resolve(path);
      if found.Err? {
        r := Err(found.error);
      } else {
        var (i, inode) := found.value;
        var fs := mounts[i].fs;
        r := fs.Truncate(inode, len);
        OneChanged(i);
        if r.Ok? {
          DataOutcome(vs, i, Named(path).value, fs.next, inode, Data.Resize(old(fs.nodes)[inode].data, len));
        } else {
          assert vs[i := vs[i]] == vs;
        }
      }
    }

    method Attach(path: Path, fs: RamFs, ghost p: seq<Name>)
      requires Valid() && fs.Valid() && fs !in Filesystems() && GoodNames(p) && path == Render(p) && p !in points
      modifies this
      ensures Valid() && mounts == old(mounts) + [Attached(path, fs)] && points == old(points) + [p]
      ensures Parts() == old(Parts()) + [Part(p, fs.nodes)]
    {
      hide MountTable, GoodNames, Render, Sane, ViewOf, PartsOf, PathsOf;
      TableGrows(PathsOf(mounts), points, path, p);
      PathsGrow(mounts, Attached(path, fs));
      ghost var vs := Parts();
      assert forall i :: 0 <= i < |mounts| ==> mounts[i].fs in Filesystems() && vs[i].nodes == mounts[i].fs.nodes;
      mounts, points := mounts + [Attached(path, fs)], points + [p];
      assert Parts() == vs + [Part(p, fs.nodes)];
    }

    /** `mount`. */
    method MountAt(path: Path, fs: RamFs) returns (r: Result<(), VfsError>, ghost i: nat)
      requires Valid() && fs.Valid() && fs !in Filesystems()
      modifies this
      ensures Valid()
      ensures match Named(path)
              case Err(e) => r == Err(e) && Parts() == old(Parts())
              case Ok(p) => MountDone(old(Parts()), Parts(), i, p, fs.nodes, r.Ok?)
    {
      hide MountTable, GoodNames, Named, PartsOf, Render, IsRoute, Walk, ViewOf, TreeLike, MountDone, Placed, Sane;
      i := 0;
      ghost var vs := Parts();
      var located := Locate(path);
      if located.Err? {
        r := Err(located.error);
      } else {
        var (index, whole, rest) := located.value;
        i := index;
        ghost var p := Named(path).value;
        LiesThere(vs, p, i, rest, mounts[index].fs.next);
        MountPathIff(PathsOf(mounts), points, whole, p);
        TableDistinct(PathsOf(mounts), points);
        MountOutcome(vs, i, p, fs.nodes, mounts[index].fs.next, fs.next);
        if whole == [SLASH] || whole in PathsOf(mounts) {
          r := Err(AlreadyMounted);
        } else {
          var below := mounts[index].fs;
          var inode := ResolveInode(below, rest, p[|points[i]|..]);
          ViewDirs(below.nodes);
          if inode.Err? {
            r := Err(inode.error);
          } else if !below.nodes[inode.value].directory {
            r := Err(MountPointNotDirectory);
          } else {
            Attach(whole, fs, p);
            r := Ok(());
          }
        }
      }
    }

    /** An operation on one filesystem shows in its part alone. */
    twostate lemma OneChanged(i: nat)
      requires old(Valid()) && mounts == old(mounts) && points == old(points) && i < |mounts|
      requires forall j :: 0 <= j < |mounts| && j != i ==> unchanged(mounts[j].fs)
      ensures Parts() == old(Parts())[i := Part(points[i], mounts[i].fs.nodes)]
    {
      assert forall j :: 0 <= j < |mounts| && j != i ==> mounts[j].fs.nodes == old(mounts[j].fs.nodes);
    }
  }

  lemma MountPathIff(paths: seq<Path>, points: seq<seq<Name>>, whole: Path, p: seq<Name>)
    requires MountTable(paths, points) && GoodNames(p) && whole == Render(p)
    ensures whole == [SLASH] <==> p == []
    ensures whole in paths <==> p in points
  {
    if whole == [SLASH] {
      RootOnly(p);
    }
    if whole in paths {
      var k :| 0 <= k < |paths| && paths[k] == whole;
      RenderInjective(points[k], p);
    }
    if p in points {
      var k :| 0 <= k < |points| && points[k] == p;
      assert paths[k] == whole;
    }
  }

  lemma PathsGrow(mounts: seq<Attached>, m: Attached)
    ensures PathsOf(mounts + [m]) == PathsOf(mounts) + [m.path]
  {
  }

  lemma TableGrows(paths: seq<Path>, points: seq<seq<Name>>, whole: Path, p: seq<Name>)
    requires MountTable(paths, points) && GoodNames(p) && whole == Render(p) && p !in points
    ensures MountTable(paths + [whole], points + [p])
  {
    hide Render;
  }

  lemma TableDistinct(paths: seq<Path>, points: seq<seq<Name>>)
    requires MountTable(paths, points)
    ensures Distinct(points) && points != [] && points[0] == []
  {
  }

  lemma RouteIsPrefix(points: seq<seq<Name>>, p: seq<Name>, i: nat)
    requires IsRoute(points, p, i)
    ensures i < |points| && points[i] <= p
  {
  }

  lemma GoodSuffix(p: seq<Name>, k: nat)
    requires GoodNames(p) && k <= |p|
    ensures GoodNames(p[k..]) && (k < |p| ==> GoodName(p[|p| - 1]))
  {
  }

  lemma HolderIsParent(ms: Mounts, i: nat, p: seq<Name>)
    requires i < |ms| && ms[i].at <= p
    ensures var names := p[|ms[i].at|..];
            names != [] ==> ms[i].at < p && names[|names| - 1] == p[|p| - 1]
                            && Holder(ms, i, p) == Walk(ms[i].view, names[..|names| - 1])
  {
    var names := p[|ms[i].at|..];
    if names != [] {
      assert names[..|names| - 1] == p[|ms[i].at|..|p| - 1];
    }
  }
}

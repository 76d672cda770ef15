/** What a filesystem looks like to the VFS: a tree of directories, and how operations may change it. */
module DirTree {
  import opened Wrappers
  import opened Paths

  datatype View = View(root: nat, edges: map<(nat, Name), nat>, dirs: set<nat>)

  predicate Edge(v: View, parent: nat, name: Name, child: nat) {
    (parent, name) in v.edges && v.edges[(parent, name)] == child
  }

  /** Entries live in directories, the root is nobody's entry, and nothing is an entry twice. */
  ghost predicate TreeLike(v: View) {
    && v.root in v.dirs
    && (forall p, n, c :: Edge(v, p, n, c) ==> p in v.dirs && c != v.root)
    && (forall p, n, p', n', c :: Edge(v, p, n, c) && Edge(v, p', n', c) ==> p == p' && n == n')
  }

  /** `resolve_inode`, from the root along the names. */
  function Walk(v: View, names: seq<Name>): Option<nat> {
    if names == [] then Some(v.root)
    else
      var parent := Walk(v, names[..|names| - 1]);
      if parent.Some? && (parent.value, names[|names| - 1]) in v.edges
      then Some(v.edges[(parent.value, names[|names| - 1])]) else None
  }

  lemma LeadsBelow(v: View, names: seq<Name>)
    requires TreeLike(v) && Walk(v, names).Some?
    ensures Walk(v, names).value == v.root <==> names == []
    ensures names != [] ==> var parent := Walk(v, names[..|names| - 1]);
              parent.Some? && Edge(v, parent.value, names[|names| - 1], Walk(v, names).value)
  {
    if names != [] {
      assert Edge(v, Walk(v, names[..|names| - 1]).value, names[|names| - 1], Walk(v, names).value);
    }
  }

  lemma SameParent(v: View, p: nat, x: Name, q: nat, y: Name, c: nat)
    requires TreeLike(v) && Edge(v, p, x, c) && Edge(v, q, y, c)
    ensures p == q && x == y
  {
  }

  /** In a tree, no two paths lead to the same place. */
  lemma {:induction false} WalkUnique(v: View, a: seq<Name>, b: seq<Name>)
    requires TreeLike(v) && Walk(v, a).Some? && Walk(v, a) == Walk(v, b)
    ensures a == b
    decreases |a|
  {
    hide TreeLike;
    LeadsBelow(v, a);
    LeadsBelow(v, b);
    if a != [] {
      var a', x, b', y := a[..|a| - 1], a[|a| - 1], b[..|b| - 1], b[|b| - 1];
      var p, q := Walk(v, a').value, Walk(v, b').value;
      SameParent(v, p, x, q, y, Walk(v, a).value);
      WalkUnique(v, a', b');
      assert a == a' + [x] && b == b' + [y];
    }
  }

  lemma {:induction false} WalkPrefix(v: View, names: seq<Name>, k: nat)
    requires Walk(v, names).Some? && k <= |names|
    ensures Walk(v, names[..k]).Some?
  {
    if k < |names| {
      WalkPrefix(v, names[..|names| - 1], k);
      assert names[..|names| - 1][..k] == names[..k];
    } else {
      assert names[..k] == names;
    }
  }

  // ----------------------------------------------------- what operations may do

  /** A new entry for an inode that was not in use. */
  ghost predicate Adds(v: View, v': View, parent: nat, name: Name, child: nat, directory: bool) {
    && parent in v.dirs && (parent, name) !in v.edges
    && child != v.root && child !in v.dirs && (forall p, n :: !Edge(v, p, n, child))
    && v' == View(v.root, v.edges[(parent, name) := child], if directory then v.dirs + {child} else v.dirs)
  }

  /** An entry goes, together with its inode, which has no entries of its own. */
  ghost predicate Drops(v: View, v': View, parent: nat, name: Name) {
    && (parent, name) in v.edges
    && var child := v.edges[(parent, name)];
       && (forall n :: (child, n) !in v.edges)
       && v' == View(v.root, v.edges - {(parent, name)}, v.dirs - {child})
  }

  lemma AddsKeeps(v: View, v': View, parent: nat, name: Name, child: nat, directory: bool)
    requires TreeLike(v) && Adds(v, v', parent, name, child, directory)
    ensures TreeLike(v')
  {
    forall p, n, c | Edge(v', p, n, c)
      ensures p in v'.dirs && c != v'.root && (c == child ==> p == parent && n == name)
    {
      assert Edge(v, p, n, c) || (p == parent && n == name && c == child);
    }
    forall p, n, p', n', c | Edge(v', p, n, c) && Edge(v', p', n', c)
      ensures p == p' && n == n'
    {
      if c != child {
        assert Edge(v, p, n, c) && Edge(v, p', n', c);
      }
    }
  }

  lemma DropsKeeps(v: View, v': View, parent: nat, name: Name)
    requires TreeLike(v) && Drops(v, v', parent, name)
    ensures TreeLike(v')
  {
    assert Edge(v, parent, name, v.edges[(parent, name)]);
    forall p, n, c | Edge(v', p, n, c)
      ensures Edge(v, p, n, c) && p in v'.dirs
    {
      assert Edge(v, p, n, c);
    }
  }

  /** Adding an entry moves nothing. */
  lemma {:induction false} AddsWalk(v: View, v': View, parent: nat, name: Name, child: nat, directory: bool,
                                    names: seq<Name>)
    requires Adds(v, v', parent, name, child, directory) && Walk(v, names).Some?
    ensures Walk(v', names) == Walk(v, names)
    decreases |names|
  {
    if names != [] {
      AddsWalk(v, v', parent, name, child, directory, names[..|names| - 1]);
    }
  }

  /** Dropping an entry moves nothing but what it led to. */
  lemma {:induction false} DropsWalk(v: View, v': View, parent: nat, name: Name, names: seq<Name>)
    requires TreeLike(v) && Drops(v, v', parent, name)
    requires Walk(v, names).Some? && Walk(v, names).value != v.edges[(parent, name)]
    ensures Walk(v', names) == Walk(v, names)
    decreases |names|
  {
    if names != [] {
      var before := names[..|names| - 1];
      assert Walk(v, before).value != v.edges[(parent, name)];
      DropsWalk(v, v', parent, name, before);
    }
  }
}

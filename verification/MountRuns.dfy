/** Mount points over whole runs of the VFS, for any filesystems whose operations are those of a tree. */
module MountRuns {
  import opened Wrappers
  import opened Paths
  import opened Routing
  import opened DirTree

  datatype Mount = Mount(at: seq<Name>, view: View)

  type Mounts = seq<Mount>

  function Points(ms: Mounts): (points: seq<seq<Name>>)
    ensures |points| == |ms|
  {
    seq(|ms|, i requires 0 <= i < |ms| => ms[i].at)
  }

  /** Path `p` is routed to mount `i`. */
  ghost predicate Routed(ms: Mounts, p: seq<Name>, i: nat) {
    IsRoute(Points(ms), p, i)
  }

  /** What an operation of the VFS did; `i` is the filesystem its path `p` was routed to. */
  datatype Event =
    | Created(i: nat, p: seq<Name>, directory: bool)
    | Removed(i: nat, p: seq<Name>)
    | Mounted(i: nat, p: seq<Name>, fs: View)
    | Nothing  // a failed operation, or one that leaves directories alone

  /** The directory that holds the entry `p` names in filesystem `i`. */
  function Holder(ms: Mounts, i: nat, p: seq<Name>): Option<nat>
    requires i < |ms| && ms[i].at < p
  {
    Walk(ms[i].view, p[|ms[i].at|..|p| - 1])
  }

  ghost predicate AddsOne(v: View, v': View, parent: nat, name: Name, directory: bool) {
    exists child :: Adds(v, v', parent, name, child, directory)
  }

  ghost predicate Step(ms: Mounts, e: Event, ms': Mounts) {
    match e
    case Created(i, p, directory) =>
      && Routed(ms, p, i) && ms[i].at < p && Holder(ms, i, p).Some? && |ms'| == |ms|
      && ms' == ms[i := ms[i].(view := ms'[i].view)]
      && AddsOne(ms[i].view, ms'[i].view, Holder(ms, i, p).value, p[|p| - 1], directory)
    case Removed(i, p) =>
      && Routed(ms, p, i) && ms[i].at < p && Holder(ms, i, p).Some? && |ms'| == |ms|
      && ms' == ms[i := ms[i].(view := ms'[i].view)]
      && Drops(ms[i].view, ms'[i].view, Holder(ms, i, p).value, p[|p| - 1])
    case Mounted(i, p, fs) =>
      && Routed(ms, p, i) && p !in Points(ms) && TreeLike(fs)
      && Walk(ms[i].view, p[|ms[i].at|..]).Some? && Walk(ms[i].view, p[|ms[i].at|..]).value in ms[i].view.dirs
      && ms' == ms + [Mount(p, fs)]
    case Nothing => ms' == ms
  }

  // ------------------------------------------------------------- the invariant

  /** Where a mount point was found: the filesystem, the path in it and the directory there. */
  datatype Anchor = Anchor(origin: nat, rest: seq<Name>, dir: nat)

  /** The directory under mount `k` is still where it was when `k` was mounted. */
  ghost predicate Holds(ms: Mounts, k: nat, a: Anchor) {
    && k < |ms| && a.origin < |ms| && a.rest != [] && ms[k].at == ms[a.origin].at + a.rest
    && Walk(ms[a.origin].view, a.rest) == Some(a.dir) && a.dir in ms[a.origin].view.dirs
  }

  ghost predicate Anchored(ms: Mounts, anchors: seq<Anchor>) {
    && 0 < |ms| == |anchors| && ms[0].at == [] && Distinct(Points(ms))
    && (forall k :: 0 <= k < |ms| ==> TreeLike(ms[k].view))
    && (forall k :: 1 <= k < |ms| ==> Holds(ms, k, anchors[k]))
  }

  /** A removal routed to the filesystem that holds a mount point does not name that mount point. */
  lemma RemovalMisses(ms: Mounts, anchors: seq<Anchor>, i: nat, p: seq<Name>, k: nat)
    requires Anchored(ms, anchors) && Routed(ms, p, i) && ms[i].at < p && 1 <= k < |ms| && anchors[k].origin == i
    requires Holder(ms, i, p).Some? && (Holder(ms, i, p).value, p[|p| - 1]) in ms[i].view.edges
    ensures ms[i].view.edges[(Holder(ms, i, p).value, p[|p| - 1])] != anchors[k].dir
  {
    var v, a, rest := ms[i].view, anchors[k], p[|ms[i].at|..];
    assert Holds(ms, k, a);
    assert rest[..|rest| - 1] == p[|ms[i].at|..|p| - 1] && rest[|rest| - 1] == p[|p| - 1];
    assert Walk(v, rest) == Some(v.edges[(Holder(ms, i, p).value, p[|p| - 1])]);
    assert p == ms[i].at + rest;
    var point := Points(ms)[k];
    assert rest == a.rest ==> point <= p;
    if Walk(v, rest) == Some(a.dir) {
      WalkUnique(v, rest, a.rest);
    }
  }

  lemma RemovedKeeps(ms: Mounts, anchors: seq<Anchor>, e: Event, ms': Mounts)
    requires Anchored(ms, anchors) && e.Removed? && Step(ms, e, ms')
    ensures Anchored(ms', anchors)
  {
    var v, v' := ms[e.i].view, ms'[e.i].view;
    var holder, name := Holder(ms, e.i, e.p).value, e.p[|e.p| - 1];
    DropsKeeps(v, v', holder, name);
    assert Points(ms') == Points(ms);
    forall k | 1 <= k < |ms|
      ensures Holds(ms', k, anchors[k])
    {
      assert Holds(ms, k, anchors[k]);
      if anchors[k].origin == e.i {
        RemovalMisses(ms, anchors, e.i, e.p, k);
        DropsWalk(v, v', holder, name, anchors[k].rest);
      }
    }
  }

  lemma CreatedKeeps(ms: Mounts, anchors: seq<Anchor>, e: Event, ms': Mounts)
    requires Anchored(ms, anchors) && e.Created? && Step(ms, e, ms')
    ensures Anchored(ms', anchors)
  {
    var v, v' := ms[e.i].view, ms'[e.i].view;
    var holder, name := Holder(ms, e.i, e.p).value, e.p[|e.p| - 1];
    var child :| Adds(v, v', holder, name, child, e.directory);
    AddsKeeps(v, v', holder, name, child, e.directory);
    assert Points(ms') == Points(ms);
    forall k | 1 <= k < |ms|
      ensures Holds(ms', k, anchors[k])
    {
      assert Holds(ms, k, anchors[k]);
      if anchors[k].origin == e.i {
        AddsWalk(v, v', holder, name, child, e.directory, anchors[k].rest);
      }
    }
  }

  lemma MountedKeeps(ms: Mounts, anchors: seq<Anchor>, e: Event, ms': Mounts) returns (a: Anchor)
    requires Anchored(ms, anchors) && e.Mounted? && Step(ms, e, ms')
    ensures Anchored(ms', anchors + [a]) && a.origin == e.i && a.rest == e.p[|ms[e.i].at|..]
  {
    var rest := e.p[|ms[e.i].at|..];
    a := Anchor(e.i, rest, Walk(ms[e.i].view, rest).value);
    assert e.p == ms[e.i].at + rest;
    assert Points(ms)[e.i] == ms[e.i].at != e.p;
    assert Points(ms') == Points(ms) + [e.p];
    forall k | 1 <= k < |ms'|
      ensures Holds(ms', k, (anchors + [a])[k])
    {
      if k < |ms| {
        assert Holds(ms, k, anchors[k]);
      }
    }
  }

  /** Every operation leaves every mount point in place. */
  lemma StepKeeps(ms: Mounts, anchors: seq<Anchor>, e: Event, ms': Mounts) returns (anchors': seq<Anchor>)
    requires Anchored(ms, anchors) && Step(ms, e, ms')
    ensures Anchored(ms', anchors') && anchors <= anchors' && |ms| <= |ms'|
    ensures e.Mounted? ==>
              anchors'[|ms|].origin == e.i && anchors'[|ms|].rest == e.p[|ms[e.i].at|..] && ms'[|ms|].at == e.p
    ensures forall k :: 0 <= k < |ms| ==> ms'[k].at == ms[k].at
  {
    hide Anchored, Routed, Drops;
    anchors' := anchors;
    match e {
      case Created(_, _, _) => CreatedKeeps(ms, anchors, e, ms');
      case Removed(_, _) => RemovedKeeps(ms, anchors, e, ms');
      case Mounted(_, _, _) =>
        var a := MountedKeeps(ms, anchors, e, ms');
        anchors' := anchors + [a];
        SameLength(ms, anchors);
      case Nothing =>
    }
  }

  /** A VFS starts with its root filesystem alone. */
  lemma StartsAnchored(root: View)
    requires TreeLike(root)
    ensures Anchored([Mount([], root)], [Anchor(0, [], root.root)])
  {
  }

  lemma SameLength(ms: Mounts, anchors: seq<Anchor>)
    requires Anchored(ms, anchors)
    ensures |ms| == |anchors|
  {
  }

  // -------------------------------------------------------------------- runs

  /** A run: each state follows from the one before it. */
  ghost predicate Run(states: seq<Mounts>, events: seq<Event>) {
    && |states| == |events| + 1
    && forall i :: 0 <= i < |events| ==> Step(states[i], events[i], states[i + 1])
  }

  /** From any anchored state on, all anchors hold to the end of the run. */
  lemma {:induction false} AnchorsHold(
      states: seq<Mounts>, events: seq<Event>, from: nat, until: nat, anchors: seq<Anchor>)
    returns (final: seq<Anchor>)
    requires Run(states, events) && from <= until < |states| && Anchored(states[from], anchors)
    ensures Anchored(states[until], final) && anchors <= final && |states[from]| <= |states[until]|
    ensures forall k :: 0 <= k < |states[from]| ==> states[until][k].at == states[from][k].at
    decreases until - from
  {
    hide Anchored, Step;
    if from == until {
      final := anchors;
    } else {
      var next := StepKeeps(states[from], anchors, events[from], states[from + 1]);
      final := AnchorsHold(states, events, from + 1, until, next);
    }
  }

  /**
   Mount points persist: once a filesystem is mounted at `p`, every later state of every run still
   has, in the filesystem where `p` was found, the same directory at `p` and something at every
   ancestor of it, and still routes `p` to what was mounted.
   */
  lemma MountPointsPersist(states: seq<Mounts>, events: seq<Event>, anchors: seq<Anchor>, i: nat, j: nat)
    requires Run(states, events) && Anchored(states[0], anchors)
    requires i < |events| && events[i].Mounted? && i < j < |states|
    ensures Step(states[i], events[i], states[i + 1])
    ensures var e, ms := events[i], states[j];
            var rest := e.p[|states[i][e.i].at|..];
            && |states[i]| < |ms| && ms[|states[i]|].at == e.p && Routed(ms, e.p, |states[i]|)
            && Walk(ms[e.i].view, rest) == Walk(states[i][e.i].view, rest) && Walk(ms[e.i].view, rest).Some?
            && Walk(ms[e.i].view, rest).value in ms[e.i].view.dirs
            && forall n :: 0 <= n <= |rest| ==> Walk(ms[e.i].view, rest[..n]).Some?
  {
    var before := AnchorsHold(states, events, 0, i, anchors);
    assert Step(states[i], events[i], states[i + 1]);
    var after := StepKeeps(states[i], before, events[i], states[i + 1]);
    var final := AnchorsHold(states, events, i + 1, j, after);
    MountPointHolds(states[i], events[i], states[i + 1], after, states[j], final);
    OwnPathRoutes(states[j], |states[i]|);
  }

  /** A mount point routes to the filesystem mounted there. */
  lemma OwnPathRoutes(ms: Mounts, k: nat)
    requires k < |ms|
    ensures Routed(ms, ms[k].at, k)
  {
  }

  lemma MountPointHolds(ms: Mounts, e: Event, ms': Mounts, anchors: seq<Anchor>, last: Mounts, final: seq<Anchor>)
    requires e.Mounted? && Step(ms, e, ms') && Anchored(ms', anchors) && Anchored(last, final) && anchors <= final
    requires 0 < |ms| < |ms'| <= |last| && ms'[|ms|].at == e.p && last[|ms|].at == e.p
    requires anchors[|ms|].origin == e.i && anchors[|ms|].rest == e.p[|ms[e.i].at|..]
    ensures var rest := e.p[|ms[e.i].at|..];
            && Walk(last[e.i].view, rest) == Walk(ms[e.i].view, rest) && Walk(last[e.i].view, rest).Some?
            && Walk(last[e.i].view, rest).value in last[e.i].view.dirs
            && forall n :: 0 <= n <= |rest| ==> Walk(last[e.i].view, rest[..n]).Some?
  {
    var k, rest := |ms|, e.p[|ms[e.i].at|..];
    assert Holds(ms', k, anchors[k]) && Holds(last, k, final[k]) && final[k] == anchors[k];
    forall n | 0 <= n <= |rest|
      ensures Walk(last[e.i].view, rest[..n]).Some?
    {
      WalkPrefix(last[e.i].view, rest, n);
    }
  }
}

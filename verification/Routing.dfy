/** Mount routing: which filesystem a path belongs to. */
module Routing {
  import opened Paths

  /** The test of `route`: the mount's own path, or a path below it. */
  predicate Covers(mount: Path, path: Path) {
    path == mount || (mount <= path && |mount| < |path| && path[|mount|] == SLASH)
  }

  /** Byte by byte, that test is "component by component, a prefix". */
  lemma CoversIff(m: seq<Name>, p: seq<Name>)
    requires GoodNames(m) && GoodNames(p) && m != []
    ensures Covers(Render(m), Render(p)) <==> m <= p
  {
    hide Render, Covers;
    if m <= p {
      PrefixCovers(m, p);
    }
    if Covers(Render(m), Render(p)) {
      CoveredIsPrefix(m, p);
    }
  }

  lemma PrefixCovers(m: seq<Name>, p: seq<Name>)
    requires GoodNames(m) && GoodNames(p) && m != [] && m <= p
    ensures Covers(Render(m), Render(p))
  {
    var rest := p[|m|..];
    assert p == m + rest && GoodNames(rest);
    SlashedConcat(m, rest);
    SlashedLength(rest);
    assert rest == [] ==> p == m;
  }

  lemma CoveredIsPrefix(m: seq<Name>, p: seq<Name>)
    requires GoodNames(m) && GoodNames(p) && m != [] && Covers(Render(m), Render(p))
    ensures m <= p
  {
    hide Slashed, GoodNames;
    SlashedLength(m);
    if Render(m) == Render(p) {
      RenderInjective(m, p);
    } else {
      assert p != [];
      var tail := Slashed(p)[|Slashed(m)| + 1..];
      assert Slashed(p) == Slashed(m) + [SLASH] + tail;
      JoinedComponents(m, p, tail);
    }
  }

  lemma JoinedComponents(m: seq<Name>, p: seq<Name>, tail: Path)
    requires GoodNames(m) && GoodNames(p) && Slashed(p) == Slashed(m) + [SLASH] + tail
    ensures p == m + Split(tail)
  {
    hide Slashed, GoodNames, Split;
    SplitJoin(Slashed(m), tail);
    SplitSlashed(m);
    SplitSlashed(p);
    var whole: seq<Name> := [[]] + m + Split(tail);
    assert whole == [[]] + p;
    assert whole[1..] == p;
    assert whole[1..] == m + Split(tail);
  }

  /** Among prefixes of one path, the longer string is the one with more components. */
  lemma LongerIsDeeper(a: seq<Name>, b: seq<Name>, p: seq<Name>)
    requires GoodNames(p) && a <= p && b <= p
    ensures |a| < |b| <==> |Slashed(a)| < |Slashed(b)|
  {
    if |a| < |b| {
      DeeperIsLonger(a, b);
    } else if |b| < |a| {
      DeeperIsLonger(b, a);
    } else {
      assert a == b;
    }
  }

  lemma DeeperIsLonger(a: seq<Name>, b: seq<Name>)
    requires GoodNames(b) && a <= b && |a| < |b|
    ensures |Slashed(a)| < |Slashed(b)|
  {
    var rest := b[|a|..];
    assert b == a + rest && GoodNames(rest);
    SlashedConcat(a, rest);
    SlashedLength(rest);
  }

  // ------------------------------------------------------------- the reference

  /** Mount `i` is a longest prefix of the path. */
  ghost predicate IsRoute(mounts: seq<seq<Name>>, p: seq<Name>, i: nat) {
    i < |mounts| && mounts[i] <= p && forall j :: 0 <= j < |mounts| && mounts[j] <= p ==> |mounts[j]| <= |mounts[i]|
  }

  ghost predicate Distinct(mounts: seq<seq<Name>>) {
    forall i, j :: 0 <= i < j < |mounts| ==> mounts[i] != mounts[j]
  }

  /** There is only one, and it does not depend on the order in which filesystems were mounted. */
  lemma RouteUnique(mounts: seq<seq<Name>>, other: seq<seq<Name>>, p: seq<Name>, i: nat, j: nat)
    requires IsRoute(mounts, p, i) && IsRoute(other, p, j)
    requires forall m :: m in mounts <==> m in other
    ensures mounts[i] == other[j]
    ensures mounts == other && Distinct(mounts) ==> i == j
  {
    assert mounts[i] in other && other[j] in mounts;
    assert mounts[i] == p[..|mounts[i]|] && other[j] == p[..|other[j]|];
  }

  /** The mount's path and the rest of the path, put together. */
  function Rejoin(mount: Path, relative: Path): Path {
    if mount == [SLASH] then relative else if relative == [SLASH] then mount else mount + relative
  }

  lemma RejoinRenders(m: seq<Name>, rest: seq<Name>)
    requires GoodNames(m) && GoodNames(rest)
    ensures Rejoin(Render(m), Render(rest)) == Render(m + rest)
  {
    SlashedConcat(m, rest);
    SlashedLength(m);
    SlashedLength(rest);
    if m == [] {
      assert m + rest == rest;
    } else if rest == [] {
      assert m + rest == m;
    }
  }

  // ---------------------------------------------------------------- the method

  /** The mount table: the root first, the others below it, each at its own path. */
  ghost predicate MountTable(paths: seq<Path>, names: seq<seq<Name>>) {
    && |paths| == |names| > 0 && names[0] == [] && Distinct(names)
    && forall i :: 0 <= i < |names| ==> GoodNames(names[i]) && paths[i] == Render(names[i])
  }

  /** The scan so far: the best of the first `n` mounts. */
  ghost predicate Best(paths: seq<Path>, names: seq<seq<Name>>, p: seq<Name>, n: nat, index: nat, len: nat) {
    n <= |names| == |paths| && IsRoute(names[..n], p, index) && len == |paths[index]|
  }

  lemma RouteNext(mounts: seq<seq<Name>>, p: seq<Name>, n: nat, index: nat)
    requires n < |mounts| && IsRoute(mounts[..n], p, index)
    ensures IsRoute(mounts[..n + 1], p, if mounts[n] <= p && |mounts[n]| > |mounts[index]| then n else index)
  {
    var now, next := mounts[..n], mounts[..n + 1];
    assert forall j :: 0 <= j < n ==> next[j] == now[j];
  }

  /** The byte lengths that `route` compares order the mounts as their depths do. */
  lemma BetterIff(m: seq<Name>, best: seq<Name>, p: seq<Name>)
    requires GoodNames(m) && GoodNames(p) && m != [] && best <= p
    ensures Covers(Render(m), Render(p)) && |Render(m)| > |Render(best)| <==> m <= p && |m| > |best|
  {
    hide Slashed, Covers;
    CoversIff(m, p);
    SlashedLength(m);
    if m <= p {
      LongerIsDeeper(best, m, p);
    }
  }

  lemma BestNext(paths: seq<Path>, names: seq<seq<Name>>, p: seq<Name>, n: nat, index: nat, len: nat)
    requires MountTable(paths, names) && GoodNames(p) && 0 < n < |names| && Best(paths, names, p, n, index, len)
    ensures var better := Covers(paths[n], Render(p)) && |paths[n]| > len;
            Best(paths, names, p, n + 1, if better then n else index, if better then |paths[n]| else len)
  {
    hide Covers, Render;
    var best := names[index];
    assert best == names[..n][index];
    assert names[n] != names[0];
    BetterIff(names[n], best, p);
    RouteNext(names, p, n, index);
  }

  /** `route`. */
  method Route(paths: seq<Path>, path: Path, ghost names: seq<seq<Name>>, ghost p: seq<Name>)
    returns (index: nat, relative: Path)
    requires MountTable(paths, names) && GoodNames(p) && path == Render(p)
    ensures IsRoute(names, p, index) && relative == Render(p[|names[index]|..])
    ensures Rejoin(paths[index], relative) == path
  {
    index := 0;
    var best: nat, n: nat := 1, 1;
    assert names[..1] == [names[0]];
    while n < |paths|
      invariant n <= |paths| && Best(paths, names, p, n, index, best)
    {
      BestNext(paths, names, p, n, index, best);
      if Covers(paths[n], path) && |paths[n]| > best {
        index, best := n, |paths[n]|;
      }
      n := n + 1;
    }
    assert names[..n] == names;
    RestRenders(names[index], p);
    if paths[index] == [SLASH] {
      relative := path;
    } else {
      relative := path[|paths[index]|..];
      if relative == [] {
        relative := [SLASH];
      }
    }
    RejoinRenders(names[index], p[|names[index]|..]);
    assert names[index] + p[|names[index]|..] == p;
  }

  lemma RestRenders(m: seq<Name>, p: seq<Name>)
    requires GoodNames(p) && m <= p
    ensures Render(m) <= Render(p) || m == []
    ensures Render(m) == [SLASH] <==> m == []
    ensures m != [] ==> var rest := Render(p)[|Render(m)|..];
              Render(p[|m|..]) == if rest == [] then [SLASH] else rest
    ensures m == [] ==> Render(p[|m|..]) == Render(p)
  {
    var rest := p[|m|..];
    assert p == m + rest && GoodNames(m) && GoodNames(rest);
    SlashedConcat(m, rest);
    SlashedLength(m);
    SlashedLength(rest);
    if m == [] {
      assert rest == p;
    } else {
      assert Render(p) == Render(m) + Slashed(rest);
      assert rest != [] ==> Slashed(rest) != [];
    }
  }
}

/** Path normalisation and mount routing. Paths and names are byte strings. */
module Paths {
  import opened Wrappers
  import opened VfsErrors
  import opened LittleEndian
  import opened Sequences

  type Name = seq<byte>
  type Path = seq<byte>

  const NAME_MAX: nat := 255
  const PATH_MAX: nat := 4096
  const SLASH: byte := 47
  const DOT: Name := [46]
  const DOTS: Name := [46, 46]

  /** `validate_name`. */
  function ValidateName(name: Name): Option<VfsError> {
    if name == [] || name == DOT || name == DOTS || SLASH in name || 0 in name then Some(InvalidName)
    else if |name| > NAME_MAX then Some(NameTooLong)
    else None
  }

  predicate GoodName(name: Name) {
    ValidateName(name).None?
  }

  predicate GoodNames(names: seq<Name>) {
    forall i :: 0 <= i < |names| ==> GoodName(names[i])
  }

  // ------------------------------------------------------ splitting and joining

  /** A slash opens a new piece; any other byte belongs to the first one. */
  function Glue(c: byte, parts: seq<Name>): seq<Name>
    requires |parts| > 0
  {
    if c == SLASH then [[]] + parts else [[c] + parts[0]] + parts[1..]
  }

  /** The pieces between slashes. */
  function Split(s: Path): (parts: seq<Name>)
    ensures |parts| > 0
  {
    if s == [] then [[]] else Glue(s[0], Split(s[1..]))
  }

  lemma GlueSlash(b: Path)
    ensures Glue(SLASH, Split(b)) == Split([]) + Split(b)
  {
  }

  lemma GlueConcat(c: byte, a: seq<Name>, b: seq<Name>)
    requires |a| > 0
    ensures Glue(c, a + b) == Glue(c, a) + b
  {
    assert (a + b)[1..] == a[1..] + b;
  }

  /** Each name behind a slash. */
  function Slashed(names: seq<Name>): Path {
    if names == [] then [] else Slashed(names[..|names| - 1]) + [SLASH] + names[|names| - 1]
  }

  /** The absolute path with these components. */
  function Render(names: seq<Name>): Path {
    if names == [] then [SLASH] else Slashed(names)
  }

  lemma {:induction false} SplitJoin(a: Path, b: Path)
    ensures Split(a + [SLASH] + b) == Split(a) + Split(b)
    decreases |a|
  {
    hide Glue;
    if a == [] {
      assert (a + [SLASH] + b)[1..] == b;
      GlueSlash(b);
    } else {
      SplitJoin(a[1..], b);
      assert (a + [SLASH] + b)[1..] == a[1..] + [SLASH] + b;
      GlueConcat(a[0], Split(a[1..]), Split(b));
    }
  }

  lemma {:induction false} SplitName(name: Name)
    requires SLASH !in name
    ensures Split(name) == [name]
    decreases |name|
  {
    if name != [] {
      SplitName(name[1..]);
      assert [name[0]] + name[1..] == name;
    }
  }

  lemma {:induction false} SplitSlashed(names: seq<Name>)
    requires GoodNames(names)
    ensures Split(Slashed(names)) == [[]] + names
    decreases |names|
  {
    if names != [] {
      var n := |names| - 1;
      SplitSlashed(names[..n]);
      SplitJoin(Slashed(names[..n]), names[n]);
      assert GoodName(names[n]);
      SplitName(names[n]);
      assert names == names[..n] + [names[n]];
    }
  }

  /** Components determine the path and the path its components. */
  lemma RenderInjective(a: seq<Name>, b: seq<Name>)
    requires GoodNames(a) && GoodNames(b) && Render(a) == Render(b)
    ensures a == b
  {
    SplitSlashed(a);
    SplitSlashed(b);
    SlashedLength(a);
    SlashedLength(b);
    assert ([[]] + a)[1..] == a && ([[]] + b)[1..] == b;
  }

  lemma {:induction false} SlashedLength(names: seq<Name>)
    requires GoodNames(names)
    ensures |Slashed(names)| >= 2 * |names|
    ensures names != [] ==> Slashed(names)[0] == SLASH
    decreases |names|
  {
    if names != [] {
      var n := |names| - 1;
      SlashedLength(names[..n]);
      assert GoodName(names[n]);
    }
  }

  lemma NothingSlashed()
    ensures Slashed([]) == []
  {
  }

  lemma SlashedLast(names: seq<Name>)
    requires names != []
    ensures Slashed(names) == Slashed(names[..|names| - 1]) + [SLASH] + names[|names| - 1]
  {
  }

  lemma {:induction false} SlashedConcat(a: seq<Name>, b: seq<Name>)
    ensures Slashed(a + b) == Slashed(a) + Slashed(b)
    decreases |b|
  {
    hide Slashed;
    if b == [] {
      assert a + b == a;
      NothingSlashed();
    } else {
      var n := |b| - 1;
      SlashedConcat(a, b[..n]);
      assert (a + b)[..|a + b| - 1] == a + b[..n];
      SlashedLast(a + b);
      SlashedLast(b);
      Regroup(Slashed(a), Slashed(b[..n]), [SLASH]);
      Regroup(Slashed(a), Slashed(b[..n]) + [SLASH], b[n]);
    }
  }

  // -------------------------------------------------------------- normalising

  /** `push_components`: what the pieces of a path do to the components before them. */
  function Apply(stack: seq<Name>, parts: seq<Name>): Result<seq<Name>, VfsError>
    decreases |parts|
  {
    if parts == [] then Ok(stack)
    else
      var part, rest := parts[0], parts[1..];
      if part == [] || part == DOT then Apply(stack, rest)
      else if part == DOTS then Apply(if stack == [] then [] else stack[..|stack| - 1], rest)
      else
        var bad := ValidateName(part);
        if bad.Some? then Err(bad.value) else Apply(stack + [part], rest)
  }

  function Components(base: Path, path: Path): Result<seq<Name>, VfsError> {
    if path != [] && path[0] == SLASH then Apply([], Split(path))
    else
      var stack := Apply([], Split(base));
      if stack.Err? then stack else Apply(stack.value, Split(path))
  }

  function Normalized(base: Path, path: Path): Result<Path, VfsError> {
    if path == [] || 0 in path then Err(InvalidPath)
    else if base == [] || base[0] != SLASH || 0 in base then Err(InvalidPath)
    else
      var names := Components(base, path);
      if names.Err? then Err(names.error)
      else if |Render(names.value)| > PATH_MAX then Err(NameTooLong)
      else Ok(Render(names.value))
  }

  /** The components of an absolute path that the VFS accepts. */
  function Named(path: Path): Result<seq<Name>, VfsError> {
    var normal := Normalized([SLASH], path);
    if normal.Err? then Err(normal.error) else Components([SLASH], path)
  }

  ghost predicate Canonical(path: Path) {
    exists names :: GoodNames(names) && path == Render(names) && |path| <= PATH_MAX
  }

  lemma {:induction false} ApplyConcat(stack: seq<Name>, a: seq<Name>, b: seq<Name>)
    ensures Apply(stack, a + b) == var r := Apply(stack, a); if r.Err? then r else Apply(r.value, b)
    decreases |a|
  {
    if a == [] {
      assert a + b == b;
    } else {
      assert (a + b)[1..] == a[1..] + b;
      var part := a[0];
      if part == [] || part == DOT {
        ApplyConcat(stack, a[1..], b);
      } else if part == DOTS {
        ApplyConcat(if stack == [] then [] else stack[..|stack| - 1], a[1..], b);
      } else if ValidateName(part).None? {
        ApplyConcat(stack + [part], a[1..], b);
      }
    }
  }

  lemma {:induction false} ApplyGood(stack: seq<Name>, parts: seq<Name>)
    requires GoodNames(stack)
    ensures Apply(stack, parts).Ok? ==> GoodNames(Apply(stack, parts).value)
    decreases |parts|
  {
    if parts != [] {
      var part, rest := parts[0], parts[1..];
      if part == [] || part == DOT {
        ApplyGood(stack, rest);
      } else if part == DOTS {
        ApplyGood(if stack == [] then [] else stack[..|stack| - 1], rest);
      } else if ValidateName(part).None? {
        assert GoodName(part);
        ApplyGood(stack + [part], rest);
      }
    }
  }

  lemma {:induction false} ApplyNames(stack: seq<Name>, names: seq<Name>)
    requires GoodNames(names)
    ensures Apply(stack, names) == Ok(stack + names)
    decreases |names|
  {
    if names != [] {
      assert GoodName(names[0]);
      ApplyNames(stack + [names[0]], names[1..]);
      assert stack + [names[0]] + names[1..] == stack + names;
    } else {
      assert stack + names == stack;
    }
  }

  /** Normalising yields canonical paths only. */
  lemma NormalizedIsCanonical(base: Path, path: Path)
    ensures Normalized(base, path).Ok? ==> Canonical(Normalized(base, path).value)
  {
    if Normalized(base, path).Ok? {
      ApplyGood([], Split(path));
      ApplyGood([], Split(base));
      if Apply([], Split(base)).Ok? {
        ApplyGood(Apply([], Split(base)).value, Split(path));
      }
    }
  }

  lemma NamedRenders(path: Path)
    ensures Named(path).Ok? <==> Normalized([SLASH], path).Ok?
    ensures Named(path).Err? ==> Named(path).error == Normalized([SLASH], path).error
    ensures Named(path).Ok? ==>
              GoodNames(Named(path).value) && Normalized([SLASH], path).value == Render(Named(path).value)
  {
    if Named(path).Ok? {
      ApplyGood([], Split(path));
      ApplyGood([], Split([SLASH]));
      if Apply([], Split([SLASH])).Ok? {
        ApplyGood(Apply([], Split([SLASH])).value, Split(path));
      }
    }
  }

  lemma {:induction false} NoNul(names: seq<Name>)
    requires GoodNames(names)
    ensures 0 !in Slashed(names)
    decreases |names|
  {
    if names != [] {
      NoNul(names[..|names| - 1]);
      assert GoodName(names[|names| - 1]);
    }
  }

  lemma RenderedComponents(base: Path, names: seq<Name>)
    requires GoodNames(names)
    ensures Components(base, Render(names)) == Ok(names)
    ensures 0 !in Render(names) && Render(names) != []
  {
    NoNul(names);
    SlashedLength(names);
    if names == [] {
      var blank: seq<Name> := [[], []];
      assert Split([SLASH]) == blank by { assert [SLASH][1..] == []; assert Split([]) == [[]]; }
      assert blank[1..] == [[]] && blank[1..][1..] == [];
      assert Apply([], blank) == Apply([], blank[1..]) == Apply([], []);
    } else {
      SplitSlashed(names);
      assert ([[]] + names)[1..] == names;
      ApplyNames([], names);
      assert [] + names == names;
    }
  }

  /** A canonical path is its own normal form, whatever it is taken relative to. */
  lemma NormalizedIsIdempotent(base: Path, path: Path)
    requires Canonical(path) && base != [] && base[0] == SLASH && 0 !in base
    ensures Normalized(base, path) == Ok(path)
  {
    var names :| GoodNames(names) && path == Render(names);
    RenderedComponents(base, names);
  }

  /** A relative path is taken as if it were written behind its base, errors included. */
  lemma RelativeIsJoined(base: Path, path: Path)
    requires base != [] && base[0] == SLASH && path != [] && path[0] != SLASH
    ensures Normalized(base, path) == Normalized([SLASH], base + [SLASH] + path)
  {
    var joined := base + [SLASH] + path;
    assert 0 in joined <==> 0 in base || 0 in path;
    SplitJoin(base, path);
    ApplyConcat([], Split(base), Split(path));
  }

  /** A piece of a path that is no path of its own: no slash in it, and not nothing. */
  predicate Piece(part: Name) {
    part != [] && SLASH !in part && 0 !in part
  }

  /** One piece, taken from a canonical path on. */
  lemma OnePiece(names: seq<Name>, part: Name)
    requires GoodNames(names) && Piece(part)
    ensures Components(Render(names), part) == Apply(names, [part])
    ensures Render(names) != [] && Render(names)[0] == SLASH && 0 !in Render(names)
  {
    hide Slashed, Apply, GoodNames;
    RenderedComponents([SLASH], names);
    SlashedLength(names);
    SplitName(part);
  }

  lemma OneApplied(stack: seq<Name>, part: Name)
    requires Piece(part)
    ensures Apply(stack, [part]) ==
            if part == DOT then Ok(stack)
            else if part == DOTS then Ok(if stack == [] then [] else stack[..|stack| - 1])
            else if GoodName(part) then Ok(stack + [part]) else Err(NameTooLong)
    ensures !GoodName(part) && part != DOT && part != DOTS ==> |part| > NAME_MAX
  {
    var one: seq<Name> := [part];
    assert one[1..] == [];
  }

  /** A name leads down. */
  lemma NameDescends(names: seq<Name>, name: Name)
    requires GoodNames(names) && GoodName(name)
    ensures Normalized(Render(names), name) ==
            if |Render(names + [name])| <= PATH_MAX then Ok(Render(names + [name])) else Err(NameTooLong)
  {
    hide Render, Apply, Components;
    OnePiece(names, name);
    OneApplied(names, name);
  }

  /** One dot stays. */
  lemma DotStays(names: seq<Name>)
    requires GoodNames(names) && |Render(names)| <= PATH_MAX
    ensures Normalized(Render(names), DOT) == Ok(Render(names))
  {
    hide Render, Apply, Components;
    OnePiece(names, DOT);
    OneApplied(names, DOT);
  }

  /** Two dots lead to the directory above, and from the root nowhere. */
  lemma DotsAscend(names: seq<Name>, name: Name)
    requires GoodNames(names) && GoodName(name) && |Render(names)| <= PATH_MAX
    ensures Normalized(Render(names + [name]), DOTS) == Ok(Render(names))
    ensures Normalized([SLASH], DOTS) == Ok([SLASH])
  {
    hide Render, Apply, Components;
    var below := names + [name];
    assert below[..|below| - 1] == names;
    OnePiece(below, DOTS);
    OneApplied(below, DOTS);
    RootIsSlash();
    OnePiece([], DOTS);
    OneApplied([], DOTS);
  }

  lemma RootIsSlash()
    ensures Render([]) == [SLASH]
  {
    NothingSlashed();
  }

  /** Any other piece is refused for what is wrong with it. */
  lemma BadNameRefused(names: seq<Name>, part: Name)
    requires GoodNames(names) && Piece(part) && part != DOT && part != DOTS && !GoodName(part)
    ensures |part| > NAME_MAX && Normalized(Render(names), part) == Err(NameTooLong)
  {
    hide Render, Apply, Components;
    OnePiece(names, part);
    OneApplied(names, part);
  }

  /**
   Pieces are taken one after the other: whatever is written behind an accepted path is taken from its normal
   form on.  With the laws above this determines every normal form.
   */
  lemma PathsCompose(base: Path, a: Path, b: Path)
    requires Normalized(base, a).Ok? && 0 !in b
    ensures Normalized(base, a + [SLASH] + b) == Normalized(Normalized(base, a).value, DOT + [SLASH] + b)
  {
    hide Render, Split, Apply;
    NormalizedIsCanonical(base, a);
    var names := Components(base, a).value;
    ComponentsGood(base, a);
    RenderedComponents([SLASH], names);
    SlashedStart(names);
    SplitJoin(a, b);
    SplitJoin(DOT, b);
    DotSplits();
    var stack := if a[0] == SLASH then [] else Apply([], Split(base)).value;
    ApplyConcat(stack, Split(a), Split(b));
    ApplyConcat(names, [DOT], Split(b));
    DotApplies(names);
    assert (a + [SLASH] + b)[0] == a[0];
    assert 0 !in a + [SLASH] + b && 0 !in DOT + [SLASH] + b;
  }

  lemma DotSplits()
    ensures Split(DOT) == [DOT]
  {
    SplitName(DOT);
  }

  lemma DotApplies(stack: seq<Name>)
    ensures Apply(stack, [DOT]) == Ok(stack)
  {
    assert [DOT][1..] == [];
  }

  lemma SlashedStart(names: seq<Name>)
    requires GoodNames(names)
    ensures Render(names) != [] && Render(names)[0] == SLASH
  {
    SlashedLength(names);
  }

  lemma ComponentsGood(base: Path, path: Path)
    ensures Components(base, path).Ok? ==> GoodNames(Components(base, path).value)
  {
    ApplyGood([], Split(path));
    ApplyGood([], Split(base));
    if Apply([], Split(base)).Ok? {
      ApplyGood(Apply([], Split(base)).value, Split(path));
    }
  }

  /** So two dots undo the name before them. */
  lemma DotsUndo(names: seq<Name>, name: Name)
    requires GoodNames(names) && GoodName(name) && |Render(names + [name])| <= PATH_MAX
    ensures Normalized([SLASH], Render(names) + [SLASH] + name + [SLASH] + DOTS) == Ok(Render(names))
    ensures Normalized([SLASH], [SLASH] + DOTS) == Ok([SLASH])
  {
    hide Render, Apply, Split;
    var base := Render(names) + [SLASH] + name;
    SlashedStart(names);
    BehindNames(names, name);
    RelativeIsJoined(base, DOTS);
    var below := names + [name];
    assert below[..|below| - 1] == names;
    SplitName(DOTS);
    OneApplied(below, DOTS);
    assert |Render(names)| <= PATH_MAX by { ShorterAbove(names, name); }
    UpFromRoot();
  }

  lemma BehindNames(names: seq<Name>, name: Name)
    requires GoodNames(names) && GoodName(name)
    ensures var base := Render(names) + [SLASH] + name;
            Apply([], Split(base)) == Ok(names + [name]) && base[0] == SLASH && 0 !in base
  {
    hide Render, Apply, Split;
    RenderedComponents([SLASH], names);
    SlashedStart(names);
    SplitJoin(Render(names), name);
    SplitName(name);
    ApplyConcat([], Split(Render(names)), [name]);
    OneApplied(names, name);
  }

  lemma ShorterAbove(names: seq<Name>, name: Name)
    requires GoodNames(names) && GoodName(name)
    ensures |Render(names)| < |Render(names + [name])|
  {
    var below := names + [name];
    assert below[..|below| - 1] == names;
    SlashedLast(below);
    SlashedLength(names);
  }

  lemma UpFromRoot()
    ensures Normalized([SLASH], [SLASH] + DOTS) == Ok([SLASH])
  {
    hide Split;
    SplitJoin([], DOTS);
    assert [] + [SLASH] + DOTS == [SLASH] + DOTS;
    SplitName(DOTS);
    assert Split([]) == [[]] by { NothingSplits(); }
    var parts: seq<Name> := [[], DOTS];
    assert parts[1..] == [DOTS];
    OneApplied([], DOTS);
    RootIsSlash();
  }

  lemma NothingSplits()
    ensures Split([]) == [[]]
  {
  }

  /** `normalize_path`. */
  method NormalizePath(base: Path, path: Path) returns (r: Result<Path, VfsError>)
    ensures r == Normalized(base, path)
  {
    hide Apply, Split, Render;
    if path == [] || 0 in path {
      return Err(InvalidPath);
    }
    if base == [] || base[0] != SLASH || 0 in base {
      return Err(InvalidPath);
    }
    var components: Result<seq<Name>, VfsError> := Ok([]);
    if path[0] != SLASH {
      components := PushComponents([], base);
    }
    if components.Ok? {
      components := PushComponents(components.value, path);
    }
    if components.Err? {
      return Err(components.error);
    }
    var normalized := RenderNames(components.value);
    if |normalized| > PATH_MAX {
      return Err(NameTooLong);
    }
    return Ok(normalized);
  }

  method RenderNames(names: seq<Name>) returns (normalized: Path)
    ensures normalized == Render(names)
  {
    normalized := [SLASH];
    var index := 0;
    while index < |names|
      invariant index <= |names| && normalized == Render(names[..index])
    {
      assert names[..index + 1][..index] == names[..index];
      if index > 0 {
        normalized := normalized + [SLASH];
      } else {
        assert Slashed([]) == [];
      }
      normalized := normalized + names[index];
      index := index + 1;
    }
    assert names[..index] == names;
  }

  method PushComponents(components: seq<Name>, path: Path) returns (r: Result<seq<Name>, VfsError>)
    ensures r == Apply(components, Split(path))
  {
    var parts, k := Split(path), 0;
    r := Ok(components);
    while k < |parts| && r.Ok?
      invariant k <= |parts|
      invariant Apply(components, parts) == if r.Err? then r else Apply(r.value, parts[k..])
      decreases |parts| - k, if r.Ok? then 1 else 0
    {
      var part, stack := parts[k], r.value;
      assert parts[k..][1..] == parts[k + 1..];
      if part == [] || part == DOT {
      } else if part == DOTS {
        r := Ok(if stack == [] then [] else stack[..|stack| - 1]);
      } else {
        var bad := ValidateName(part);
        r := if bad.Some? then Err(bad.value) else Ok(stack + [part]);
      }
      k := k + 1;
    }
  }
}

/** The directory tree of GenericFS, as its inode table describes it. */
module GenericFsTree {
  import opened Wrappers
  import opened VfsErrors
  import opened LittleEndian
  import opened GenericFsDisk

  /** Entry `i - 1` describes inode `i`. */
  type Table = t: seq<DiskInode> | |t| == INODE_COUNT witness seq(INODE_COUNT, _ => EMPTY)

  const SLASH: byte := 47
  const DOT: byte := 46

  // ------------------------------------------------------------------- names

  predicate Continuation(b: byte) {
    0x80 <= b <= 0xbf
  }

  /** Well-formed UTF-8, as table 3-7 of the Unicode Standard lists it. */
  predicate Utf8(s: seq<byte>) {
    if s == [] then true
    else if s[0] <= 0x7f then Utf8(s[1..])
    else if 0xc2 <= s[0] <= 0xdf then |s| >= 2 && Continuation(s[1]) && Utf8(s[2..])
    else if 0xe0 <= s[0] <= 0xef then
      && |s| >= 3 && Continuation(s[1]) && Continuation(s[2])
      && (s[0] == 0xe0 ==> 0xa0 <= s[1]) && (s[0] == 0xed ==> s[1] <= 0x9f)
      && Utf8(s[3..])
    else if 0xf0 <= s[0] <= 0xf4 then
      && |s| >= 4 && Continuation(s[1]) && Continuation(s[2]) && Continuation(s[3])
      && (s[0] == 0xf0 ==> 0x90 <= s[1]) && (s[0] == 0xf4 ==> s[1] <= 0x8f)
      && Utf8(s[4..])
    else false
  }

  /** `validate_disk_name`. */
  function ValidateName(name: seq<byte>): Option<VfsError> {
    if name == [] || name == [DOT] || name == [DOT, DOT] || SLASH in name || 0 in name then Some(InvalidName)
    else if |name| > MAX_DISK_NAME then Some(NameTooLong)
    else None
  }

  function Name(e: DiskInode): seq<byte> {
    if e.nameLen <= |e.name| then e.name[..e.nameLen] else e.name
  }

  predicate GoodName(e: DiskInode) {
    e.nameLen <= MAX_DISK_NAME && |e.name| == 64 && ValidateName(Name(e)).None? && Utf8(Name(e))
  }

  function NewEntry(kind: nat, parent: nat, name: seq<byte>): DiskInode
    requires |name| <= MAX_DISK_NAME
  {
    DiskInode(kind, |name|, parent, 0, 0, 0, name + Zeros(64 - |name|))
  }

  // ------------------------------------------------------------- the invariant

  /** An inode other than the root is in use. */
  predicate Live(t: Table, i: nat) {
    2 <= i <= INODE_COUNT && t[i - 1].kind != 0
  }

  predicate Unused(t: Table, i: nat) {
    1 <= i <= INODE_COUNT && t[i - 1].kind == 0
  }

  predicate IsDirectory(t: Table, i: nat) {
    1 <= i <= INODE_COUNT && t[i - 1].kind == 2
  }

  /** Inode `i` is `n` parent steps below the root. */
  ghost predicate Rooted(t: Table, i: nat, n: nat)
    decreases n
  {
    if n == 0 then i == 1 else Live(t, i) && Rooted(t, t[i - 1].parent, n - 1)
  }

  ghost predicate Placed(t: Table, i: nat) {
    exists n: nat :: Rooted(t, i, n)
  }

  ghost predicate Siblings(t: Table, i: nat, j: nat) {
    Live(t, i) && Live(t, j) && t[i - 1].parent == t[j - 1].parent && Name(t[i - 1]) == Name(t[j - 1])
  }

  ghost predicate Shaped(t: Table) {
    && t[0].kind == 2
    && forall i :: Live(t, i) ==> t[i - 1].kind <= 2 && IsDirectory(t, t[i - 1].parent) && GoodName(t[i - 1])
  }

  ghost predicate UniqueNames(t: Table) {
    forall i, j :: Siblings(t, i, j) ==> i == j
  }

  ghost predicate AllPlaced(t: Table) {
    forall i :: Live(t, i) ==> Placed(t, i)
  }

  /** Live inodes form a tree under inode 1, with valid names that are unique per directory. */
  ghost predicate Tree(t: Table) {
    Shaped(t) && UniqueNames(t) && AllPlaced(t)
  }

  // ------------------------------------------------------------------ lookups

  predicate IsChild(t: Table, parent: nat, name: seq<byte>, i: nat) {
    Live(t, i) && t[i - 1].parent == parent && Name(t[i - 1]) == name
  }

  /** `find_child`: the first inode from `i` on that is the named child. */
  function FindChild(t: Table, parent: nat, name: seq<byte>, i: nat): Option<nat>
    decreases INODE_COUNT + 1 - i, t
  {
    if i > INODE_COUNT then None
    else if IsChild(t, parent, name, i) then Some(i)
    else FindChild(t, parent, name, i + 1)
  }

  lemma {:induction false} FindChildFinds(t: Table, parent: nat, name: seq<byte>, i: nat)
    ensures match FindChild(t, parent, name, i)
            case None => forall j :: i <= j ==> !IsChild(t, parent, name, j)
            case Some(k) =>
              i <= k && IsChild(t, parent, name, k) && forall j :: i <= j < k ==> !IsChild(t, parent, name, j)
    decreases INODE_COUNT + 1 - i
  {
    if i <= INODE_COUNT && !IsChild(t, parent, name, i) {
      FindChildFinds(t, parent, name, i + 1);
    }
  }

  /** `allocate_inode`: the first unused inode from `i` on. */
  function FreeInode(t: Table, i: nat): Option<nat>
    requires i >= 1
    decreases INODE_COUNT + 1 - i, t
  {
    if i > INODE_COUNT then None else if Unused(t, i) then Some(i) else FreeInode(t, i + 1)
  }

  lemma {:induction false} FreeInodeFinds(t: Table, i: nat)
    requires i >= 1
    ensures match FreeInode(t, i)
            case None => forall j :: i <= j ==> !Unused(t, j)
            case Some(k) => i <= k && Unused(t, k) && forall j :: i <= j < k ==> !Unused(t, j)
    decreases INODE_COUNT + 1 - i
  {
    if i <= INODE_COUNT && !Unused(t, i) {
      FreeInodeFinds(t, i + 1);
    }
  }

  predicate HasChildren(t: Table, i: nat) {
    exists j :: 2 <= j <= INODE_COUNT && Live(t, j) && t[j - 1].parent == i
  }

  // --------------------------------------------------------------- operations

  /** What `create` returns and what it leaves in the table. */
  function Create(t: Table, parent: nat, name: seq<byte>, kind: nat): (r: (Result<nat, VfsError>, Table)) {
    var bad := ValidateName(name);
    if bad.Some? then (Err(bad.value), t)
    else if !(1 <= parent <= INODE_COUNT) || t[parent - 1].kind == 0 then (Err(NotFound), t)
    else if t[parent - 1].kind != 2 then (Err(NotDirectory), t)
    else if FindChild(t, parent, name, 2).Some? then (Err(AlreadyExists), t)
    else
      match FreeInode(t, 2)
      case None => (Err(NoSpace), t)
      case Some(i) => FreeInodeFinds(t, 2); (Ok(i), t[i - 1 := NewEntry(kind, parent, name)])
  }

  /** What `remove` returns and what it leaves in the table. */
  function Remove(t: Table, parent: nat, name: seq<byte>): (r: (Result<nat, VfsError>, Table)) {
    match FindChild(t, parent, name, 2)
    case None => (Err(NotFound), t)
    case Some(i) =>
      FindChildFinds(t, parent, name, 2);
      if t[i - 1].kind == 2 && HasChildren(t, i) then (Err(DirectoryNotEmpty), t)
      else (Ok(i), t[i - 1 := EMPTY])
  }

  lemma {:induction false} RootedElsewhere(t: Table, t': Table, i: nat, n: nat, changed: nat)
    requires 2 <= changed <= INODE_COUNT && t' == t[changed - 1 := t'[changed - 1]]
    requires forall j :: Live(t, j) && j != changed ==> t[j - 1].parent != changed
    requires i != changed && Rooted(t, i, n)
    ensures Rooted(t', i, n)
    decreases n
  {
    if n > 0 {
      RootedElsewhere(t, t', t[i - 1].parent, n - 1, changed);
    }
  }

  lemma PlacedElsewhere(t: Table, t': Table, changed: nat)
    requires 2 <= changed <= INODE_COUNT && t' == t[changed - 1 := t'[changed - 1]] && Tree(t)
    requires forall j :: Live(t, j) && j != changed ==> t[j - 1].parent != changed
    ensures forall i :: Live(t, i) && i != changed ==> Placed(t', i)
  {
    forall i | Live(t, i) && i != changed
      ensures Placed(t', i)
    {
      var n: nat :| Rooted(t, i, n);
      RootedElsewhere(t, t', i, n, changed);
    }
  }

  lemma NewEntryIsGood(kind: nat, parent: nat, name: seq<byte>)
    requires ValidateName(name).None? && Utf8(name)
    ensures GoodName(NewEntry(kind, parent, name)) && Name(NewEntry(kind, parent, name)) == name
  {
    assert NewEntry(kind, parent, name).name[..|name|] == name;
  }

  /** Creating keeps the tree, even in a reused inode. */
  lemma CreateKeepsTree(t: Table, parent: nat, name: seq<byte>, kind: nat)
    requires Tree(t) && Utf8(name) && 1 <= kind <= 2
    ensures Tree(Create(t, parent, name, kind).1)
  {
    if Create(t, parent, name, kind).0.Ok? {
      var i := Create(t, parent, name, kind).0.value;
      FreeInodeFinds(t, 2);
      FindChildFinds(t, parent, name, 2);
      NewEntryIsGood(kind, parent, name);
      AddKeepsTree(t, i, NewEntry(kind, parent, name));
    }
  }

  /** A well-named entry with a new name in a directory can go into any unused inode. */
  lemma AddKeepsTree(t: Table, i: nat, e: DiskInode)
    requires Tree(t) && 2 <= i && Unused(t, i) && 1 <= e.kind <= 2 && GoodName(e) && IsDirectory(t, e.parent)
    requires forall j :: 2 <= j ==> !IsChild(t, e.parent, Name(e), j)
    ensures Tree(t[i - 1 := e])
  {
    hide GoodName, Name;
    var t' := t[i - 1 := e];
    assert forall j :: j != i ==> (Live(t', j) <==> Live(t, j));
    forall j | Live(t, j)
      ensures t[j - 1].parent != i
    {
      assert IsDirectory(t, t[j - 1].parent);
    }
    assert UniqueNames(t') by {
      forall j: nat, k: nat | Siblings(t', j, k)
        ensures j == k
      {
        assert j != i && k != i ==> Siblings(t, j, k);
        assert j != i && k == i ==> IsChild(t, e.parent, Name(e), j);
        assert j == i && k != i ==> IsChild(t, e.parent, Name(e), k);
      }
    }
    assert AllPlaced(t') by {
      PlacedElsewhere(t, t', i);
      PlacedParent(t, e.parent);
      var n: nat :| Rooted(t, e.parent, n);
      RootedElsewhere(t, t', e.parent, n, i);
      assert Rooted(t', i, n + 1);
    }
  }

  lemma PlacedParent(t: Table, parent: nat)
    requires Tree(t) && IsDirectory(t, parent)
    ensures Placed(t, parent)
  {
    if parent == 1 {
      assert Rooted(t, 1, 0);
    } else {
      assert Live(t, parent);
    }
  }

  /** Removing a file or an empty directory keeps the tree. */
  lemma RemoveKeepsTree(t: Table, parent: nat, name: seq<byte>)
    requires Tree(t)
    ensures Tree(Remove(t, parent, name).1)
  {
    if Remove(t, parent, name).0.Ok? {
      var i := Remove(t, parent, name).0.value;
      FindChildFinds(t, parent, name, 2);
      forall j | Live(t, j) && j != i
        ensures t[j - 1].parent != i
      {
        assert IsDirectory(t, t[j - 1].parent);
      }
      DropKeepsTree(t, i);
    }
  }

  lemma DropKeepsTree(t: Table, i: nat)
    requires Tree(t) && 2 <= i <= INODE_COUNT
    requires forall j :: Live(t, j) && j != i ==> t[j - 1].parent != i
    ensures Tree(t[i - 1 := EMPTY])
  {
    hide GoodName, Name;
    var t' := t[i - 1 := EMPTY];
    assert forall j :: Live(t', j) <==> Live(t, j) && j != i;
    PlacedElsewhere(t, t', i);
    assert forall j, k :: Siblings(t', j, k) ==> Siblings(t, j, k);
  }
}

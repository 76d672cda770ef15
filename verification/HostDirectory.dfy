/** From a directory of the build machine to the mounted tree: what the archive carries over. */
module HostDirectory {
  import opened Wrappers
  import opened VfsErrors
  import opened LittleEndian
  import opened Paths
  import opened Initramfs
  import opened PathTree
  import opened Sequences
  import opened Unpack
  import opened MountedTree = Vfs

  datatype Host = HostFile(data: seq<byte>) | HostDirectory(items: seq<Item>)

  datatype Item = Item(name: Name, host: Host)

  const BACKSLASH: byte := 0x5C

  /** A name that the archive carries as it is: one that can be looked up, without a backslash. */
  predicate PlainName(name: Name) {
    GoodName(name) && BACKSLASH !in name
  }

  predicate Plain(p: seq<Name>) {
    forall i :: 0 <= i < |p| ==> PlainName(p[i])
  }

  /** Plain names, each only once. */
  ghost predicate NamedApart(items: seq<Item>) {
    && (forall i :: 0 <= i < |items| ==> PlainName(items[i].name))
    && (forall i, j :: 0 <= i < j < |items| ==> items[i].name != items[j].name)
  }

  /** So are the names of every directory, all the way down. */
  ghost predicate Proper(items: seq<Item>) {
    NamedApart(items) && forall item :: item in items && item.host.HostDirectory? ==> Proper(item.host.items)
  }

  // ---------------------------------------------------------------- the records

  /** The path of a file relative to the root, as the archive spells it. */
  function Relative(p: seq<Name>): Path {
    if p == [] then [] else if |p| == 1 then p[0] else Relative(p[..|p| - 1]) + [SLASH] + p[|p| - 1]
  }

  lemma {:induction false} RelativeIsBelowRoot(p: seq<Name>)
    requires p != []
    ensures [SLASH] + Relative(p) == Slashed(p)
  {
    SlashedLast(p);
    if |p| == 1 {
      NothingSlashed();
      assert p[..0] == [] && [] + [SLASH] == [SLASH];
    } else {
      RelativeIsBelowRoot(p[..|p| - 1]);
    }
  }

  /** Backslashes of the build machine become slashes. */
  function Portable(path: Path): (r: Path)
    ensures BACKSLASH !in path ==> r == path
    ensures |r| == |path| && forall i :: 0 <= i < |r| ==> r[i] == if path[i] == BACKSLASH then SLASH else path[i]
  {
    seq(|path|, i requires 0 <= i < |path| => if path[i] == BACKSLASH then SLASH else path[i])
  }

  lemma {:induction false} PlainStays(p: seq<Name>)
    requires Plain(p)
    ensures BACKSLASH !in Relative(p) && GoodNames(p)
    decreases |p|
  {
    if |p| > 1 {
      PlainStays(p[..|p| - 1]);
    }
    assert p != [] ==> PlainName(p[|p| - 1]);
  }

  function EntryFor(host: Host): Entry {
    match host
    case HostFile(data) => File(data)
    case HostDirectory(_) => Directory
  }

  function RecordFor(p: seq<Name>, host: Host): Record {
    match host
    case HostFile(data) => Record(FILE, Portable(Relative(p)), data)
    case HostDirectory(_) => Record(DIRECTORY, Portable(Relative(p)), [])
  }

  /** `append_directory`: each directory before what is in it. */
  function DirRecords(p: seq<Name>, items: seq<Item>): seq<Record>
    decreases items
  {
    if items == [] then []
    else
      var item := items[|items| - 1];
      DirRecords(p, items[..|items| - 1]) + ([RecordFor(p + [item.name], item.host)] +
      match item.host
      case HostFile(_) => []
      case HostDirectory(inner) => DirRecords(p + [item.name], inner))
  }

  function Inner(x: seq<Name>, host: Host): seq<Record> {
    if host.HostDirectory? then DirRecords(x, host.items) else []
  }

  // ----------------------------------------------------------------- what is meant

  /** What the names lead to in a directory of the build machine. */
  function LookUp(items: seq<Item>, names: seq<Name>): Option<Entry>
    decreases items
  {
    if items == [] || names == [] then None
    else
      var item := items[|items| - 1];
      if item.name != names[0] then LookUp(items[..|items| - 1], names)
      else if |names| == 1 then Some(EntryFor(item.host))
      else
        match item.host
        case HostFile(_) => None
        case HostDirectory(inner) => LookUp(inner, names[1..])
  }

  /** What a directory laid over path `p` puts at path `q`. */
  function Laid(p: seq<Name>, items: seq<Item>, q: seq<Name>): Option<Entry> {
    if p < q then LookUp(items, q[|p|..]) else None
  }

  ghost function Overlay(t: Tree, p: seq<Name>, items: seq<Item>): Tree {
    imap q: seq<Name> | q in t || Laid(p, items, q).Some? ::
      if Laid(p, items, q).Some? then Laid(p, items, q).value else t[q]
  }

  /** An entry can be put at a path: the path is short enough, and what is there is of the same kind. */
  ghost predicate Agrees(t: Tree, q: seq<Name>, entry: Entry) {
    |Render(q)| <= PATH_MAX && (q in t ==> (t[q] == Directory <==> entry == Directory))
  }

  ghost predicate AllAgree(t: Tree, p: seq<Name>, items: seq<Item>) {
    forall q :: Laid(p, items, q).Some? ==> Agrees(t, q, Laid(p, items, q).value)
  }

  // -------------------------------------------------------------------- the proof

  lemma {:induction false} InstallsConcat(t: Tree, a: seq<Record>, b: seq<Record>)
    ensures Applied(t, a + b) == Applied(Applied(t, a), b)
    ensures Installs(t, a + b) <==> Installs(t, a) && Installs(Applied(t, a), b)
    decreases |b|
  {
    hide Fits, Key, Left;
    if b == [] {
      assert a + b == a;
    } else {
      var n := |b| - 1;
      InstallsConcat(t, a, b[..n]);
      assert (a + b)[..|a| + n] == a + b[..n] && b[..n] + [b[n]] == b;
      InstallsLast(t, a + b);
      InstallsLast(Applied(t, a), b);
    }
  }

  lemma InstallsLast(t: Tree, rs: seq<Record>)
    requires rs != []
    ensures var n := |rs| - 1; Installs(t, rs) <==> Installs(t, rs[..n]) && Fits(Applied(t, rs[..n]), rs[n])
  {
    hide Fits, Applied;
    var n := |rs| - 1;
    forall k | 0 <= k < n
      ensures FitsNext(t, rs, k) <==> FitsNext(t, rs[..n], k)
    {
      assert rs[..n][..k] == rs[..k];
    }
    assert Installs(t, rs) ==> FitsNext(t, rs, n);
  }

  /** The record of a path names that path, if it is not too long. */
  lemma RecordNames(p: seq<Name>, host: Host)
    requires Plain(p) && p != []
    ensures Key(RecordFor(p, host)) == if |Render(p)| <= PATH_MAX then Ok(p) else Err(NameTooLong)
    ensures Left(RecordFor(p, host)) == EntryFor(host)
  {
    hide Slashed, Components;
    RelativeIsBelowRoot(p);
    PlainStays(p);
    SlashedLength(p);
    RenderedComponents([SLASH], p);
  }

  /** Below the last item only that item counts, and elsewhere it does not. */
  lemma LaidLast(p: seq<Name>, items: seq<Item>, q: seq<Name>)
    requires Proper(items) && items != []
    ensures var (init, item) := (items[..|items| - 1], items[|items| - 1]);
            var x := p + [item.name];
            && Proper(init) && PlainName(item.name)
            && (x <= q ==> Laid(p, init, q).None?)
            && Laid(p, items, q) ==
               if q == x then Some(EntryFor(item.host))
               else if x < q then (if item.host.HostFile? then None else Laid(x, item.host.items, q))
               else Laid(p, init, q)
  {
    hide Proper, LookUp;
    var init, item := items[..|items| - 1], items[|items| - 1];
    var x := p + [item.name];
    ProperLast(items);
    PrefixNext(p, item.name, q);
    if p < q {
      LookUpLast(items, q[|p|..]);
      if x <= q {
        NoSuchItem(init, q[|p|..]);
      }
    }
  }

  lemma ProperLast(items: seq<Item>)
    requires Proper(items) && items != []
    ensures var (init, item) := (items[..|items| - 1], items[|items| - 1]);
            && Proper(init) && PlainName(item.name) && (forall i :: 0 <= i < |init| ==> init[i].name != item.name)
            && (item.host.HostDirectory? ==> Proper(item.host.items))
  {
    var init := items[..|items| - 1];
    assert NamedApart(init);
    assert forall item :: item in init ==> item in items;
  }

  lemma PrefixNext(p: seq<Name>, name: Name, q: seq<Name>)
    ensures var x := p + [name];
            && (x <= q <==> p < q && q[|p|..][0] == name)
            && (x <= q ==> (q == x <==> |q[|p|..]| == 1) && q[|x|..] == q[|p|..][1..])
  {
    var x := p + [name];
    if p < q && q[|p|] == name {
      assert q[..|p| + 1] == x;
    }
  }

  lemma LookUpLast(items: seq<Item>, names: seq<Name>)
    requires items != [] && names != []
    ensures var (init, item) := (items[..|items| - 1], items[|items| - 1]);
            LookUp(items, names) ==
            if item.name != names[0] then LookUp(init, names)
            else if |names| == 1 then Some(EntryFor(item.host))
            else if item.host.HostFile? then None else LookUp(item.host.items, names[1..])
  {
  }

  lemma {:induction false} NoSuchItem(items: seq<Item>, names: seq<Name>)
    requires names != [] && forall i :: 0 <= i < |items| ==> items[i].name != names[0]
    ensures LookUp(items, names).None?
    decreases |items|
  {
    if items != [] {
      NoSuchItem(items[..|items| - 1], names);
    }
  }

  /** The first items laid over the tree: nothing at or below the next item has changed. */
  lemma OverlayApart(t: Tree, p: seq<Name>, items: seq<Item>, q: seq<Name>)
    requires Proper(items) && items != [] && (p + [items[|items| - 1].name] <= q || q == p)
    ensures var t1 := Overlay(t, p, items[..|items| - 1]); (q in t1 <==> q in t) && (q in t ==> t1[q] == t[q])
  {
    LaidLast(p, items, q);
  }

  lemma AgreeLast(t: Tree, p: seq<Name>, items: seq<Item>)
    requires Proper(items) && items != []
    ensures var (init, item) := (items[..|items| - 1], items[|items| - 1]);
            var x := p + [item.name];
            AllAgree(t, p, items) <==>
            && AllAgree(t, p, init) && Agrees(t, x, EntryFor(item.host))
            && (item.host.HostDirectory? ==> AllAgree(t, x, item.host.items))
  {
    hide Agrees, Proper, Laid;
    var init, item := items[..|items| - 1], items[|items| - 1];
    var x := p + [item.name];
    forall q
      ensures Laid(p, items, q).Some? ==>
                Laid(p, items, q) == Laid(p, init, q) || q == x
                || (item.host.HostDirectory? && Laid(p, items, q) == Laid(x, item.host.items, q))
      ensures Laid(p, init, q).Some? ==> Laid(p, items, q) == Laid(p, init, q)
      ensures item.host.HostDirectory? && Laid(x, item.host.items, q).Some? ==>
                Laid(p, items, q) == Laid(x, item.host.items, q)
    {
      LaidLast(p, items, q);
      LaidBelow(p, init, q);
      if item.host.HostDirectory? {
        LaidBelow(x, item.host.items, q);
      }
    }
    LaidLast(p, items, x);
  }

  lemma LaidBelow(p: seq<Name>, items: seq<Item>, q: seq<Name>)
    ensures Laid(p, items, q).Some? ==> p < q
  {
  }

  /** An entry of the overlay, or its absence. */
  ghost function OverlayAt(t: Tree, p: seq<Name>, items: seq<Item>, q: seq<Name>): Option<Entry> {
    if Laid(p, items, q).Some? then Laid(p, items, q) else if q in t then Some(t[q]) else None
  }

  ghost predicate Holds(t: Tree, q: seq<Name>, entry: Option<Entry>) {
    if entry.Some? then q in t && t[q] == entry.value else q !in t
  }

  lemma OverlayHolds(t: Tree, p: seq<Name>, items: seq<Item>, q: seq<Name>)
    ensures Holds(Overlay(t, p, items), q, OverlayAt(t, p, items, q))
  {
    hide Laid;
  }

  lemma SameTrees(a: Tree, b: Tree, at: seq<Name> -> Option<Entry>)
    requires forall q :: Holds(a, q, at(q)) && Holds(b, q, at(q))
    ensures a == b
  {
    forall q: seq<Name>
      ensures (q in a <==> q in b) && (q in a ==> a[q] == b[q])
    {
      assert Holds(a, q, at(q)) && Holds(b, q, at(q));
    }
  }

  /** The last item laid over what the others left: itself, and what is in it. */
  lemma OverlayLast(t: Tree, p: seq<Name>, items: seq<Item>)
    requires Proper(items) && items != []
    ensures var (init, item) := (items[..|items| - 1], items[|items| - 1]);
            var x := p + [item.name];
            var t2 := Overlay(t, p, init)[x := EntryFor(item.host)];
            (if item.host.HostFile? then t2 else Overlay(t2, x, item.host.items)) == Overlay(t, p, items)
  {
    hide Proper, Laid, Overlay, OverlayAt;
    var init, item := items[..|items| - 1], items[|items| - 1];
    var x := p + [item.name];
    var t1 := Overlay(t, p, init);
    var t2 := t1[x := EntryFor(item.host)];
    var t3 := if item.host.HostFile? then t2 else Overlay(t2, x, item.host.items);
    forall q
      ensures Holds(t3, q, OverlayAt(t, p, items, q)) && Holds(Overlay(t, p, items), q, OverlayAt(t, p, items, q))
    {
      OverlayHolds(t, p, items, q);
      OverlayHolds(t, p, init, q);
      LastHolds(t, p, items, q, t1);
      if item.host.HostDirectory? {
        OverlayHolds(t2, x, item.host.items, q);
      }
    }
    SameTrees(t3, Overlay(t, p, items), q => OverlayAt(t, p, items, q));
  }

  lemma LastHolds(t: Tree, p: seq<Name>, items: seq<Item>, q: seq<Name>, t1: Tree)
    requires Proper(items) && items != [] && Holds(t1, q, OverlayAt(t, p, items[..|items| - 1], q))
    ensures var (item, now) := (items[|items| - 1], OverlayAt(t, p, items, q));
            var x := p + [item.name];
            var t2 := t1[x := EntryFor(item.host)];
            if item.host.HostFile? then Holds(t2, q, now) else OverlayAt(t2, x, item.host.items, q) == now
  {
    hide Proper, Laid;
    LaidLast(p, items, q);
    var item := items[|items| - 1];
    if item.host.HostDirectory? {
      LaidBelow(p + [item.name], item.host.items, q);
    }
  }

  /** What is below the last item is as it was when its turn comes. */
  lemma AgreeBelow(t: Tree, p: seq<Name>, items: seq<Item>)
    requires Proper(items) && items != [] && items[|items| - 1].host.HostDirectory?
    ensures var (init, item) := (items[..|items| - 1], items[|items| - 1]);
            var x := p + [item.name];
            AllAgree(Overlay(t, p, init)[x := Directory], x, item.host.items) <==> AllAgree(t, x, item.host.items)
  {
    hide Proper, Laid, Overlay, Agrees;
    var item := items[|items| - 1];
    var x := p + [item.name];
    var t2 := Overlay(t, p, items[..|items| - 1])[x := Directory];
    forall q | Laid(x, item.host.items, q).Some?
      ensures Agrees(t2, q, Laid(x, item.host.items, q).value) <==> Agrees(t, q, Laid(x, item.host.items, q).value)
    {
      LaidBelow(x, item.host.items, q);
      OverlayApart(t, p, items, q);
      SameAgreement(t, t2, q, Laid(x, item.host.items, q).value);
    }
  }

  /** One item, installed over what came before it. */
  lemma ItemInstalls(t: Tree, x: seq<Name>, host: Host)
    requires Plain(x) && x != [] && x[..|x| - 1] in t && t[x[..|x| - 1]] == Directory
    ensures Installs(t, [RecordFor(x, host)]) <==> Agrees(t, x, EntryFor(host))
    ensures Agrees(t, x, EntryFor(host)) ==> Applied(t, [RecordFor(x, host)]) == t[x := EntryFor(host)]
  {
    hide Render, Key, Left;
    RecordNames(x, host);
    var r := RecordFor(x, host);
    var one := [r];
    InstallsLast(t, one);
    assert one[..0] == [] && Installs(t, []);
  }

  /**
   The records of a directory can all be installed exactly if each path agrees with what is there, and
   what they leave is the directory laid over the tree.
   */
  lemma {:induction false} DirectoryInstalls(t: Tree, p: seq<Name>, items: seq<Item>)
    requires Proper(items) && Plain(p) && p in t && t[p] == Directory
    ensures Installs(t, DirRecords(p, items)) <==> AllAgree(t, p, items)
    ensures AllAgree(t, p, items) ==> Applied(t, DirRecords(p, items)) == Overlay(t, p, items)
    decreases items
  {
    hide Installs, Applied, Agrees, AllAgree, Overlay, RecordFor, Laid;
    if items == [] {
      NothingLaid(t, p);
    } else {
      var init, item := items[..|items| - 1], items[|items| - 1];
      var x := p + [item.name];
      LaidLast(p, items, x);
      DirectoryInstalls(t, p, init);
      OverlayApart(t, p, items, p);
      OverlayApart(t, p, items, x);
      AgreeLast(t, p, items);
      var one, t1 := [RecordFor(x, item.host)], Applied(t, DirRecords(p, init));
      assert x[..|x| - 1] == p;
      if item.host.HostFile? {
        InstallsConcat(t, DirRecords(p, init), one + []);
        assert one + [] == one;
        if AllAgree(t, p, init) {
          SameAgreement(t, t1, x, EntryFor(item.host));
          ItemInstalls(t1, x, item.host);
          OverlayLast(t, p, items);
        }
      } else {
        var inner := DirRecords(x, item.host.items);
        InstallsConcat(t, DirRecords(p, init), one + inner);
        InstallsConcat(t1, one, inner);
        if AllAgree(t, p, init) {
          SameAgreement(t, t1, x, Directory);
          ItemInstalls(t1, x, item.host);
          if Agrees(t, x, Directory) {
            OverlayLast(t, p, items);
            AgreeBelow(t, p, items);
            DirectoryInstalls(t1[x := Directory], x, item.host.items);
          }
        }
      }
    }
  }

  lemma SameAgreement(t: Tree, t1: Tree, q: seq<Name>, entry: Entry)
    requires (q in t1 <==> q in t) && (q in t ==> t1[q] == t[q])
    ensures Agrees(t1, q, entry) <==> Agrees(t, q, entry)
  {
  }

  lemma NothingLaid(t: Tree, p: seq<Name>)
    ensures Installs(t, DirRecords(p, [])) && AllAgree(t, p, []) && Overlay(t, p, []) == t
    ensures Applied(t, DirRecords(p, [])) == t
  {
  }

  // ------------------------------------------------------------------- the build

  ghost predicate AllWritable(rs: seq<Record>) {
    forall i :: 0 <= i < |rs| ==> Writable(rs[i])
  }

  lemma {:induction false} EncodedConcat(a: seq<Record>, b: seq<Record>)
    requires AllWritable(a) && AllWritable(b)
    ensures AllWritable(a + b) && EncodedAll(a + b) == EncodedAll(a) + EncodedAll(b)
    decreases |b|
  {
    hide Encoded, Writable, EncodedAll;
    var rs := a + b;
    NothingEncoded();
    if b == [] {
      assert rs == a;
    } else {
      var n := |b| - 1;
      EncodedConcat(a, b[..n]);
      assert rs[..|rs| - 1] == a + b[..n] && rs[|rs| - 1] == b[n];
      EncodedLast(rs);
      EncodedLast(b);
      Regroup(EncodedAll(a), EncodedAll(b[..n]), Encoded(b[n]));
    }
  }

  lemma {:induction false} RecordsGrow(p: seq<Name>, items: seq<Item>, k: nat)
    requires k <= |items|
    ensures DirRecords(p, items[..k]) <= DirRecords(p, items)
    decreases |items| - k
  {
    if k == |items| {
      assert items[..k] == items;
    } else {
      RecordsGrow(p, items, k + 1);
      assert items[..k + 1][..k] == items[..k];
    }
  }

  /** What `append_directory` appends for one more item. */
  lemma ItemEncoded(p: seq<Name>, items: seq<Item>, k: nat)
    requires k < |items| && AllWritable(DirRecords(p, items))
    ensures var (before, x, host) := (DirRecords(p, items[..k]), p + [items[k].name], items[k].host);
            var inner := Inner(x, host);
            && AllWritable(before) && Writable(RecordFor(x, host)) && AllWritable(inner)
            && AllWritable(DirRecords(p, items[..k + 1]))
            && EncodedAll(DirRecords(p, items[..k + 1])) ==
               EncodedAll(before) + Encoded(RecordFor(x, host)) + EncodedAll(inner)
  {
    hide Encoded, Writable, RecordFor, EncodedAll, DirRecords;
    var before, x, host := DirRecords(p, items[..k]), p + [items[k].name], items[k].host;
    var inner, one := Inner(x, host), [RecordFor(x, host)];
    RecordsNext(p, items, k);
    RecordsGrow(p, items, k + 1);
    WritableParts(before + (one + inner), DirRecords(p, items)[|before + (one + inner)|..]);
    WritableParts(before, one + inner);
    WritableParts(one, inner);
    OneWritable(RecordFor(x, host));
    EncodedConcat(before, one + inner);
    EncodedConcat(one, inner);
    Regroup(EncodedAll(before), Encoded(RecordFor(x, host)), EncodedAll(inner));
  }

  lemma RecordsNext(p: seq<Name>, items: seq<Item>, k: nat)
    requires k < |items|
    ensures var (x, host) := (p + [items[k].name], items[k].host);
            DirRecords(p, items[..k + 1]) ==
            DirRecords(p, items[..k]) +
            ([RecordFor(x, host)] + Inner(x, host))
  {
    hide RecordFor;
    var upTo := items[..k + 1];
    assert upTo[..|upTo| - 1] == items[..k];
  }

  lemma WritableParts(a: seq<Record>, b: seq<Record>)
    requires AllWritable(a + b)
    ensures AllWritable(a) && AllWritable(b) && AllWritable([])
  {
    hide Writable;
    forall i | 0 <= i < |a|
      ensures Writable(a[i])
    {
      assert (a + b)[i] == a[i];
    }
    forall i | 0 <= i < |b|
      ensures Writable(b[i])
    {
      assert (a + b)[|a| + i] == b[i];
    }
  }

  lemma EncodedOne(r: Record)
    requires Writable(r)
    ensures EncodedAll([r]) == Encoded(r)
  {
    EncodedLast([r]);
    NothingEncoded();
    assert [r][..0] == [];
  }

  /** `append_directory`, for a listing in whatever order. */
  method AppendDirectory(archive: seq<byte>, p: seq<Name>, items: seq<Item>) returns (longer: seq<byte>)
    requires AllWritable(DirRecords(p, items))
    ensures longer == archive + EncodedAll(DirRecords(p, items))
    decreases items
  {
    hide Encoded, AllWritable, Appended, RecordFor, EncodedAll, DirRecords;
    longer := archive;
    NothingAppended(archive, p, items);
    var k := 0;
    while k < |items|
      invariant k <= |items| && Appended(archive, longer, p, items[..k])
    {
      var item := items[k];
      var x := p + [item.name];
      ItemWritable(p, items, k);
      ghost var before := longer;
      longer := AppendRecord(longer, RecordFor(x, item.host));
      if item.host.HostDirectory? {
        longer := AppendDirectory(longer, x, item.host.items);
      }
      ItemAppended(archive, before, longer, p, items, k);
      k := k + 1;
    }
    assert items[..k] == items;
    AllAppended(archive, longer, p, items);
  }

  ghost predicate Appended(archive: seq<byte>, longer: seq<byte>, p: seq<Name>, items: seq<Item>) {
    AllWritable(DirRecords(p, items)) && longer == archive + EncodedAll(DirRecords(p, items))
  }

  lemma NothingAppended(archive: seq<byte>, p: seq<Name>, items: seq<Item>)
    requires AllWritable(DirRecords(p, items))
    ensures Appended(archive, archive, p, items[..0])
  {
    NothingEncoded();
    assert DirRecords(p, items[..0]) == [];
  }

  lemma AllAppended(archive: seq<byte>, longer: seq<byte>, p: seq<Name>, items: seq<Item>)
    requires Appended(archive, longer, p, items)
    ensures AllWritable(DirRecords(p, items)) && longer == archive + EncodedAll(DirRecords(p, items))
  {
  }

  lemma ItemWritable(p: seq<Name>, items: seq<Item>, k: nat)
    requires k < |items| && AllWritable(DirRecords(p, items))
    ensures var (x, host) := (p + [items[k].name], items[k].host);
            && Writable(RecordFor(x, host)) && AllWritable(Inner(x, host))
            && (host.HostFile? ==> EncodedAll(Inner(x, host)) == [])
  {
    hide Encoded, Writable, RecordFor, EncodedAll, DirRecords;
    ItemEncoded(p, items, k);
    NothingEncoded();
  }

  lemma ItemAppended(archive: seq<byte>, before: seq<byte>, longer: seq<byte>, p: seq<Name>, items: seq<Item>, k: nat)
    requires k < |items| && AllWritable(DirRecords(p, items)) && Appended(archive, before, p, items[..k])
    requires var (x, host) := (p + [items[k].name], items[k].host);
             && Writable(RecordFor(x, host)) && AllWritable(Inner(x, host))
             && longer == before + Encoded(RecordFor(x, host)) + EncodedAll(Inner(x, host))
    ensures Appended(archive, longer, p, items[..k + 1])
  {
    hide Encoded, Writable, RecordFor, EncodedAll, DirRecords;
    ItemEncoded(p, items, k);
  }

  const INIT: Path := [0x62, 0x69, 0x6E, 0x2F, 0x69, 0x6E, 0x69, 0x74]  // "bin/init"
  const GUI: Path :=
    [0x62, 0x69, 0x6E, 0x2F, 0x67, 0x65, 0x6E, 0x65, 0x72, 0x69, 0x63, 0x2D, 0x67, 0x75, 0x69]  // "bin/generic-gui"

  /** The programs that are put in after the directory. */
  function Programs(init: Option<seq<byte>>, gui: Option<seq<byte>>): seq<Record> {
    (if init.Some? then [Record(FILE, INIT, init.value)] else []) +
    (if gui.Some? then [Record(FILE, GUI, gui.value)] else [])
  }

  /** `build_initramfs`. */
  method BuildInitramfs(items: seq<Item>, init: Option<seq<byte>>, gui: Option<seq<byte>>) returns (archive: seq<byte>)
    requires AllWritable(DirRecords([], items)) && AllWritable(Programs(init, gui))
    ensures AllWritable(DirRecords([], items) + Programs(init, gui))
    ensures archive == Archive(DirRecords([], items) + Programs(init, gui))
  {
    hide Encoded, Writable, EncodedAll, AllWritable, DirRecords;
    archive := AppendDirectory(MAGIC, [], items);
    ghost var a := if init.Some? then [Record(FILE, INIT, init.value)] else [];
    ghost var b := if gui.Some? then [Record(FILE, GUI, gui.value)] else [];
    WritableParts(a, b);
    EncodedConcat(DirRecords([], items), a + b);
    EncodedConcat(a, b);
    NothingEncoded();
    if init.Some? {
      OneWritable(Record(FILE, INIT, init.value));
      archive := AppendRecord(archive, Record(FILE, INIT, init.value));
    }
    if gui.Some? {
      OneWritable(Record(FILE, GUI, gui.value));
      archive := AppendRecord(archive, Record(FILE, GUI, gui.value));
    }
    archive := archive + [0];
  }

  lemma OneWritable(r: Record)
    requires AllWritable([r])
    ensures Writable(r) && EncodedAll([r]) == Encoded(r)
  {
    assert Writable([r][0]);
    EncodedOne(r);
  }

  // --------------------------------------------------------------- from end to end

  /**
   The archive of a directory, unpacked: what is mounted is the directory laid over what was there, and
   the programs on top.  It fails exactly where the kinds disagree or a path is too long, or a program finds
   no place, or inode numbers run out.
   */
  lemma DirectoryCarriedOver(
      t: Tree, t': Tree, items: seq<Item>, more: seq<Record>, n: nat, r: Result<nat, VfsError>)
    requires Proper(items) && [] in t && t[[]] == Directory
    requires Unpacked(t, t', DirRecords([], items) + more, true, n, r)
    ensures r.Ok? ==> AllAgree(t, [], items) && t' == Applied(Overlay(t, [], items), more)
    ensures AllAgree(t, [], items) && Installs(Overlay(t, [], items), more) ==> r.Ok? || r == Err(InodeExhausted)
  {
    hide Applied, Overlay, AllAgree, Proper, DirRecords, Fits;
    var rs := DirRecords([], items) + more;
    DirectoryInstalls(t, [], items);
    InstallsConcat(t, DirRecords([], items), more);
    if r.Ok? {
      assert rs[..n] == rs;
    } else if Installs(t, rs) && n < |rs| {
      assert FitsNext(t, rs, n);
    }
  }

  /** Build time and boot time together. */
  method CarryOver(vfs: Vfs, items: seq<Item>, init: Option<seq<byte>>, gui: Option<seq<byte>>)
    returns (r: Result<nat, VfsError>)
    requires vfs.Valid() && Proper(items)
    requires AllWritable(DirRecords([], items)) && AllWritable(Programs(init, gui))
    modifies vfs.Filesystems()
    ensures vfs.Valid()
    ensures r.Ok? ==> && AllAgree(old(vfs.Contents()), [], items)
                      && vfs.Contents() == Applied(Overlay(old(vfs.Contents()), [], items), Programs(init, gui))
    ensures && AllAgree(old(vfs.Contents()), [], items)
            && Installs(Overlay(old(vfs.Contents()), [], items), Programs(init, gui)) ==>
              r.Ok? || r == Err(InodeExhausted)
  {
    hide Proper, AllWritable, DirRecords, Programs, AllAgree, Overlay, Installs, Applied, TreeOf, PartsOf, Archive,
         Unpacked;
    ghost var t := vfs.Contents();
    vfs.RootThere();
    var archive := BuildInitramfs(items, init, gui);
    ghost var rs := DirRecords([], items) + Programs(init, gui);
    WrittenIsRead(rs);
    ghost var n;
    r, n := UnpackArchive(vfs, archive);
    DirectoryCarriedOver(t, vfs.Contents(), items, Programs(init, gui), n, r);
  }

  lemma WrittenIsRead(rs: seq<Record>)
    requires AllWritable(rs)
    ensures Contents(Archive(rs)) == (rs, true)
  {
    hide Writable;
    ArchiveRoundTrip(rs);
  }
}

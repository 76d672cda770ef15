/**
 The x86_64 four-level page-table handoff: a recursive deep copy of a table
 tree through an abstract frame memory.  The half-built destination is its own
 allocation journal, so every failure, at every depth, has to undo itself.
 */
module PageTables {
  import opened Wrappers

  type Entry = bv64

  /** The physical address of a table. */
  datatype Frame = Frame(bits: bv64)

  const PRESENT: bv64 := 1
  const HUGE: bv64 := 0x80
  const ADDRESS: bv64 := 0x000f_ffff_ffff_f000
  const ENTRIES: nat := 512

  type Table = t: seq<Entry> | |t| == ENTRIES witness seq(ENTRIES, _ => 0)
  type Memory = map<Frame, Table>

  datatype CloneError = OutOfMemory | TableLimit | InvalidFrame | InvalidHugePage | Cycle

  // ---------------------------------------------------------------- entries

  predicate ValidFrame(f: Frame) {
    f.bits != 0 && f.bits & !ADDRESS == 0
  }

  /** The table an entry points at. */
  function Target(e: Entry): Frame {
    Frame(e & ADDRESS)
  }

  /** The entry points at a lower table, as opposed to a leaf or nothing. */
  predicate Descends(e: Entry, level: nat) {
    level > 1 && e & PRESENT != 0 && e & HUGE == 0
  }

  /** The entry maps a large page instead of pointing at a table. */
  predicate LargeLeaf(e: Entry, level: nat) {
    level > 1 && e & PRESENT != 0 && e & HUGE != 0
  }

  /** Where a large leaf maps to; its bit 12 is no address bit. */
  function LeafAddress(e: Entry): bv64 {
    e & ADDRESS & !0x1000
  }

  predicate Off2M(e: Entry) {
    LeafAddress(e) % 0x20_0000 != 0
  }

  predicate Off1G(e: Entry) {
    LeafAddress(e) % 0x4000_0000 != 0
  }

  /** There are large leaves of 2 MiB (level 2) and 1 GiB (level 3), each at a multiple of its size. */
  predicate BadLeaf(e: Entry, level: nat) {
    LargeLeaf(e, level) && (level == 4 || (if level == 3 then Off1G(e) else Off2M(e)))
  }

  /** Address bits that must be clear in a 1 GiB (level 3) or 2 MiB leaf. */
  function Reserved(level: nat): bv64 {
    if level == 3 then 0x3fff_e000 else 0x1f_e000
  }

  /** What `clone_table` tests. */
  predicate BadHuge(e: Entry, level: nat) {
    level > 1 && e & PRESENT != 0 && e & HUGE != 0 && (level == 4 || e & Reserved(level) != 0)
  }

  lemma LeafMasks(e: bv64)
    ensures e & 0x1f_e000 != 0 <==> Off2M(e)
    ensures e & 0x3fff_e000 != 0 <==> Off1G(e)
  {
  }

  /** The test finds exactly the large leaves that are not at a multiple of their size. */
  lemma BadHugeIff(e: Entry, level: nat)
    ensures BadHuge(e, level) <==> BadLeaf(e, level)
  {
    hide Off2M, Off1G;
    LeafMasks(e);
  }

  /** The same level by level, the multiples written out. */
  lemma LargeLeaves(e: Entry)
    requires e & PRESENT != 0 && e & HUGE != 0
    ensures BadHuge(e, 2) <==> LeafAddress(e) % 0x20_0000 != 0
    ensures BadHuge(e, 3) <==> LeafAddress(e) % 0x4000_0000 != 0
    ensures BadHuge(e, 4)
  {
    hide LeafAddress;
    LeafMasks(e);
  }

  function Relink(e: Entry, child: Frame): Entry {
    (e & !ADDRESS) | child.bits
  }

  lemma RelinkBits(e: bv64, child: bv64)
    requires child & !ADDRESS == 0
    ensures ((e & !ADDRESS) | child) & ADDRESS == child
    ensures ((e & !ADDRESS) | child) & !ADDRESS == e & !ADDRESS
    ensures ((e & !ADDRESS) | child) & PRESENT == e & PRESENT
    ensures ((e & !ADDRESS) | child) & HUGE == e & HUGE
  {
  }

  lemma RelinkKeepsTarget(e: Entry, child: Frame)
    requires ValidFrame(child)
    ensures Target(Relink(e, child)) == child
  {
    RelinkBits(e, child.bits);
  }

  lemma RelinkKeepsFlags(e: Entry, child: Frame)
    requires ValidFrame(child)
    ensures Relink(e, child) & !ADDRESS == e & !ADDRESS
  {
    RelinkBits(e, child.bits);
  }

  lemma RelinkDescends(e: Entry, child: Frame, level: nat)
    requires ValidFrame(child)
    ensures Descends(Relink(e, child), level) == Descends(e, level)
  {
    RelinkBits(e, child.bits);
  }

  /** The fields of an entry as numbers: presence, size, and the 40 bits of a page number. */
  lemma EntryFields(e: bv64, level: nat)
    ensures Target(e).bits == e % 0x10_0000_0000_0000 - e % 0x1000
    ensures Descends(e, level) <==> level >= 2 && e % 2 == 1 && e / 0x80 % 2 == 0
    ensures LargeLeaf(e, level) <==> level >= 2 && e % 2 == 1 && e / 0x80 % 2 == 1
    ensures ValidFrame(Frame(e)) <==> e != 0 && e % 0x1000 == 0 && e < 0x10_0000_0000_0000
  {
  }

  // ------------------------------------------------------------------ trees

  /** Every table the tree at `f` refers to by a usable address is initialised. */
  ghost predicate Initialised(m: Memory, f: Frame, level: nat)
    decreases level, m
  {
    f in m &&
    forall i :: 0 <= i < ENTRIES && Descends(m[f][i], level) && ValidFrame(Target(m[f][i])) ==>
                  Initialised(m, Target(m[f][i]), level - 1)
  }

  /** What `clone_table` accepts: usable addresses, no table below itself, sane large leaves. */
  ghost predicate Legal(m: Memory, f: Frame, level: nat, above: seq<Frame>)
    decreases level, 1, m
  {
    ValidFrame(f) && f !in above && f in m &&
    forall i :: 0 <= i < ENTRIES ==> LegalSlot(m, m[f][i], level, above + [f])
  }

  ghost predicate LegalSlot(m: Memory, e: Entry, level: nat, above: seq<Frame>)
    decreases level, 0, m
  {
    !BadLeaf(e, level) && (Descends(e, level) ==> Legal(m, Target(e), level - 1, above))
  }

  /** The tables of the tree at `f`, unfolded: a shared table counts once per path to it. */
  ghost function TreeFrames(m: Memory, f: Frame, level: nat): seq<Frame>
    decreases level, ENTRIES + 1, m
  {
    if f in m then [f] + ChildFrames(m, f, level, ENTRIES) else [f]
  }

  /** The tables below the first `n` entries of `f`. */
  ghost function ChildFrames(m: Memory, f: Frame, level: nat, n: nat): seq<Frame>
    requires f in m && n <= ENTRIES
    decreases level, n, m
  {
    if n == 0 then []
    else ChildFrames(m, f, level, n - 1) + SlotFrames(m, m[f][n - 1], level)
  }

  ghost function SlotFrames(m: Memory, e: Entry, level: nat): seq<Frame>
    decreases level, 0, m
  {
    if Descends(e, level) then TreeFrames(m, Target(e), level - 1) else []
  }

  /** Same flag bits at every level and the same leaf entries; only table addresses differ. */
  ghost predicate Mirrors(m: Memory, f: Frame, m': Memory, f': Frame, level: nat)
    decreases level, 1, m
  {
    f in m && f' in m' &&
    forall i :: 0 <= i < ENTRIES ==> SlotMirrors(m, m[f][i], m', m'[f'][i], level)
  }

  ghost predicate SlotMirrors(m: Memory, e: Entry, m': Memory, e': Entry, level: nat)
    decreases level, 0, m
  {
    if Descends(e, level) then
      && Descends(e', level)
      && e & !ADDRESS == e' & !ADDRESS
      && ValidFrame(Target(e'))
      && Mirrors(m, Target(e), m', Target(e'), level - 1)
    else e == e'
  }

  ghost predicate Distinct(s: seq<Frame>) {
    forall i, j :: 0 <= i < j < |s| ==> s[i] != s[j]
  }

  ghost function Elems(s: seq<Frame>): set<Frame> {
    set x | x in s
  }

  lemma DistinctSplit(a: seq<Frame>, b: seq<Frame>)
    requires Distinct(a + b)
    ensures Distinct(a) && Distinct(b) && Elems(a) !! Elems(b)
    ensures Elems(a + b) == Elems(a) + Elems(b)
  {
    var c := a + b;
    assert forall i :: 0 <= i < |a| ==> c[i] == a[i];
    assert forall j :: 0 <= j < |b| ==> c[|a| + j] == b[j];
    ElemsJoin(a, b);
  }

  lemma ElemsJoin(a: seq<Frame>, b: seq<Frame>)
    ensures Elems(a + b) == Elems(a) + Elems(b)
  {
    forall x
      ensures x in Elems(a + b) <==> x in Elems(a) + Elems(b)
    {
      if x in a {
        var i :| 0 <= i < |a| && a[i] == x;
        assert (a + b)[i] == x;
      }
      if x in b {
        var i :| 0 <= i < |b| && b[i] == x;
        assert (a + b)[|a| + i] == x;
      }
    }
  }

  lemma DistinctJoin(a: seq<Frame>, b: seq<Frame>)
    requires Distinct(a) && Distinct(b) && Elems(a) !! Elems(b)
    ensures Distinct(a + b)
  {
    forall i, j | 0 <= i < j < |a + b|
      ensures (a + b)[i] != (a + b)[j]
    {
      assert i < |a| ==> (a + b)[i] in Elems(a);
      assert j >= |a| ==> (a + b)[j] in Elems(b);
    }
  }

  /** `m` and `m'` hold the same tables at all of `s`. */
  ghost predicate AgreeOn(m: Memory, m': Memory, s: seq<Frame>) {
    forall x :: x in s ==> x in m && x in m' && m[x] == m'[x]
  }

  // --------------------------------------------------- locality of the views

  lemma {:induction false} TreeLocal(m: Memory, m': Memory, f: Frame, level: nat)
    requires AgreeOn(m, m', TreeFrames(m, f, level))
    ensures TreeFrames(m', f, level) == TreeFrames(m, f, level)
    decreases level, ENTRIES + 1
  {
    assert f in TreeFrames(m, f, level);
    assert AgreeOn(m, m', ChildFrames(m, f, level, ENTRIES));
    ChildrenLocal(m, m', f, level, ENTRIES);
  }

  lemma {:induction false} ChildrenLocal(m: Memory, m': Memory, f: Frame, level: nat, n: nat)
    requires f in m && f in m' && n <= ENTRIES && m[f][..n] == m'[f][..n]
    requires AgreeOn(m, m', ChildFrames(m, f, level, n))
    ensures ChildFrames(m', f, level, n) == ChildFrames(m, f, level, n)
    decreases level, n
  {
    if n > 0 {
      var e := m[f][n - 1];
      assert m[f][..n][n - 1] == m'[f][..n][n - 1];
      assert m[f][..n - 1] == m[f][..n][..n - 1] == m'[f][..n - 1];
      assert forall x :: x in ChildFrames(m, f, level, n - 1) ==> x in ChildFrames(m, f, level, n);
      ChildrenLocal(m, m', f, level, n - 1);
      if Descends(e, level) {
        assert forall x :: x in SlotFrames(m, e, level) ==> x in ChildFrames(m, f, level, n);
        TreeLocal(m, m', Target(e), level - 1);
      }
    }
  }

  lemma {:induction false} SlotInChildren(m: Memory, f: Frame, level: nat, n: nat, i: nat)
    requires f in m && i < n <= ENTRIES
    ensures forall x :: x in SlotFrames(m, m[f][i], level) ==> x in ChildFrames(m, f, level, n)
    decreases n
  {
    if i < n - 1 {
      SlotInChildren(m, f, level, n - 1, i);
    }
  }

  lemma {:induction false} MirrorsLocal(b: Memory, s: Frame, m: Memory, m': Memory, f: Frame, level: nat)
    requires Mirrors(b, s, m, f, level)
    requires AgreeOn(m, m', TreeFrames(m, f, level))
    ensures Mirrors(b, s, m', f, level)
    decreases level
  {
    assert f in TreeFrames(m, f, level);
    forall i | 0 <= i < ENTRIES
      ensures SlotMirrors(b, b[s][i], m', m'[f][i], level)
    {
      assert SlotMirrors(b, b[s][i], m, m[f][i], level);
      SlotInChildren(m, f, level, ENTRIES, i);
      SlotMirrorsLocal(b, b[s][i], m, m', m[f][i], level);
    }
  }

  lemma {:induction false} SlotMirrorsLocal(b: Memory, e: Entry, m: Memory, m': Memory, e': Entry, level: nat)
    requires SlotMirrors(b, e, m, e', level)
    requires AgreeOn(m, m', SlotFrames(m, e', level))
    ensures SlotMirrors(b, e, m', e', level)
    decreases level, 0
  {
    if Descends(e, level) {
      MirrorsLocal(b, Target(e), m, m', Target(e'), level - 1);
    }
  }

  /** Entries from `n` on that do not descend contribute no tables. */
  lemma {:induction false} EmptySuffix(m: Memory, f: Frame, level: nat, n: nat, k: nat)
    requires f in m && n <= k <= ENTRIES
    requires forall i :: n <= i < k ==> !Descends(m[f][i], level)
    ensures ChildFrames(m, f, level, k) == ChildFrames(m, f, level, n)
    decreases k
  {
    if n < k {
      EmptySuffix(m, f, level, n, k - 1);
    }
  }

  lemma {:induction false} ChildrenGrow(m: Memory, f: Frame, level: nat, n: nat, k: nat)
    requires f in m && n <= k <= ENTRIES
    ensures ChildFrames(m, f, level, n) <= ChildFrames(m, f, level, k)
    decreases k
  {
    if n < k {
      ChildrenGrow(m, f, level, n, k - 1);
    }
  }

  /** In a tree without sharing, entry `i` leads to tables found nowhere else in it. */
  lemma SlotApart(m: Memory, f: Frame, level: nat, i: nat)
    requires f in m && i < ENTRIES && Distinct(TreeFrames(m, f, level))
    ensures Distinct(SlotFrames(m, m[f][i], level))
    ensures Elems(SlotFrames(m, m[f][i], level)) !! Elems(ChildFrames(m, f, level, i))
    ensures Elems(ChildFrames(m, f, level, i + 1)) ==
            Elems(ChildFrames(m, f, level, i)) + Elems(SlotFrames(m, m[f][i], level))
    ensures Elems(ChildFrames(m, f, level, i + 1)) <= Elems(TreeFrames(m, f, level))
    ensures f !in ChildFrames(m, f, level, i + 1)
  {
    var done, slot := ChildFrames(m, f, level, i), SlotFrames(m, m[f][i], level);
    var all := ChildFrames(m, f, level, ENTRIES);
    ChildrenGrow(m, f, level, i + 1, ENTRIES);
    assert all == (done + slot) + all[|done + slot|..];
    assert TreeFrames(m, f, level) == [f] + all;
    DistinctSplit([f], all);
    assert f in Elems([f]);
    DistinctSplit(done + slot, all[|done + slot|..]);
    DistinctSplit(done, slot);
  }

  lemma TreeSplits(m: Memory, f: Frame, level: nat)
    requires f in m
    ensures Elems(TreeFrames(m, f, level)) == {f} + Elems(ChildFrames(m, f, level, ENTRIES))
    ensures ChildFrames(m, f, level, 0) == []
  {
    ElemsJoin([f], ChildFrames(m, f, level, ENTRIES));
  }

  lemma NothingBelow(m: Memory, f: Frame, level: nat)
    requires f in m && level <= 1
    ensures ChildFrames(m, f, level, ENTRIES) == []
  {
    EmptySuffix(m, f, level, 0, ENTRIES);
  }

  /** While the tables below the first entries go, those below entry `i` stay. */
  lemma SlotIntact(m: Memory, now: Memory, f: Frame, level: nat, i: nat)
    requires f in m && i < ENTRIES && Distinct(TreeFrames(m, f, level)) && Elems(TreeFrames(m, f, level)) <= m.Keys
    requires now == m - Elems(ChildFrames(m, f, level, i)) && Descends(m[f][i], level)
    ensures level > 1 && Target(m[f][i]) in now
    ensures SlotFrames(m, m[f][i], level) == TreeFrames(now, Target(m[f][i]), level - 1)
    ensures Elems(SlotFrames(m, m[f][i], level)) <= now.Keys
  {
    hide ChildFrames;
    SlotApart(m, f, level, i);
    var slot := TreeFrames(m, Target(m[f][i]), level - 1);
    assert forall x :: x in slot ==> x in Elems(slot);
    TreeLocal(m, now, Target(m[f][i]), level - 1);
    assert Target(m[f][i]) in slot;
  }

  // ------------------------------------------------------------- the journal

  /** What passed between the cloner and its frame allocator. */
  datatype Event = Granted(frame: Frame) | Refused | Released(frame: Frame)

  ghost function Apply(held: set<Frame>, e: Event): set<Frame> {
    match e
    case Granted(f) => held + {f}
    case Released(f) => held - {f}
    case Refused => held
  }

  ghost predicate Allows(held: set<Frame>, e: Event) {
    (e.Granted? ==> e.frame !in held) && (e.Released? ==> e.frame in held)
  }

  /** The frames granted and not yet released. */
  ghost function Held(log: seq<Event>): set<Frame> {
    if log == [] then {} else Apply(Held(log[..|log| - 1]), log[|log| - 1])
  }

  /** Nothing is granted twice while held, and only held frames are released. */
  ghost predicate Lawful(log: seq<Event>) {
    log != [] ==> Lawful(log[..|log| - 1]) && Allows(Held(log[..|log| - 1]), log[|log| - 1])
  }

  ghost function Grants(log: seq<Event>): nat {
    if log == [] then 0
    else Grants(log[..|log| - 1]) + if log[|log| - 1].Granted? then 1 else 0
  }

  lemma LogStep(log: seq<Event>, e: Event)
    ensures Grants(log + [e]) == Grants(log) + if e.Granted? then 1 else 0
    ensures Held(log + [e]) == Apply(Held(log), e)
    ensures Lawful(log + [e]) == (Lawful(log) && Allows(Held(log), e))
  {
    assert (log + [e])[..|log|] == log;
  }

  /** The log only grows, and the cloner's frame count grows by one per grant. */
  ghost predicate Books(log: seq<Event>, count: int, log': seq<Event>, count': int) {
    log <= log' && count' - count == Grants(log') - Grants(log)
  }

  lemma BooksTrans(log: seq<Event>, count: int, log': seq<Event>, count': int, log'': seq<Event>, count'': int)
    requires Books(log, count, log', count') && Books(log', count', log'', count'')
    ensures Books(log, count, log'', count'')
  {
  }

  /** From `log` to `log'` the allocator did nothing but grant usable frames. */
  ghost predicate Granting(log: seq<Event>, log': seq<Event>) {
    log <= log' && forall i :: |log| <= i < |log'| ==> log'[i].Granted? && ValidFrame(log'[i].frame)
  }

  lemma GrantingTrans(log: seq<Event>, log': seq<Event>, log'': seq<Event>)
    requires Granting(log, log') && Granting(log', log'')
    ensures Granting(log, log'')
  {
    forall i | |log| <= i < |log''|
      ensures log''[i].Granted? && ValidFrame(log''[i].frame)
    {
      assert i < |log'| ==> log''[i] == log'[i];
    }
  }

  /** With nothing but grants, one more frame is held per grant. */
  lemma {:induction false} GrantsAreHeld(log: seq<Event>, log': seq<Event>)
    requires Granting(log, log') && Lawful(log')
    ensures |Held(log')| - |Held(log)| == Grants(log') - Grants(log)
    decreases |log'|
  {
    if |log| == |log'| {
      assert log == log';
    } else {
      GrantsAreHeld(log, log'[..|log'| - 1]);
    }
  }

  /** The allocator turned the cloner down since `from`. */
  ghost predicate RefusedSince(log: seq<Event>, from: nat) {
    exists i :: from <= i < |log| && log[i].Refused?
  }

  /** The allocator handed out an unusable frame since `from`. */
  ghost predicate BadGrantSince(log: seq<Event>, from: nat) {
    exists i :: from <= i < |log| && log[i].Granted? && !ValidFrame(log[i].frame)
  }

  /**
   The frame memory behind the cloner.  `Allocate` may refuse, and may grant any
   frame that is not a table yet, usable or not, with any contents.
   */
  class TableMemory {
    var tables: Memory
    ghost const foreign: set<Frame>  // the tables that were there before any grant
    ghost var log: seq<Event>

    ghost predicate Valid()
      reads this
    {
      Lawful(log) && foreign <= tables.Keys && Held(log) == tables.Keys - foreign
    }

    constructor (initial: Memory)
      ensures Valid() && tables == initial && foreign == initial.Keys && log == []
    {
      tables, foreign, log := initial, initial.Keys, [];
    }

    method Allocate() returns (r: Option<Frame>)
      requires Valid()
      modifies this
      ensures Valid()
      ensures r.None? ==> tables == old(tables) && log == old(log) + [Refused]
      ensures r.Some? ==> r.value !in old(tables) && log == old(log) + [Granted(r.value)]
      ensures r.Some? ==> tables.Keys == old(tables.Keys) + {r.value}
      ensures forall f :: f in old(tables) ==> f in tables && tables[f] == old(tables)[f]
    {
      var candidate: Frame := *;
      var contents: Table := *;
      if candidate in tables {
        LogStep(log, Refused);
        log := log + [Refused];
        r := None;
      } else {
        LogStep(log, Granted(candidate));
        log := log + [Granted(candidate)];
        tables := tables[candidate := contents];
        r := Some(candidate);
      }
    }

    method Release(frame: Frame)
      requires Valid() && frame in tables && frame !in foreign
      modifies this
      ensures Valid()
      ensures tables == old(tables) - {frame} && log == old(log) + [Released(frame)]
    {
      LogStep(log, Released(frame));
      log := log + [Released(frame)];
      tables := tables - {frame};
    }

    method Write(frame: Frame, index: nat, entry: Entry)
      requires Valid() && frame in tables && index < ENTRIES
      modifies this`tables
      ensures Valid()
      ensures tables == old(tables)[frame := old(tables)[frame][index := entry]]
    {
      tables := tables[frame := tables[frame][index := entry]];
    }
  }

  // ----------------------------------------------------------------- release

  method ReleaseTree(memory: TableMemory, frame: Frame, level: nat)
    requires memory.Valid() && frame in memory.tables
    requires Distinct(TreeFrames(memory.tables, frame, level))
    requires Elems(TreeFrames(memory.tables, frame, level)) <= memory.tables.Keys - memory.foreign
    modifies memory
    ensures memory.Valid()
    ensures memory.tables == old(memory.tables) - Elems(TreeFrames(old(memory.tables), frame, level))
    ensures old(memory.log) <= memory.log && Grants(memory.log) == Grants(old(memory.log))
    decreases level
  {
    hide Held, Lawful, Grants, Descends, ChildFrames;
    ghost var m0, log0 := memory.tables, memory.log;
    TreeSplits(m0, frame, level);
    if level > 1 {
      var index := 0;
      while index < ENTRIES
        invariant index <= ENTRIES
        invariant frame !in ChildFrames(m0, frame, level, index)
        invariant memory.Valid()
        invariant memory.tables == m0 - Elems(ChildFrames(m0, frame, level, index))
        invariant log0 <= memory.log && Grants(memory.log) == Grants(log0)
      {
        SlotApart(m0, frame, level, index);
        var entry := memory.tables[frame][index];
        if Descends(entry, level) {
          SlotIntact(m0, memory.tables, frame, level, index);
          ReleaseTree(memory, Target(entry), level - 1);
        }
        index := index + 1;
      }
    } else {
      NothingBelow(m0, frame, level);
    }
    LogStep(memory.log, Released(frame));
    memory.Release(frame);
  }

  // ------------------------------------------------------------------- clone

  /** `after` is `before` plus a fresh copy, rooted at `d`, of `base`'s tree at `s`. */
  ghost predicate Cloned(base: Memory, s: Frame, before: Memory, after: Memory, d: Frame, level: nat) {
    && d in after && ValidFrame(d)
    && Mirrors(base, s, after, d, level)
    && |TreeFrames(after, d, level)| == |TreeFrames(base, s, level)|
    && Adds(before, after, TreeFrames(after, d, level))
  }

  ghost predicate Within(m: Memory, m': Memory) {
    forall f :: f in m ==> f in m' && m'[f] == m[f]
  }

  /** `after` extends `before` by exactly the distinct fresh tables `added`. */
  ghost predicate Adds(before: Memory, after: Memory, added: seq<Frame>) {
    && Distinct(added)
    && Elems(added) !! before.Keys
    && after.Keys == before.Keys + Elems(added)
    && Within(before, after)
  }

  ghost predicate MirrorsTo(base: Memory, s: Frame, m: Memory, d: Frame, level: nat, n: nat)
    requires s in base && d in m && n <= ENTRIES
  {
    forall i :: 0 <= i < n ==> SlotMirrors(base, base[s][i], m, m[d][i], level)
  }

  /** The first `n` entries of `s` are copied to `d`; the rest of `d` is zero. */
  ghost predicate Partial(base: Memory, s: Frame, before: Memory, now: Memory, d: Frame, level: nat, n: nat)
    requires n <= ENTRIES
  {
    && s in base && d in now && ValidFrame(d)
    && MirrorsTo(base, s, now, d, level, n)
    && (forall i :: n <= i < ENTRIES ==> now[d][i] == 0)
    && |ChildFrames(now, d, level, n)| == |ChildFrames(base, s, level, n)|
    && Adds(before, now, [d] + ChildFrames(now, d, level, n))
  }

  lemma PartialBasics(base: Memory, s: Frame, before: Memory, now: Memory, d: Frame, level: nat, n: nat)
    requires n <= ENTRIES && Partial(base, s, before, now, d, level, n)
    ensures s in base && d in now && Within(before, now)
  {
  }

  lemma PartialTree(base: Memory, s: Frame, before: Memory, now: Memory, d: Frame, level: nat, n: nat)
    requires n <= ENTRIES && Partial(base, s, before, now, d, level, n)
    ensures TreeFrames(now, d, level) == [d] + ChildFrames(now, d, level, n)
    ensures d in now && Adds(before, now, TreeFrames(now, d, level))
    ensures n == ENTRIES ==> Cloned(base, s, before, now, d, level)
  {
    EmptySuffix(now, d, level, n, ENTRIES);
  }

  lemma ClonedBasics(base: Memory, s: Frame, before: Memory, after: Memory, d: Frame, level: nat)
    requires Cloned(base, s, before, after, d, level)
    ensures d in after && before.Keys <= after.Keys && forall f :: f in before ==> after[f] == before[f]
  {
  }

  /** Writing entry `n` of `d` disturbs no finished part of the copy. */
  lemma WriteKeeps(base: Memory, s: Frame, m: Memory, after: Memory, d: Frame, level: nat, n: nat, e: Entry)
    requires n < ENTRIES && s in base && d in m && after == m[d := m[d][n := e]]
    requires MirrorsTo(base, s, m, d, level, n)
    requires d !in ChildFrames(m, d, level, n) && Elems(ChildFrames(m, d, level, n)) <= m.Keys
    ensures ChildFrames(after, d, level, n) == ChildFrames(m, d, level, n)
    ensures MirrorsTo(base, s, after, d, level, n)
  {
    assert after[d][..n] == m[d][..n];
    ChildrenLocal(m, after, d, level, n);
    forall i | 0 <= i < n
      ensures SlotMirrors(base, base[s][i], after, after[d][i], level)
    {
      SlotInChildren(m, d, level, n, i);
      SlotMirrorsLocal(base, base[s][i], m, after, m[d][i], level);
    }
  }

  lemma MirrorsNext(base: Memory, s: Frame, m: Memory, d: Frame, level: nat, n: nat)
    requires s in base && d in m && n < ENTRIES && MirrorsTo(base, s, m, d, level, n)
    requires SlotMirrors(base, base[s][n], m, m[d][n], level)
    ensures MirrorsTo(base, s, m, d, level, n + 1)
  {
  }

  lemma StepLeaf(base: Memory, s: Frame, before: Memory, now: Memory, d: Frame, level: nat, n: nat)
    requires n < ENTRIES && Partial(base, s, before, now, d, level, n)
    requires d !in before && !Descends(base[s][n], level)
    ensures Partial(base, s, before, now[d := now[d][n := base[s][n]]], d, level, n + 1)
  {
    var after := now[d := now[d][n := base[s][n]]];
    var done := ChildFrames(now, d, level, n);
    DistinctSplit([d], done);
    assert d in Elems([d]);
    WriteKeeps(base, s, now, after, d, level, n, base[s][n]);
    assert ChildFrames(after, d, level, n + 1) == done;
    assert ChildFrames(base, s, level, n + 1) == ChildFrames(base, s, level, n);
    assert SlotMirrors(base, base[s][n], after, after[d][n], level);
    MirrorsNext(base, s, after, d, level, n);
    hide MirrorsTo, ChildFrames, SlotFrames, TreeFrames;
    assert Adds(before, after, [d] + ChildFrames(after, d, level, n + 1));
  }

  lemma StepChild(base: Memory, s: Frame, before: Memory, now: Memory, mid: Memory, d: Frame, level: nat, n: nat,
                  child: Frame)
    requires n < ENTRIES && Partial(base, s, before, now, d, level, n)
    requires d !in before && Descends(base[s][n], level)
    requires Cloned(base, Target(base[s][n]), now, mid, child, level - 1)
    ensures d in mid
    ensures Partial(base, s, before, mid[d := mid[d][n := Relink(base[s][n], child)]], d, level, n + 1)
  {
    hide Adds, Mirrors, TreeFrames, ChildFrames, MirrorsTo;
    var done, slot := ChildFrames(now, d, level, n), TreeFrames(mid, child, level - 1);
    AddedApart(before, now, d, done, mid, slot);
    var after := mid[d := mid[d][n := Relink(base[s][n], child)]];
    ChildLinked(base, s, now, mid, d, level, n, child);
    AddsMore(before, now, after, d, done, slot);
  }

  /** The tables of a copy so far, and of one more child. */
  lemma AddedApart(before: Memory, now: Memory, d: Frame, done: seq<Frame>, mid: Memory, slot: seq<Frame>)
    requires Adds(before, now, [d] + done) && Adds(now, mid, slot) && d in now
    ensures d in mid && mid[d] == now[d] && d !in done && d !in slot && AgreeOn(now, mid, done)
    ensures Elems(done) <= now.Keys && Elems(slot) <= mid.Keys
    ensures Distinct(slot) && Elems(slot) !! now.Keys && mid.Keys == now.Keys + Elems(slot) && Within(now, mid)
  {
    DistinctSplit([d], done);
    ElemsJoin([d], done);
    assert d in Elems([d]);
    assert forall x :: x in slot ==> x in Elems(slot);
    assert forall x :: x in done ==> x in Elems(done);
  }

  /** Linking a finished child copies one entry more and disturbs none of the others. */
  lemma ChildLinked(base: Memory, s: Frame, now: Memory, mid: Memory, d: Frame, level: nat, n: nat, child: Frame)
    requires n < ENTRIES && s in base && d in now && MirrorsTo(base, s, now, d, level, n)
    requires |ChildFrames(now, d, level, n)| == |ChildFrames(base, s, level, n)|
    requires Descends(base[s][n], level) && ValidFrame(child)
    requires Mirrors(base, Target(base[s][n]), mid, child, level - 1)
    requires |TreeFrames(mid, child, level - 1)| == |TreeFrames(base, Target(base[s][n]), level - 1)|
    requires d in mid && mid[d] == now[d] && AgreeOn(now, mid, ChildFrames(now, d, level, n))
    requires d !in ChildFrames(now, d, level, n) && Elems(ChildFrames(now, d, level, n)) <= mid.Keys
    requires d !in TreeFrames(mid, child, level - 1) && Elems(TreeFrames(mid, child, level - 1)) <= mid.Keys
    ensures var after := mid[d := mid[d][n := Relink(base[s][n], child)]];
            var frames := ChildFrames(now, d, level, n) + TreeFrames(mid, child, level - 1);
            && ChildFrames(after, d, level, n + 1) == frames && |ChildFrames(base, s, level, n + 1)| == |frames|
            && MirrorsTo(base, s, after, d, level, n + 1)
  {
    hide Mirrors, TreeFrames, MirrorsTo;
    var e := Relink(base[s][n], child);
    var after := mid[d := mid[d][n := e]];
    RelinkKeepsTarget(base[s][n], child);
    RelinkKeepsFlags(base[s][n], child);
    RelinkDescends(base[s][n], child, level);
    GrowKeeps(base, s, now, mid, d, level, n);
    WriteKeeps(base, s, mid, after, d, level, n, e);
    TreeLocal(mid, after, child, level - 1);
    MirrorsLocal(base, Target(base[s][n]), mid, after, child, level - 1);
    assert SlotMirrors(base, base[s][n], after, after[d][n], level);
    MirrorsNext(base, s, after, d, level, n);
  }

  lemma AddsMore(before: Memory, now: Memory, after: Memory, d: Frame, done: seq<Frame>, slot: seq<Frame>)
    requires Adds(before, now, [d] + done) && d !in before
    requires Distinct(slot) && Elems(slot) !! now.Keys && after.Keys == now.Keys + Elems(slot)
    requires forall f :: f in now && f != d ==> after[f] == now[f]
    ensures Adds(before, after, [d] + (done + slot))
  {
    assert [d] + (done + slot) == ([d] + done) + slot;
    DistinctJoin([d] + done, slot);
    ElemsJoin([d] + done, slot);
  }

  /** Adding tables elsewhere disturbs no finished part of the copy. */
  lemma GrowKeeps(base: Memory, s: Frame, now: Memory, mid: Memory, d: Frame, level: nat, n: nat)
    requires n < ENTRIES && s in base && d in now && d in mid && now[d] == mid[d]
    requires MirrorsTo(base, s, now, d, level, n)
    requires AgreeOn(now, mid, ChildFrames(now, d, level, n))
    ensures ChildFrames(mid, d, level, n) == ChildFrames(now, d, level, n)
    ensures MirrorsTo(base, s, mid, d, level, n)
  {
    ChildrenLocal(now, mid, d, level, n);
    forall i | 0 <= i < n
      ensures SlotMirrors(base, base[s][i], mid, mid[d][i], level)
    {
      SlotInChildren(now, d, level, n, i);
      SlotMirrorsLocal(base, base[s][i], now, mid, now[d][i], level);
    }
  }

  /** Who is to blame for a failed clone. */
  ghost predicate Blame(error: CloneError, base: Memory, s: Frame, level: nat, above: seq<Frame>,
                        room: int, log: seq<Event>, from: nat) {
    match error
    case OutOfMemory => RefusedSince(log, from)
    case TableLimit => |TreeFrames(base, s, level)| > room
    case InvalidFrame => !Legal(base, s, level, above) || BadGrantSince(log, from)
    case InvalidHugePage => !Legal(base, s, level, above)
    case Cycle => !Legal(base, s, level, above)
  }

  /** Who is to blame for a failure at one entry. */
  ghost predicate EntryBlame(error: CloneError, base: Memory, e: Entry, level: nat, above: seq<Frame>,
                             room: int, log: seq<Event>, from: nat) {
    if Descends(e, level) then Blame(error, base, Target(e), level - 1, above, room, log, from)
    else error == InvalidHugePage && BadLeaf(e, level)
  }

  /** A failure at entry `n` is a failure of the whole table. */
  lemma BlameRises(error: CloneError, base: Memory, s: Frame, level: nat, above: seq<Frame>, n: nat,
                   room: int, log: seq<Event>, from: nat, from': nat)
    requires s in base && n < ENTRIES && from <= from'
    requires EntryBlame(error, base, base[s][n], level, above + [s],
                        room - 1 - |ChildFrames(base, s, level, n)|, log, from')
    ensures Blame(error, base, s, level, above, room, log, from)
  {
    ChildrenGrow(base, s, level, n + 1, ENTRIES);
    assert LegalSlot(base, base[s][n], level, above + [s]) ==>
        !BadLeaf(base[s][n], level) &&
        (Descends(base[s][n], level) ==> Legal(base, Target(base[s][n]), level - 1, above + [s]));
  }

  method CloneTable(memory: TableMemory, source: Frame, level: nat, ancestors: array<Frame>, count: nat,
                    limit: nat, ghost base: Memory, ghost above: seq<Frame>)
    returns (result: Result<Frame, CloneError>, count': nat)
    requires 1 <= level <= 4 && ancestors.Length == 4 && count <= limit && ancestors[..4 - level] == above
    requires memory.Valid()
    requires ValidFrame(source) ==> Initialised(base, source, level)
    requires Within(base, memory.tables)
    modifies memory, ancestors
    ensures memory.Valid() && count' <= limit
    ensures ancestors[..4 - level] == above
    ensures Books(old(memory.log), count, memory.log, count')
    ensures result.Ok? ==>
              && Granting(old(memory.log), memory.log)
              && Cloned(base, source, old(memory.tables), memory.tables, result.value, level)
              && count' == count + |TreeFrames(base, source, level)|
              && Legal(base, source, level, above)
    ensures result.Err? ==>
              && memory.tables == old(memory.tables)
              && Blame(result.error, base, source, level, above, limit - count,
                       memory.log, |old(memory.log)|)
    decreases level, 2
  {
    hide Cloned, LegalSlot, ChildFrames, Lawful, Grants, Held;
    count' := count;
    if !ValidFrame(source) {
      return Err(InvalidFrame), count';
    }
    var depth := 4 - level;
    if source in ancestors[..depth] {
      return Err(Cycle), count';
    }
    ancestors[depth] := source;
    assert ancestors[..depth] == above;
    if count == limit {
      return Err(TableLimit), count';
    }
    ghost var m0, log0 := memory.tables, memory.log;
    var grant := memory.Allocate();
    if grant.None? {
      LogStep(log0, Refused);
      assert memory.log[|log0|].Refused?;
      return Err(OutOfMemory), count';
    }
    var destination := grant.value;
    LogStep(log0, Granted(destination));
    if !ValidFrame(destination) {
      LogStep(memory.log, Released(destination));
      memory.Release(destination);
      assert memory.log[|log0|] == Granted(destination);
      return Err(InvalidFrame), count' + 1;
    }
    hide Blame, TreeFrames;
    ghost var log1 := memory.log;
    result, count' := FillTable(memory, source, destination, level, ancestors, count' + 1, limit, base, m0, above);
    if result.Ok? {
      GrantingTrans(log0, log1, memory.log);
    } else {
      BlameLater(result.error, base, source, level, above, limit - count, memory.log, |log0|, |log1|);
    }
  }

  lemma BlameLater(error: CloneError, base: Memory, s: Frame, level: nat, above: seq<Frame>, room: int,
                   log: seq<Event>, from: nat, from': nat)
    requires from <= from' && Blame(error, base, s, level, above, room, log, from')
    ensures Blame(error, base, s, level, above, room, log, from)
  {
  }

  /** Turns the freshly granted `destination` into a copy of `source`, or releases it and all below it. */
  method FillTable(memory: TableMemory, source: Frame, destination: Frame, level: nat, ancestors: array<Frame>,
                   count: nat, limit: nat, ghost base: Memory, ghost before: Memory, ghost above: seq<Frame>)
    returns (result: Result<Frame, CloneError>, count': nat)
    requires 1 <= level <= 4 && ancestors.Length == 4 && 1 <= count <= limit
    requires memory.Valid() && Initialised(base, source, level) && ValidFrame(source)
    requires ancestors[..4 - level] == above && ancestors[4 - level] == source && source !in above
    requires Within(base, before)
    requires destination !in before && ValidFrame(destination)
    requires memory.foreign <= before.Keys
    requires memory.tables.Keys == before.Keys + {destination}
    requires forall f :: f in before ==> memory.tables[f] == before[f]
    modifies memory, ancestors
    ensures memory.Valid() && count' <= limit
    ensures ancestors[..4 - level] == above
    ensures Books(old(memory.log), count, memory.log, count')
    ensures result.Ok? ==>
              && Granting(old(memory.log), memory.log)
              && Cloned(base, source, before, memory.tables, result.value, level)
              && count' == count - 1 + |TreeFrames(base, source, level)|
              && Legal(base, source, level, above)
    ensures result.Err? ==>
              && memory.tables == before
              && Blame(result.error, base, source, level, above, limit - (count - 1),
                       memory.log, |old(memory.log)|)
    decreases level, 1, 1
  {
    hide Partial, Adds, Cloned, LegalSlot, ChildFrames, TreeFrames, Lawful, Grants, Held, LegalTo, Initialised, Blame,
      Granting, Within;
    ClearTable(memory, destination);
    PartialStart(base, source, before, memory.tables, destination, level);
    var failure, copied;
    failure, count', copied :=
      CopyEntries(memory, source, destination, level, ancestors, count, limit, base, before, above);
    PartialTree(base, source, before, memory.tables, destination, level, copied);
    if failure.Some? {
      ghost var log1 := memory.log;
      Undone(before, memory.tables, TreeFrames(memory.tables, destination, level), memory.foreign);
      ReleaseTree(memory, destination, level);
      BlameGrows(failure.value, base, source, level, above, limit - (count - 1), log1, memory.log, |old(memory.log)|);
      result := Err(failure.value);
    } else {
      TableDone(base, source, level, above);
      result := Ok(destination);
    }
  }

  /** A cleared table is a copy of no entries. */
  lemma PartialStart(base: Memory, s: Frame, before: Memory, now: Memory, d: Frame, level: nat)
    requires level >= 1 && Initialised(base, s, level) && ValidFrame(s) && ValidFrame(d) && d !in before
    requires now.Keys == before.Keys + {d} && Within(before, now) && forall i :: 0 <= i < ENTRIES ==> now[d][i] == 0
    ensures Partial(base, s, before, now, d, level, 0)
  {
  }

  /** Taking away what was added leaves what there was. */
  lemma Undone(before: Memory, now: Memory, added: seq<Frame>, foreign: set<Frame>)
    requires Adds(before, now, added) && foreign <= before.Keys
    ensures Distinct(added) && Elems(added) <= now.Keys - foreign && now - Elems(added) == before
  {
  }

  lemma TableDone(m: Memory, f: Frame, level: nat, above: seq<Frame>)
    requires ValidFrame(f) && f !in above && LegalTo(m, f, level, above, ENTRIES)
    ensures Legal(m, f, level, above)
    ensures |TreeFrames(m, f, level)| == 1 + |ChildFrames(m, f, level, ENTRIES)|
  {
  }

  lemma BlameGrows(error: CloneError, base: Memory, s: Frame, level: nat, above: seq<Frame>, room: int,
                   log: seq<Event>, log': seq<Event>, from: nat)
    requires log <= log' && Blame(error, base, s, level, above, room, log, from)
    ensures Blame(error, base, s, level, above, room, log', from)
  {
    if RefusedSince(log, from) {
      var i :| from <= i < |log| && log[i].Refused?;
      assert log'[i].Refused?;
    }
    if BadGrantSince(log, from) {
      var i :| from <= i < |log| && log[i].Granted? && !ValidFrame(log[i].frame);
      assert log'[i] == log[i];
    }
  }

  method ClearTable(memory: TableMemory, frame: Frame)
    requires memory.Valid() && frame in memory.tables
    modifies memory`tables
    ensures memory.Valid() && frame in memory.tables
    ensures memory.tables == old(memory.tables)[frame := memory.tables[frame]]
    ensures forall i :: 0 <= i < ENTRIES ==> memory.tables[frame][i] == 0
  {
    var index := 0;
    while index < ENTRIES
      invariant index <= ENTRIES
      invariant memory.Valid() && frame in memory.tables
      invariant memory.tables == old(memory.tables)[frame := memory.tables[frame]]
      invariant forall i :: 0 <= i < index ==> memory.tables[frame][i] == 0
    {
      memory.Write(frame, index, 0);
      index := index + 1;
    }
  }

  /** The outcome of copying the first `n` entries of a table, from `log` and `count` on. */
  ghost predicate Copied(base: Memory, s: Frame, before: Memory, d: Frame, level: nat, above: seq<Frame>, limit: int,
                         n: nat, log: seq<Event>, count: int, m': Memory, log': seq<Event>, count': int,
                         failure: Option<CloneError>) {
    && n <= ENTRIES && Partial(base, s, before, m', d, level, n)
    && Books(log, count, log', count') && count' <= limit
    && (failure.None? ==>
          && Granting(log, log')
          && count' == count + |ChildFrames(base, s, level, n)|
          && LegalTo(base, s, level, above, n))
    && (failure.Some? ==> Blame(failure.value, base, s, level, above, limit - (count - 1), log', |log|))
  }

  /** The outcome of copying entry `n` alone, from `m`, `log` and `count` on. */
  ghost predicate EntryCopied(base: Memory, s: Frame, before: Memory, d: Frame, level: nat, above: seq<Frame>,
                              limit: int, n: nat, m: Memory, log: seq<Event>, count: int,
                              m': Memory, log': seq<Event>, count': int, failure: Option<CloneError>) {
    && n < ENTRIES && s in base
    && Books(log, count, log', count') && count' <= limit
    && (failure.None? ==>
          && Granting(log, log')
          && Partial(base, s, before, m', d, level, n + 1)
          && count' == count + |SlotFrames(base, base[s][n], level)|
          && LegalSlot(base, base[s][n], level, above + [s]))
    && (failure.Some? ==>
          && m' == m
          && EntryBlame(failure.value, base, base[s][n], level, above + [s], limit - count, log', |log|))
  }

  lemma CopiedNext(base: Memory, s: Frame, before: Memory, d: Frame, level: nat, above: seq<Frame>, limit: int,
                   n: nat, log: seq<Event>, count: int, m': Memory, log': seq<Event>, count': int,
                   m'': Memory, log'': seq<Event>, count'': int, failure: Option<CloneError>)
    requires Copied(base, s, before, d, level, above, limit, n, log, count, m', log', count', None)
    requires EntryCopied(base, s, before, d, level, above, limit, n, m', log', count', m'', log'', count'', failure)
    ensures Copied(base, s, before, d, level, above, limit, if failure.None? then n + 1 else n, log, count,
                   m'', log'', count'', failure)
  {
    BooksTrans(log, count, log', count', log'', count'');
    hide Partial, Blame, Granting, EntryBlame, LegalTo, LegalSlot;
    if failure.Some? {
      BlameRises(failure.value, base, s, level, above, n, limit - (count - 1), log'', |log|, |log'|);
    } else {
      GrantingTrans(log, log', log'');
      ChildStep(base, s, level, n);
      LegalNext(base, s, level, above, n);
    }
  }

  /** The copying loop of `CloneTable`; a failure leaves a partial tree for the caller to release. */
  method CopyEntries(memory: TableMemory, source: Frame, destination: Frame, level: nat, ancestors: array<Frame>,
                     count: nat, limit: nat, ghost base: Memory, ghost before: Memory, ghost above: seq<Frame>)
    returns (failure: Option<CloneError>, count': nat, index: nat)
    requires 1 <= level <= 4 && ancestors.Length == 4 && 1 <= count <= limit
    requires memory.Valid() && Initialised(base, source, level)
    requires ancestors[..4 - level] == above && ancestors[4 - level] == source
    requires Within(base, before) && destination !in before
    requires Partial(base, source, before, memory.tables, destination, level, 0)
    modifies memory, ancestors
    ensures memory.Valid() && ancestors[..4 - level] == above
    ensures Copied(base, source, before, destination, level, above, limit, index, old(memory.log), count,
                   memory.tables, memory.log, count', failure)
    ensures failure.None? ==> index == ENTRIES
    decreases level, 1, 0
  {
    ghost var log0 := memory.log;
    failure, count', index := None, count, 0;
    assert Copied(base, source, before, destination, level, above, limit, index, log0, count,
                  memory.tables, memory.log, count', failure);
    hide *;
    while index < ENTRIES && failure.None?
      invariant index <= ENTRIES
      invariant memory.Valid() && ancestors[..4 - level] == above && ancestors[4 - level] == source
      invariant Copied(base, source, before, destination, level, above, limit, index, log0, count,
                       memory.tables, memory.log, count', failure)
      decreases ENTRIES - index, if failure.None? then 1 else 0
    {
      ghost var m1, log1, count1 := memory.tables, memory.log, count';
      CopiedBasics(base, source, before, destination, level, above, limit, index, log0, count, m1, log1, count1, None);
      failure, count' :=
        CopyEntry(memory, source, destination, level, ancestors, count', limit, index, base, before, above);
      CopiedNext(base, source, before, destination, level, above, limit, index, log0, count, m1, log1, count1,
                 memory.tables, memory.log, count', failure);
      if failure.None? {
        index := index + 1;
      }
    }
  }

  lemma CopiedBasics(base: Memory, s: Frame, before: Memory, d: Frame, level: nat, above: seq<Frame>, limit: int,
                     n: nat, log: seq<Event>, count: int, m': Memory, log': seq<Event>, count': int,
                     failure: Option<CloneError>)
    requires Copied(base, s, before, d, level, above, limit, n, log, count, m', log', count', failure)
    ensures n <= ENTRIES && Partial(base, s, before, m', d, level, n) && count' <= limit
  {
  }

  lemma ChildStep(m: Memory, f: Frame, level: nat, n: nat)
    requires f in m && n < ENTRIES
    ensures |ChildFrames(m, f, level, n + 1)| ==
            |ChildFrames(m, f, level, n)| + |SlotFrames(m, m[f][n], level)|
  {
  }

  ghost predicate LegalTo(m: Memory, f: Frame, level: nat, above: seq<Frame>, n: nat)
    requires n <= ENTRIES
  {
    f in m && forall i :: 0 <= i < n ==> LegalSlot(m, m[f][i], level, above + [f])
  }

  lemma LegalNext(m: Memory, f: Frame, level: nat, above: seq<Frame>, n: nat)
    requires n < ENTRIES && LegalTo(m, f, level, above, n)
    requires LegalSlot(m, m[f][n], level, above + [f])
    ensures LegalTo(m, f, level, above, n + 1)
  {
  }

  /** One pass of the copying loop. */
  method CopyEntry(memory: TableMemory, source: Frame, destination: Frame, level: nat, ancestors: array<Frame>,
                   count: nat, limit: nat, index: nat, ghost base: Memory, ghost before: Memory,
                   ghost above: seq<Frame>)
    returns (failure: Option<CloneError>, count': nat)
    requires 1 <= level <= 4 && ancestors.Length == 4 && count <= limit && index < ENTRIES
    requires memory.Valid() && Initialised(base, source, level)
    requires ancestors[..4 - level] == above && ancestors[4 - level] == source
    requires Within(base, before) && destination !in before
    requires Partial(base, source, before, memory.tables, destination, level, index)
    modifies memory, ancestors
    ensures memory.Valid() && ancestors[..4 - level] == above && ancestors[4 - level] == source
    ensures EntryCopied(base, source, before, destination, level, above, limit, index, old(memory.tables),
                        old(memory.log), count, memory.tables, memory.log, count', failure)
    decreases level, 0, 1
  {
    PartialBasics(base, source, before, memory.tables, destination, level, index);
    hide Partial, Blame, TreeFrames, ChildFrames, Mirrors, Descends, BadHuge, BadLeaf;
    var entry := memory.tables[source][index];
    assert entry == base[source][index];
    if Descends(entry, level) {
      failure, count' :=
        CopyChild(memory, source, destination, level, ancestors, count, limit, index, base, before, above);
    } else if BadHuge(entry, level) {
      BadHugeIff(entry, level);
      failure, count' := Some(InvalidHugePage), count;
    } else {
      BadHugeIff(entry, level);
      StepLeaf(base, source, before, memory.tables, destination, level, index);
      memory.Write(destination, index, entry);
      failure, count' := None, count;
    }
  }

  /** The case of `CopyEntry` that descends: a child is linked only after its whole subtree succeeds. */
  method CopyChild(memory: TableMemory, source: Frame, destination: Frame, level: nat, ancestors: array<Frame>,
                   count: nat, limit: nat, index: nat, ghost base: Memory, ghost before: Memory,
                   ghost above: seq<Frame>)
    returns (failure: Option<CloneError>, count': nat)
    requires 1 <= level <= 4 && ancestors.Length == 4 && count <= limit && index < ENTRIES
    requires memory.Valid() && Initialised(base, source, level)
    requires ancestors[..4 - level] == above && ancestors[4 - level] == source
    requires Within(base, before) && destination !in before
    requires Partial(base, source, before, memory.tables, destination, level, index)
    requires Descends(base[source][index], level)
    modifies memory, ancestors
    ensures memory.Valid() && ancestors[..4 - level] == above && ancestors[4 - level] == source
    ensures EntryCopied(base, source, before, destination, level, above, limit, index, old(memory.tables),
                        old(memory.log), count, memory.tables, memory.log, count', failure)
    decreases level, 0, 0
  {
    hide Partial, Cloned, Blame, TreeFrames, ChildFrames, Mirrors, Legal, Held, Grants, Lawful, Granting;
    PartialBasics(base, source, before, memory.tables, destination, level, index);
    var entry := memory.tables[source][index];
    ghost var now := memory.tables;
    assert ancestors[..5 - level] == above + [source];
    var child;
    child, count' := CloneTable(memory, Target(entry), level - 1, ancestors, count, limit, base, above + [source]);
    assert ancestors[..4 - level] == ancestors[..5 - level][..4 - level];
    assert ancestors[4 - level] == ancestors[..5 - level][4 - level];
    if child.Err? {
      failure := Some(child.error);
    } else {
      ClonedBasics(base, Target(entry), now, memory.tables, child.value, level - 1);
      StepChild(base, source, before, now, memory.tables, destination, level, index, child.value);
      memory.Write(destination, index, Relink(entry, child.value));
      failure := None;
    }
  }

  // ------------------------------------------------------------- whole clones

  datatype OwnedRoot = OwnedRoot(physical: Frame, tableFrames: nat)

  /** The allocator neither refused nor granted an unusable frame from `log` to `log'`. */
  ghost predicate Cooperative(log: seq<Event>, log': seq<Event>) {
    !RefusedSince(log', |log|) && !BadGrantSince(log', |log|)
  }

  /**
   What a whole clone promises.  It succeeds exactly when the source tree is
   legal and small enough and the allocator cooperates.  A success adds one
   faithful copy in fresh frames and counts them; a failure changes no table,
   holds no frame more than before, and has someone to blame.
   */
  ghost predicate RootCloned(m: Memory, log: seq<Event>, source: Frame, level: nat, limit: nat,
                             m': Memory, log': seq<Event>, result: Result<OwnedRoot, CloneError>) {
    && log <= log' && Grants(log') - Grants(log) <= limit
    && (result.Ok? <==>
          Legal(m, source, level, []) && |TreeFrames(m, source, level)| <= limit && Cooperative(log, log'))
    && (result.Ok? ==>
          && Cloned(m, source, m, m', result.value.physical, level)
          && result.value.tableFrames == |TreeFrames(m, source, level)|
          && result.value.tableFrames == |TreeFrames(m', result.value.physical, level)|
          && result.value.tableFrames == Grants(log') - Grants(log)
          && result.value.tableFrames == |Held(log')| - |Held(log)|)
    && (result.Err? ==>
          && m' == m
          && Held(log') == Held(log)
          && Blame(result.error, m, source, level, [], limit, log', |log|))
  }

  method CloneRoot(memory: TableMemory, source: Frame, limit: nat) returns (result: Result<OwnedRoot, CloneError>)
    requires memory.Valid()
    requires ValidFrame(source) ==> Initialised(memory.tables, source, 4)
    modifies memory
    ensures memory.Valid()
    ensures RootCloned(old(memory.tables), old(memory.log), source, 4, limit, memory.tables, memory.log, result)
  {
    hide Legal, TreeFrames, Cloned, Granting, Blame, Held, Grants, Lawful, Initialised, Cooperative;
    var ancestors := new Frame[4](_ => Frame(0));
    assert ancestors[..0] == [];
    var cloned, count := CloneTable(memory, source, 4, ancestors, 0, limit, memory.tables, []);
    if cloned.Ok? {
      GrantsAreHeld(old(memory.log), memory.log);
      GrantingIsCooperative(old(memory.log), memory.log);
      ClonedSize(memory.tables, source, old(memory.tables), cloned.value);
      result := Ok(OwnedRoot(cloned.value, count));
    } else {
      BlameExcludes(cloned.error, old(memory.tables), source, limit, old(memory.log), memory.log);
      result := Err(cloned.error);
    }
  }

  lemma GrantingIsCooperative(log: seq<Event>, log': seq<Event>)
    requires Granting(log, log')
    ensures Cooperative(log, log')
  {
  }

  lemma ClonedSize(after: Memory, s: Frame, m: Memory, d: Frame)
    requires Cloned(m, s, m, after, d, 4)
    ensures |TreeFrames(after, d, 4)| == |TreeFrames(m, s, 4)|
  {
  }

  /** A failure with someone to blame is no success. */
  lemma BlameExcludes(error: CloneError, m: Memory, s: Frame, limit: nat, log: seq<Event>, log': seq<Event>)
    requires Blame(error, m, s, 4, [], limit, log', |log|)
    ensures !(Legal(m, s, 4, []) && |TreeFrames(m, s, 4)| <= limit && Cooperative(log, log'))
  {
    hide Legal, TreeFrames;
  }

  lemma ClonedIsApart(m: Memory, s: Frame, m': Memory, d: Frame)
    requires Cloned(m, s, m, m', d, 4)
    ensures d in m' && Distinct(TreeFrames(m', d, 4)) && m' - Elems(TreeFrames(m', d, 4)) == m
    ensures Elems(TreeFrames(m', d, 4)) <= m'.Keys - m.Keys
  {
    hide Mirrors, TreeFrames;
  }

  /** Releasing a successful clone takes everything back. */
  method CloneAndRelease(memory: TableMemory, source: Frame, limit: nat) returns (cloned: bool)
    requires memory.Valid()
    requires ValidFrame(source) ==> Initialised(memory.tables, source, 4)
    modifies memory
    ensures memory.Valid() && memory.tables == old(memory.tables) && Held(memory.log) == Held(old(memory.log))
    ensures cloned ==> Legal(memory.tables, source, 4, []) && |TreeFrames(memory.tables, source, 4)| <= limit
    ensures !cloned ==> !Legal(memory.tables, source, 4, []) || |TreeFrames(memory.tables, source, 4)| > limit ||
                        !Cooperative(old(memory.log), memory.log)
  {
    hide Legal, TreeFrames, Cloned, Held, Grants, Lawful, Initialised, Blame, Cooperative;
    var result := CloneRoot(memory, source, limit);
    cloned := result.Ok?;
    if cloned {
      ClonedIsApart(old(memory.tables), source, memory.tables, result.value.physical);
      ReleaseTree(memory, result.value.physical, 4);
    }
  }

  // ------------------------------------------------------------------- walks

  /** What the processor meets on its way down to a leaf. */
  datatype Walk = Leaf(entry: Entry, level: nat) | Step(flags: bv64, below: Walk) | Nowhere

  function Index(address: nat, level: nat): (i: nat)
    requires 1 <= level <= 4
    ensures i < ENTRIES
  {
    match level
    case 1 => address / 0x1000 % ENTRIES
    case 2 => address / 0x1000 / ENTRIES % ENTRIES
    case 3 => address / 0x1000 / ENTRIES / ENTRIES % ENTRIES
    case 4 => address / 0x1000 / ENTRIES / ENTRIES / ENTRIES % ENTRIES
  }

  /** What the walk selects: an address is the sum of its four indices, in pages of their level, and its page offset. */
  lemma IndicesAddUp(address: nat)
    requires address < 0x1_0000_0000_0000
    ensures address == Index(address, 4) * 0x80_0000_0000 + Index(address, 3) * 0x4000_0000 +
                       Index(address, 2) * 0x20_0000 + Index(address, 1) * 0x1000 + address % 0x1000
  {
    var a := address / 0x1000;
    var b := a / ENTRIES;
    var c := b / ENTRIES;
    assert c / ENTRIES < ENTRIES;
  }

  ghost function WalkFrom(m: Memory, f: Frame, level: nat, address: nat): Walk
    requires 1 <= level <= 4
    decreases level, m
  {
    if f !in m then Nowhere
    else
      var e := m[f][Index(address, level)];
      if Descends(e, level) then Step(e & !ADDRESS, WalkFrom(m, Target(e), level - 1, address)) else Leaf(e, level)
  }

  /** A copied tree translates every virtual address through the same flags to the same leaf. */
  lemma {:induction false} SameWalk(m: Memory, f: Frame, m': Memory, f': Frame, level: nat, address: nat)
    requires 1 <= level <= 4 && Mirrors(m, f, m', f', level)
    ensures WalkFrom(m, f, level, address) == WalkFrom(m', f', level, address)
    ensures WalkFrom(m, f, level, address) != Nowhere
    decreases level
  {
    hide Index;
    var i := Index(address, level);
    assert SlotMirrors(m, m[f][i], m', m'[f'][i], level);
    if Descends(m[f][i], level) {
      SameWalk(m, Target(m[f][i]), m', Target(m'[f'][i]), level - 1, address);
    }
  }
}

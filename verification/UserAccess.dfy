/** Checking user pointers against the active page tables. */
module UserAccess {
  import opened PageTables
  import opened Units

  const WRITABLE: bv64 := 2
  const USER: bv64 := 4
  const USER_ADDRESS_LIMIT: nat := 0x80_0000_0000

  predicate Grants(e: Entry, writable: bool) {
    e & PRESENT != 0 && e & USER != 0 && (writable ==> e & WRITABLE != 0)
  }

  /**
   Every entry on the way down to the leaf of `address` grants user access.  A 4 KiB leaf
   ends the walk at level 1, a large leaf above it; the top level has no leaves.
   */
  ghost predicate Permits(m: Memory, f: Frame, level: nat, address: nat, writable: bool)
    requires 1 <= level <= 4
    decreases level, m
  {
    f in m &&
    var e := m[f][Index(address, level)];
    && Grants(e, writable)
    && (level == 1 || (level < 4 && e & HUGE != 0) ||
        (Target(e).bits != 0 && Permits(m, Target(e), level - 1, address, writable)))
  }

  /** The bits a user access needs. */
  lemma GrantsBits(e: bv64, writable: bool)
    ensures Grants(e, writable) <==> e % 2 == 1 && e / 4 % 2 == 1 && (writable ==> e / 2 % 2 == 1)
  {
  }

  /** All bytes of a page are translated alike. */
  lemma SamePageIndex(a: nat, level: nat)
    requires 1 <= level <= 4
    ensures Index(PageOf(a), level) == Index(a, level)
  {
    assert PageOf(a) / 0x1000 == a / 0x1000;
  }

  lemma {:induction false} SamePagePermits(m: Memory, f: Frame, level: nat, a: nat, writable: bool)
    requires 1 <= level <= 4
    ensures Permits(m, f, level, PageOf(a), writable) == Permits(m, f, level, a, writable)
    decreases level
  {
    SamePageIndex(a, level);
    hide Index;
    if f in m && level > 1 {
      SamePagePermits(m, Target(m[f][Index(a, level)]), level - 1, a, writable);
    }
  }

  /** The walk of `user_page_accessible`, level by level. */
  method UserPageAccessible(m: Memory, root: Frame, address: nat, writable: bool) returns (ok: bool)
    ensures ok == Permits(m, root, 4, address, writable)
  {
    hide Index;
    var table, level, done := root, 4, false;
    ok := false;
    while !done
      invariant 1 <= level <= 4
      invariant done ==> ok == Permits(m, root, 4, address, writable)
      invariant !done ==> Permits(m, root, 4, address, writable) == Permits(m, table, level, address, writable)
      decreases level, if done then 0 else 1
    {
      if table !in m {
        ok, done := false, true;
      } else {
        var entry := m[table][Index(address, level)];
        if !Grants(entry, writable) {
          ok, done := false, true;
        } else if level == 1 || (level < 4 && entry & HUGE != 0) {
          ok, done := true, true;
        } else if Target(entry).bits == 0 {
          ok, done := false, true;
        } else {
          table, level := Target(entry), level - 1;
        }
      }
    }
  }

  /** Every byte of the range is below the user limit and passes the walk. */
  ghost predicate RangePermits(m: Memory, root: Frame, address: nat, length: nat, writable: bool) {
    forall b :: address <= b < address + length ==> b < USER_ADDRESS_LIMIT && Permits(m, root, 4, b, writable)
  }

  method UserRangeAccessible(m: Memory, root: Frame, address: nat, length: nat, writable: bool) returns (ok: bool)
    requires address <= U64_MAX
    ensures length == 0 ==> ok == (address < USER_ADDRESS_LIMIT)
    ensures length > 0 ==> ok == RangePermits(m, root, address, length, writable)
  {
    hide Permits, PageOf, RangePermits, PagesPermit;
    if length == 0 {
      return address < USER_ADDRESS_LIMIT;
    }
    var last := address + (length - 1);
    BeyondLimit(m, root, address, length, writable, address);
    BeyondLimit(m, root, address, length, writable, last);
    if last > U64_MAX {
      return false;
    }
    if address >= USER_ADDRESS_LIMIT || last >= USER_ADDRESS_LIMIT {
      return false;
    }
    PagesInOrder(address, last);
    ok := PagesAccessible(m, root, PageOf(address), PageOf(last), writable);
    RangeByPages(m, root, address, length, writable);
  }

  lemma PagesInOrder(a: nat, b: nat)
    requires a <= b
    ensures PageOf(a) % PAGE_SIZE == 0 && PageOf(b) % PAGE_SIZE == 0 && PageOf(a) <= PageOf(b)
    ensures PageOf(a) <= a < PageOf(a) + PAGE_SIZE
  {
  }

  lemma BeyondLimit(m: Memory, root: Frame, address: nat, length: nat, writable: bool, b: nat)
    requires address <= b < address + length
    ensures b >= USER_ADDRESS_LIMIT ==> !RangePermits(m, root, address, length, writable)
  {
    hide Permits;
    assert RangePermits(m, root, address, length, writable) ==> Permits(m, root, 4, b, writable);
  }

  ghost predicate PagesPermit(m: Memory, root: Frame, first: nat, end: nat, writable: bool) {
    forall p: nat :: first <= p < end && p % PAGE_SIZE == 0 ==> Permits(m, root, 4, p, writable)
  }

  /** The loop over pages, from `first` to `last` inclusive. */
  method PagesAccessible(m: Memory, root: Frame, first: nat, last: nat, writable: bool) returns (ok: bool)
    requires first % PAGE_SIZE == 0 && last % PAGE_SIZE == 0 && first <= last
    ensures ok == PagesPermit(m, root, first, last + PAGE_SIZE, writable)
  {
    hide Permits, PagesPermit;
    var page := first;
    NoPages(m, root, first, writable);
    PagesMore(m, root, first, page, last, writable);
    ok := UserPageAccessible(m, root, page, writable);
    while ok && page != last
      invariant page % PAGE_SIZE == 0 && first <= page <= last
      invariant ok ==> PagesPermit(m, root, first, page + PAGE_SIZE, writable)
      invariant !ok ==> !PagesPermit(m, root, first, last + PAGE_SIZE, writable)
      decreases last - page, ok
    {
      NextPage(page, last);
      page := page + PAGE_SIZE;
      PagesMore(m, root, first, page, last, writable);
      ok := UserPageAccessible(m, root, page, writable);
    }
  }

  lemma NextPage(page: nat, last: nat)
    requires page % PAGE_SIZE == 0 && last % PAGE_SIZE == 0 && page < last
    ensures (page + PAGE_SIZE) % PAGE_SIZE == 0 && page + PAGE_SIZE <= last
  {
  }

  lemma NoPages(m: Memory, root: Frame, first: nat, writable: bool)
    ensures PagesPermit(m, root, first, first, writable)
  {
  }

  lemma PagesMore(m: Memory, root: Frame, first: nat, page: nat, last: nat, writable: bool)
    requires page % PAGE_SIZE == 0 && first <= page <= last && PagesPermit(m, root, first, page, writable)
    ensures Permits(m, root, 4, page, writable) ==> PagesPermit(m, root, first, page + PAGE_SIZE, writable)
    ensures !Permits(m, root, 4, page, writable) ==> !PagesPermit(m, root, first, last + PAGE_SIZE, writable)
  {
    hide Permits;
    forall p: nat | page <= p < page + PAGE_SIZE && p % PAGE_SIZE == 0
      ensures p == page
    {
    }
  }

  /** Asking once per page answers for every byte. */
  lemma RangeByPages(m: Memory, root: Frame, address: nat, length: nat, writable: bool)
    requires length > 0 && address + (length - 1) < USER_ADDRESS_LIMIT
    ensures RangePermits(m, root, address, length, writable) ==
            PagesPermit(m, root, PageOf(address), PageOf(address + (length - 1)) + PAGE_SIZE, writable)
  {
    hide Permits, PageOf;
    var last := address + (length - 1);
    PagesInOrder(address, last);
    PagesInOrder(last, last);
    if PagesPermit(m, root, PageOf(address), PageOf(last) + PAGE_SIZE, writable) {
      forall b | address <= b < address + length
        ensures b < USER_ADDRESS_LIMIT && Permits(m, root, 4, b, writable)
      {
        SamePagePermits(m, root, 4, b, writable);
        PagesInOrder(address, b);
        PagesInOrder(b, last);
      }
    }
    if RangePermits(m, root, address, length, writable) {
      forall p: nat | PageOf(address) <= p < PageOf(last) + PAGE_SIZE && p % PAGE_SIZE == 0
        ensures Permits(m, root, 4, p, writable)
      {
        var b := if p < address then address else p;
        SamePage(address, last, p, b);
        SamePagePermits(m, root, 4, b, writable);
      }
    }
  }

  lemma SamePage(address: nat, last: nat, p: nat, b: nat)
    requires PageOf(address) <= p < PageOf(last) + PAGE_SIZE && p % PAGE_SIZE == 0 && address <= last
    requires b == if p < address then address else p
    ensures address <= b <= last && PageOf(b) == p
  {
  }

  /** A clone answers every question about user memory as its source does. */
  lemma {:induction false} ClonePermits(m: Memory, f: Frame, m': Memory, f': Frame, level: nat, above: seq<Frame>,
                                        address: nat, writable: bool)
    requires 1 <= level <= 4 && Mirrors(m, f, m', f', level) && Legal(m, f, level, above)
    ensures Permits(m, f, level, address, writable) == Permits(m', f', level, address, writable)
    decreases level
  {
    hide Index, ValidFrame, Grants, Descends, BadLeaf;
    var i := Index(address, level);
    var e, e' := m[f][i], m'[f'][i];
    assert SlotMirrors(m, e, m', e', level) && LegalSlot(m, e, level, above + [f]);
    EndOfWalk(e, level, writable);
    if Descends(e, level) {
      SameGrants(e, e', writable);
      assert Legal(m, Target(e), level - 1, above + [f]);
      TargetUsable(Target(e));
      TargetUsable(Target(e'));
      ClonePermits(m, Target(e), m', Target(e'), level - 1, above + [f], address, writable);
      hide Mirrors, Legal;
      assert Permits(m, f, level, address, writable) ==
             (Grants(e, writable) && Permits(m, Target(e), level - 1, address, writable));
      assert Permits(m', f', level, address, writable) ==
             (Grants(e', writable) && Permits(m', Target(e'), level - 1, address, writable));
    } else {
      assert e == e';
      assert Permits(m, f, level, address, writable) == Grants(e, writable);
      assert Permits(m', f', level, address, writable) == Grants(e, writable);
    }
  }

  /** What the walk meets lets a user access through: every entry on the way, down to a leaf. */
  ghost predicate WalkGrants(w: Walk, writable: bool) {
    match w
    case Nowhere => false
    case Leaf(e, _) => Grants(e, writable)
    case Step(flags, below) => Grants(flags, writable) && WalkGrants(below, writable)
  }

  /** On a legal tree the answer is that of the processor's own walk. */
  lemma {:induction false} PermitsByWalk(
      m: Memory, f: Frame, level: nat, above: seq<Frame>, address: nat, writable: bool)
    requires 1 <= level <= 4 && Legal(m, f, level, above)
    ensures Permits(m, f, level, address, writable) <==> WalkGrants(WalkFrom(m, f, level, address), writable)
    decreases level
  {
    hide Index, ValidFrame, Grants, Descends, BadLeaf;
    var i := Index(address, level);
    var e := m[f][i];
    assert LegalSlot(m, e, level, above + [f]);
    EndOfWalk(e, level, writable);
    if Descends(e, level) {
      FlagsGrant(e, writable);
      assert Legal(m, Target(e), level - 1, above + [f]);
      TargetUsable(Target(e));
      PermitsByWalk(m, Target(e), level - 1, above + [f], address, writable);
    }
  }

  lemma FlagsGrant(e: Entry, writable: bool)
    ensures Grants(e & !ADDRESS, writable) == Grants(e, writable)
  {
    FlagBits(e);
  }

  lemma TargetUsable(f: Frame)
    requires ValidFrame(f)
    ensures f.bits != 0
  {
  }

  /** Below a legal entry the walk ends exactly where no table follows. */
  lemma EndOfWalk(e: Entry, level: nat, writable: bool)
    ensures Grants(e, writable) && !Descends(e, level) && !BadLeaf(e, level) ==>
              level <= 1 || (level < 4 && e & HUGE != 0) || level > 4
    ensures Descends(e, level) ==> level > 1 && e & HUGE == 0
  {
  }

  lemma SameGrants(e: Entry, e': Entry, writable: bool)
    requires e & !ADDRESS == e' & !ADDRESS
    ensures Grants(e, writable) == Grants(e', writable)
    ensures e & HUGE == e' & HUGE
  {
    FlagBits(e);
    FlagBits(e');
  }

  lemma FlagBits(e: bv64)
    ensures e & PRESENT == (e & !ADDRESS) & PRESENT
    ensures e & USER == (e & !ADDRESS) & USER
    ensures e & WRITABLE == (e & !ADDRESS) & WRITABLE
    ensures e & HUGE == (e & !ADDRESS) & HUGE
  {
  }
}

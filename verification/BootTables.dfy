/**
 The page-table cloner on top of the physical memory manager: the manager answers as the
 frame-memory contract demands, and what a clone does to its free list.
 */
module BootTables {
  import opened Wrappers
  import opened Units
  import opened Ranges
  import opened PhysicalMemory
  import opened PageTables

  function Address(f: Frame): nat {
    f.bits as nat
  }

  lemma BitsRoundTrip(x: bv64)
    ensures (x as nat) as bv64 == x
  {
  }

  lemma SameBits(x: bv64, y: bv64)
    requires x as nat == y as nat
    ensures x == y
  {
    BitsRoundTrip(x);
    BitsRoundTrip(y);
    assert (x as nat) as bv64 == (y as nat) as bv64;
  }

  lemma AddressInjective(f: Frame, g: Frame)
    requires Address(f) == Address(g)
    ensures f == g
  {
    SameBits(f.bits, g.bits);
  }

  // ------------------------------------------------------------ pages taken out

  /** `s` is what is left of `start` once the held pages are taken out of it. */
  ghost predicate Tracks(start: seq<Region>, held: set<int>, s: seq<Region>) {
    && (forall x :: Covers(s, x) <==> Covers(start, x) && PageOf(x) !in held)
    && (forall a :: a in held ==> a % PAGE_SIZE == 0)
    && (forall x :: PageOf(x) in held ==> Covers(start, x))
  }

  lemma InPage(a: int, x: int)
    requires a % PAGE_SIZE == 0
    ensures a <= x < a + PAGE_SIZE <==> PageOf(x) == a
  {
  }

  /** A page taken from what is left was free from the start and is not held. */
  lemma TracksGrant(start: seq<Region>, held: set<int>, s: seq<Region>, s': seq<Region>, a: nat)
    requires Tracks(start, held, s) && FrameTaken(s, s', Some(a))
    ensures a !in held && Covers(start, a)
    ensures Tracks(start, held + {a}, s')
  {
    hide PageOf;
    InPage(a, a);
    assert Covers(s, a);
    forall x
      ensures Covers(s', x) <==> Covers(start, x) && PageOf(x) !in held + {a}
      ensures PageOf(x) in held + {a} ==> Covers(start, x)
    {
      InPage(a, x);
    }
  }

  /** A held page can be returned, and returning it restores it. */
  lemma TracksRelease(start: seq<Region>, held: set<int>, s: seq<Region>, a: int)
    requires Tracks(start, held, s) && a in held
    ensures forall x :: a <= x < a + PAGE_SIZE ==> Covers(start, x) && !Covers(s, x)
    ensures a >= 0 ==> forall s' :: With(s, s', a, a + PAGE_SIZE) ==> Tracks(start, held - {a}, s')
  {
    hide PageOf;
    forall x | a <= x < a + PAGE_SIZE
      ensures Covers(start, x) && !Covers(s, x)
    {
      InPage(a, x);
    }
    if a >= 0 {
      forall s' | With(s, s', a, a + PAGE_SIZE)
        ensures Tracks(start, held - {a}, s')
      {
        forall x
          ensures Covers(s', x) <==> Covers(start, x) && PageOf(x) !in held - {a}
          ensures PageOf(x) in held - {a} ==> Covers(start, x)
        {
          InPage(a, x);
        }
      }
    }
  }

  // ------------------------------------------------------------- list length

  lemma LowestStartsList(s: seq<Region>, s': seq<Region>, a: nat)
    requires Canonical(s) && Paged(s) && FrameTaken(s, s', Some(a))
    ensures s != [] && a == s[0].start && a + PAGE_SIZE <= s[0].end
    ensures |Carve(s, 0, a, a + PAGE_SIZE)| <= |s|
  {
    assert Covers(s, a);
    assert Covers(s, s[0].start);
    assert a == s[0].start && PagedRegion(s[0]);
  }

  /** Taking the lowest page never lengthens a canonical list. */
  lemma FrameShrinks(s: seq<Region>, s': seq<Region>, a: nat)
    requires Canonical(s) && Canonical(s') && Paged(s) && FrameTaken(s, s', Some(a))
    ensures |s'| <= |s|
  {
    hide Canonical, Covers, Carve, Paged;
    LowestStartsList(s, s', a);
    CarveKeeps(s, 0, a, a + PAGE_SIZE);
    CanonicalUnique(s', Carve(s, 0, a, a + PAGE_SIZE));
  }

  /** Returning a block lengthens a canonical list by at most one region. */
  lemma ReturnGrows(s: seq<Region>, s': seq<Region>, i: nat, a: nat, b: nat)
    requires Canonical(s) && Canonical(s') && a < b && With(s, s', a, b) && StartsAt(s, i, a)
    requires forall x :: a <= x < b ==> !Covers(s, x)
    ensures |s'| <= |s| + 1
  {
    GapIsDisjoint(s, i, a, b);
    FuseKeeps(s, i, a, b);
    CanonicalUnique(s', Fuse(s, i, a, b));
  }

  lemma {:induction false} SlotExists(s: seq<Region>, a: int) returns (i: nat)
    ensures StartsAt(s, i, a)
  {
    if s == [] || s[|s| - 1].start < a {
      i := |s|;
    } else {
      i := SlotExists(s[..|s| - 1], a);
    }
  }

  // ---------------------------------------------------------- runs of the manager

  /** What passed between a client and the manager, one page at a time. */
  datatype Exchange = Gave(address: nat) | Declined | TookBack(address: nat)

  /** What the contracts of `AllocateFrame` and `FreePages` make of the free list. */
  ghost predicate Answers(s: seq<Region>, e: Exchange, s': seq<Region>) {
    match e
    case Gave(a) => FrameTaken(s, s', Some(a))
    case Declined => FrameTaken(s, s', None)
    case TookBack(a) => With(s, s', a, a + PAGE_SIZE)
  }

  /** A run of the manager: its free list before each exchange and after the last. */
  ghost predicate Served(start: seq<Region>, t: seq<Exchange>, states: seq<seq<Region>>) {
    && |states| == |t| + 1 && states[0] == start
    && (forall i :: 0 <= i < |states| ==> Canonical(states[i]) && Paged(states[i]))
    && (forall i :: 0 <= i < |t| ==> Answers(states[i], t[i], states[i + 1]))
  }

  /** The pages given out and not taken back. */
  ghost function HeldPages(t: seq<Exchange>): set<int> {
    if t == [] then {}
    else
      var held := HeldPages(t[..|t| - 1]);
      match t[|t| - 1]
      case Gave(a) => held + {a}
      case Declined => held
      case TookBack(a) => held - {a}
  }

  /** The client only gives back pages that it holds. */
  ghost predicate ReturnsHeld(t: seq<Exchange>) {
    t != [] ==>
      ReturnsHeld(t[..|t| - 1]) && (t[|t| - 1].TookBack? ==> t[|t| - 1].address in HeldPages(t[..|t| - 1]))
  }

  /** The manager only gives out pages that were free from the start and that nobody holds. */
  ghost predicate GivesFresh(start: seq<Region>, t: seq<Exchange>) {
    t != [] ==>
      && GivesFresh(start, t[..|t| - 1])
      && (t[|t| - 1].Gave? ==>
            t[|t| - 1].address !in HeldPages(t[..|t| - 1]) && Covers(start, t[|t| - 1].address))
  }

  ghost function TimesGiven(t: seq<Exchange>): nat {
    if t == [] then 0 else TimesGiven(t[..|t| - 1]) + if t[|t| - 1].Gave? then 1 else 0
  }

  /** What holds of the free list `s` after the exchanges `t`. */
  ghost predicate Accounted(start: seq<Region>, t: seq<Exchange>, s: seq<Region>) {
    && GivesFresh(start, t) && Tracks(start, HeldPages(t), s)
    && |s| + |HeldPages(t)| <= |start| + TimesGiven(t)
    && Size(s) == Size(start) - PAGE_SIZE * |HeldPages(t)|
  }

  lemma GaveNext(start: seq<Region>, t: seq<Exchange>, a: nat, s: seq<Region>, s': seq<Region>)
    requires Accounted(start, t, s) && FrameTaken(s, s', Some(a)) && Canonical(s) && Paged(s) && Canonical(s')
    ensures Accounted(start, t + [Gave(a)], s')
  {
    hide Canonical, Paged, Covers, Tracks, Size, Without;
    assert (t + [Gave(a)])[..|t|] == t;
    TracksGrant(start, HeldPages(t), s, s', a);
    FrameShrinks(s, s', a);
    TakenSize(s, s', a);
  }

  lemma TookBackNext(start: seq<Region>, t: seq<Exchange>, a: nat, s: seq<Region>, s': seq<Region>)
    requires Accounted(start, t, s) && With(s, s', a, a + PAGE_SIZE) && a in HeldPages(t)
    requires Canonical(s) && Canonical(s')
    ensures Accounted(start, t + [TookBack(a)], s')
  {
    hide Canonical, Covers, Tracks, Size, With;
    assert (t + [TookBack(a)])[..|t|] == t;
    TracksRelease(start, HeldPages(t), s, a);
    var slot := SlotExists(s, a);
    ReturnGrows(s, s', slot, a, a + PAGE_SIZE);
    ReturnedSize(s, s', a);
  }

  lemma TakenSize(s: seq<Region>, s': seq<Region>, a: nat)
    requires FrameTaken(s, s', Some(a))
    ensures Size(s') == Size(s) - PAGE_SIZE
  {
  }

  lemma ReturnedSize(s: seq<Region>, s': seq<Region>, a: nat)
    requires With(s, s', a, a + PAGE_SIZE)
    ensures Size(s') == Size(s) + PAGE_SIZE
  {
  }

  lemma AccountedNext(start: seq<Region>, t: seq<Exchange>, e: Exchange, s: seq<Region>, s': seq<Region>)
    requires Accounted(start, t, s) && Answers(s, e, s') && (e.TookBack? ==> e.address in HeldPages(t))
    requires Canonical(s) && Paged(s) && Canonical(s')
    ensures Accounted(start, t + [e], s')
  {
    hide Canonical, Paged, Tracks, Size, With, Without;
    match e
    case Gave(a) => GaveNext(start, t, a, s, s');
    case TookBack(a) => TookBackNext(start, t, a, s, s');
    case Declined => assert (t + [e])[..|t|] == t;
  }

  lemma NothingServed(start: seq<Region>)
    ensures Accounted(start, [], start) && ReturnsHeld([])
  {
  }

  lemma ServedPrefix(start: seq<Region>, t: seq<Exchange>, states: seq<seq<Region>>, n: nat)
    requires Served(start, t, states) && n <= |t|
    ensures Served(start, t[..n], states[..n + 1])
  {
    hide Canonical, Paged, Answers;
  }

  /** Every run of the manager keeps its books: by induction over the exchanges. */
  lemma {:induction false} ServedAccounts(start: seq<Region>, t: seq<Exchange>, states: seq<seq<Region>>)
    requires Served(start, t, states) && ReturnsHeld(t)
    ensures Accounted(start, t, states[|t|])
    decreases |t|
  {
    hide Canonical, Paged, Answers, Accounted;
    if t == [] {
      NothingServed(start);
    } else {
      var n := |t| - 1;
      ServedPrefix(start, t, states, n);
      ServedAccounts(start, t[..n], states[..n + 1]);
      assert t == t[..n] + [t[n]];
      AccountedNext(start, t[..n], t[n], states[n], states[n + 1]);
    }
  }

  /** A page that is held meets all the demands of `free_pages`, while there is a slot per page held. */
  lemma ReturnSucceeds(
      start: seq<Region>, managed: seq<Region>, t: seq<Exchange>, s: seq<Region>, capacity: nat, a: int)
    requires Accounted(start, t, s) && a in HeldPages(t) && |start| + TimesGiven(t) <= capacity
    requires Canonical(managed) && Paged(managed) && forall x :: Covers(start, x) ==> Covers(managed, x)
    ensures PAGE_SIZE <= a && a % PAGE_SIZE == 0 && a + PAGE_SIZE <= U64_MAX
    ensures Returnable(managed, s, a, a + PAGE_SIZE) && HasRoom(s, capacity, a, a + PAGE_SIZE)
  {
    hide Covers, Canonical, PageOf;
    TracksRelease(start, HeldPages(t), s, a);
    InPage(a, a);
    ManagedPage(managed, a);
    assert |HeldPages(t)| > 0;
  }

  lemma ManagedPage(managed: seq<Region>, a: int)
    requires Canonical(managed) && Paged(managed) && forall x :: a <= x < a + PAGE_SIZE ==> Covers(managed, x)
    ensures PAGE_SIZE <= a && a + PAGE_SIZE <= U64_MAX
  {
    assert Covers(managed, a);
    BlockInOneRegion(managed, a, a + PAGE_SIZE);
    var k :| 0 <= k < |managed| && managed[k].start <= a && a + PAGE_SIZE <= managed[k].end;
    assert PagedRegion(managed[k]);
  }

  // ------------------------------------------------------------------- the object

  /** A client asks for a page, or gives back the one it got in an earlier exchange. */
  datatype Request = Ask | GiveBack(exchange: nat)

  function Asks(requests: seq<Request>): nat {
    if requests == [] then 0 else Asks(requests[..|requests| - 1]) + if requests[|requests| - 1].Ask? then 1 else 0
  }

  lemma {:induction false} AsksGrow(requests: seq<Request>, n: nat)
    requires n < |requests|
    ensures Asks(requests[..n + 1]) == Asks(requests[..n]) + if requests[n].Ask? then 1 else 0
    ensures Asks(requests[..n + 1]) <= Asks(requests)
    decreases |requests| - n
  {
    assert requests[..n + 1][..n] == requests[..n];
    if n + 1 < |requests| {
      AsksGrow(requests, n + 1);
    } else {
      assert requests[..n + 1] == requests;
    }
  }

  /** Where a session with the manager stands. */
  ghost predicate Session(
      start: seq<Region>, t: seq<Exchange>, states: seq<seq<Region>>, held: set<int>, s: seq<Region>) {
    && Served(start, t, states) && ReturnsHeld(t) && Accounted(start, t, s)
    && states[|t|] == s && held == HeldPages(t)
  }

  lemma SessionNext(start: seq<Region>, t: seq<Exchange>, states: seq<seq<Region>>, held: set<int>, s: seq<Region>,
                    e: Exchange, s': seq<Region>)
    requires Session(start, t, states, held, s) && Answers(s, e, s') && (e.TookBack? ==> e.address in held)
    requires Canonical(s') && Paged(s')
    ensures var held' := match e case Gave(a) => held + {a} case Declined => held case TookBack(a) => held - {a};
            Session(start, t + [e], states + [s'], held', s')
    ensures TimesGiven(t + [e]) == TimesGiven(t) + if e.Gave? then 1 else 0
  {
    hide Canonical, Paged, Answers, Accounted;
    assert (t + [e])[..|t|] == t;
    assert Canonical(states[|t|]) && Paged(states[|t|]);
    AccountedNext(start, t, e, s, s');
  }

  /**
   The manager itself serves any requests: it starts with one spare slot per request for a page,
   and so no page given back is refused, and it ends up short of exactly the pages still held.
   */
  method Serve(pmm: PhysicalMemory, requests: seq<Request>)
    returns (t: seq<Exchange>, ghost states: seq<seq<Region>>)
    requires pmm.Valid() && pmm.freeLen + Asks(requests) <= pmm.capacity
    modifies pmm`freeLen, pmm`freeBytes, pmm.free
    ensures pmm.Valid() && pmm.Managed() == old(pmm.Managed())
    ensures Served(old(pmm.Free()), t, states) && ReturnsHeld(t) && states[|t|] == pmm.Free()
    ensures Tracks(old(pmm.Free()), HeldPages(t), pmm.Free())
    ensures pmm.freeBytes == old(pmm.freeBytes) - PAGE_SIZE * |HeldPages(t)|
    ensures HeldPages(t) == {} ==> pmm.Free() == old(pmm.Free())
  {
    hide Canonical, Paged, Answers, Accounted, Served, Covers, Size, FrameTaken, With, Returnable, HasRoom;
    ghost var start := pmm.Free();
    var held: set<int>, n := {}, 0;
    t, states := [], [start];
    StartSession(start);
    while n < |requests|
      invariant n <= |requests| && pmm.Valid() && pmm.Managed() == old(pmm.Managed())
      invariant Session(start, t, states, held, pmm.Free()) && TimesGiven(t) <= Asks(requests[..n])
      invariant forall x :: Covers(start, x) ==> Covers(pmm.Managed(), x)
    {
      ghost var s := pmm.Free();
      AsksGrow(requests, n);
      match requests[n] {
        case Ask =>
          var frame := pmm.AllocateFrame();
          var e := if frame.value.Some? then Gave(frame.value.value) else Declined;
          TakenAnswers(s, pmm.Free(), frame.value);
          SessionNext(start, t, states, held, s, e, pmm.Free());
          t, states := t + [e], states + [pmm.Free()];
          held := if e.Gave? then held + {e.address} else held;
        case GiveBack(k) =>
          if k < |t| && t[k].Gave? && t[k].address in held {
            var a := t[k].address;
            ReturnSucceeds(start, pmm.Managed(), t, s, pmm.capacity, a);
            var freed := pmm.FreePages(a, 1);
            assert freed.Ok?;
            ReturnAnswers(s, pmm.Free(), a);
            SessionNext(start, t, states, held, s, TookBack(a), pmm.Free());
            t, states := t + [TookBack(a)], states + [pmm.Free()];
            held := held - {a};
          }
      }
      n := n + 1;
    }
    SessionEnds(start, t, states, held, pmm.Free());
  }

  lemma StartSession(start: seq<Region>)
    requires Canonical(start) && Paged(start)
    ensures Session(start, [], [start], {}, start)
  {
  }

  lemma TakenAnswers(s: seq<Region>, s': seq<Region>, frame: Option<nat>)
    requires FrameTaken(s, s', frame)
    ensures Answers(s, if frame.Some? then Gave(frame.value) else Declined, s')
  {
  }

  lemma ReturnAnswers(s: seq<Region>, s': seq<Region>, a: nat)
    requires With(s, s', a, a + PAGE_SIZE)
    ensures Answers(s, TookBack(a), s')
  {
  }

  lemma SessionEnds(start: seq<Region>, t: seq<Exchange>, states: seq<seq<Region>>, held: set<int>, s: seq<Region>)
    requires Session(start, t, states, held, s)
    ensures Tracks(start, HeldPages(t), s) && Size(s) == Size(start) - PAGE_SIZE * |HeldPages(t)|
    ensures HeldPages(t) == {} ==> s == start
  {
    assert Canonical(states[0]) && Canonical(states[|t|]);
    NoneHeld(start, t, s);
  }

  /** With nothing held, the free list is the one there was. */
  lemma NoneHeld(start: seq<Region>, t: seq<Exchange>, s: seq<Region>)
    requires Canonical(start) && Canonical(s) && Tracks(start, HeldPages(t), s)
    ensures HeldPages(t) == {} ==> s == start
  {
    if HeldPages(t) == {} {
      assert forall x :: Covers(start, x) <==> Covers(s, x);
      CanonicalUnique(start, s);
    }
  }

  // ------------------------------------------------------- clones on the manager

  /** The cloner's journal as the manager sees it. */
  ghost function Transcript(log: seq<Event>): (t: seq<Exchange>)
    ensures |t| == |log|
  {
    if log == [] then []
    else
      var n := |log| - 1;
      Transcript(log[..n]) + [match log[n]
                              case Granted(f) => Gave(Address(f))
                              case Refused => Declined
                              case Released(f) => TookBack(Address(f))]
  }

  ghost function Addresses(frames: set<Frame>): set<int> {
    set f | f in frames :: Address(f)
  }

  /** The cloner only releases frames that it holds. */
  ghost predicate ReleasesHeld(log: seq<Event>) {
    log != [] ==>
      ReleasesHeld(log[..|log| - 1]) && (log[|log| - 1].Released? ==> log[|log| - 1].frame in Held(log[..|log| - 1]))
  }

  /** A grant that the frame-memory contract allows: neither held nor one of the tables `m`. */
  ghost predicate GrantAllowed(m: Memory, log: seq<Event>, i: nat) {
    i < |log| && log[i].Granted? ==> log[i].frame !in Held(log[..i]) && log[i].frame !in m
  }

  lemma AddressesAfter(held: set<Frame>, f: Frame)
    ensures Addresses(held + {f}) == Addresses(held) + {Address(f)}
    ensures Addresses(held - {f}) == Addresses(held) - {Address(f)}
    ensures Address(f) in Addresses(held) <==> f in held
  {
    hide Address;
    forall g | Address(g) == Address(f)
      ensures g == f
    {
      AddressInjective(f, g);
    }
  }

  lemma {:induction false} AddressCount(held: set<Frame>)
    ensures |Addresses(held)| == |held|
    decreases |held|
  {
    hide Address;
    if held != {} {
      var f :| f in held;
      AddressesAfter(held - {f}, f);
      AddressCount(held - {f});
      assert held - {f} + {f} == held;
    }
  }

  /** The pages held are those of the frames held. */
  lemma {:induction false} TranscriptHolds(log: seq<Event>)
    requires ReleasesHeld(log)
    ensures HeldPages(Transcript(log)) == Addresses(Held(log)) && ReturnsHeld(Transcript(log))
    ensures TimesGiven(Transcript(log)) == Grants(log)
    decreases |log|
  {
    hide Address;
    if log != [] {
      var n := |log| - 1;
      TranscriptHolds(log[..n]);
      assert Transcript(log)[..n] == Transcript(log[..n]);
      match log[n]
      case Granted(f) => AddressesAfter(Held(log[..n]), f);
      case Released(f) => AddressesAfter(Held(log[..n]), f);
      case Refused =>
    }
  }

  lemma {:induction false} TranscriptPrefix(log: seq<Event>, i: nat)
    requires i <= |log|
    ensures Transcript(log)[..i] == Transcript(log[..i])
    decreases |log|
  {
    hide Address;
    if i < |log| {
      TranscriptPrefix(log[..|log| - 1], i);
      assert log[..|log| - 1][..i] == log[..i];
    } else {
      assert log[..i] == log;
    }
  }

  /**
   The manager meets the frame-memory contract: with all tables `m` outside its free list, it never
   grants a frame that is held or is one of them.
   */
  lemma {:induction false} ManagerMeetsContract(
      m: Memory, log: seq<Event>, start: seq<Region>, states: seq<seq<Region>>)
    requires ReleasesHeld(log) && Served(start, Transcript(log), states)
    requires Outside(m, start)
    ensures Lawful(log) && forall i: nat :: GrantAllowed(m, log, i)
    decreases |log|
  {
    hide Address, Covers, Canonical, Paged, Answers;
    if log != [] {
      var n := |log| - 1;
      TranscriptPrefix(log, n);
      ServedPrefix(start, Transcript(log), states, n);
      ManagerMeetsContract(m, log[..n], start, states[..n + 1]);
      TranscriptHolds(log);
      TranscriptHolds(log[..n]);
      ServedAccounts(start, Transcript(log), states);
      if log[n].Granted? {
        AddressesAfter(Held(log[..n]), log[n].frame);
      }
      forall i: nat
        ensures GrantAllowed(m, log, i)
      {
        if i < n {
          assert GrantAllowed(m, log[..n], i) && log[..n][..i] == log[..i];
        }
      }
    }
  }

  /** Every free page has an address that a page-table entry can hold. */
  ghost predicate Usable(start: seq<Region>) {
    forall f :: Covers(start, Address(f)) && Address(f) % PAGE_SIZE == 0 ==> ValidFrame(f)
  }

  /** A refusal means that all pages are out. */
  lemma RefusedWhenEmpty(start: seq<Region>, t: seq<Exchange>, states: seq<seq<Region>>, i: nat)
    requires Served(start, t, states) && i < |t| && t[i].Declined? && ReturnsHeld(t[..i])
    ensures Size(start) == PAGE_SIZE * |HeldPages(t[..i])|
  {
    hide Canonical, Paged;
    ServedPrefix(start, t, states, i);
    ServedAccounts(start, t[..i], states[..i + 1]);
    assert Answers(states[i], t[i], states[i + 1]);
  }

  lemma {:induction false} PrefixFacts(log: seq<Event>, i: nat)
    requires ReleasesHeld(log) && i <= |log|
    ensures ReleasesHeld(log[..i]) && Grants(log[..i]) <= Grants(log) && |Held(log[..i])| <= Grants(log[..i])
    decreases |log|
  {
    if i < |log| {
      PrefixFacts(log[..|log| - 1], i);
      assert log[..|log| - 1][..i] == log[..i];
    } else {
      assert log[..i] == log;
      if log != [] {
        PrefixFacts(log[..|log| - 1], |log| - 1);
        assert log[..|log| - 1][..|log| - 1] == log[..|log| - 1];
      }
    }
  }

  /** With more free pages than the clone may take, the manager always cooperates. */
  lemma ManagerCooperates(log: seq<Event>, limit: nat, start: seq<Region>, states: seq<seq<Region>>)
    requires ReleasesHeld(log) && Grants(log) <= limit && Served(start, Transcript(log), states)
    requires Usable(start) && Size(start) > PAGE_SIZE * limit
    ensures Cooperative([], log)
  {
    hide Address, Covers, Canonical, Paged, Usable, Transcript, Answers;
    forall i | 0 <= i < |log|
      ensures !log[i].Refused? && (log[i].Granted? ==> ValidFrame(log[i].frame))
    {
      TranscriptAt(log, i);
      TranscriptPrefix(log, i);
      PrefixFacts(log, i);
      TranscriptHolds(log[..i]);
      AddressCount(Held(log[..i]));
      if log[i].Refused? {
        RefusedWhenEmpty(start, Transcript(log), states, i);
      } else if log[i].Granted? {
        TranscriptHolds(log);
        GrantUsable(start, Transcript(log), states, i, log[i].frame);
      }
    }
  }

  lemma {:induction false} TranscriptAt(log: seq<Event>, i: nat)
    requires i < |log|
    ensures Transcript(log)[i] == match log[i]
                                  case Granted(f) => Gave(Address(f))
                                  case Refused => Declined
                                  case Released(f) => TookBack(Address(f))
    decreases |log|
  {
    hide Address;
    if i < |log| - 1 {
      TranscriptAt(log[..|log| - 1], i);
    }
  }

  lemma GrantUsable(start: seq<Region>, t: seq<Exchange>, states: seq<seq<Region>>, i: nat, f: Frame)
    requires Served(start, t, states) && i < |t| && t[i] == Gave(Address(f)) && ReturnsHeld(t[..i]) && Usable(start)
    ensures ValidFrame(f)
  {
    hide Address, Canonical, Paged, ValidFrame;
    ServedPrefix(start, t, states, i);
    ServedAccounts(start, t[..i], states[..i + 1]);
    assert Answers(states[i], t[i], states[i + 1]);
    TracksGrant(start, HeldPages(t[..i]), states[i], states[i + 1], Address(f));
  }

  /** No table of `m` is on the free list. */
  ghost predicate Outside(m: Memory, start: seq<Region>) {
    forall f :: f in m ==> !Covers(start, Address(f))
  }

  /**
   What a clone does to the manager's free list, from `start` to `s`: a success lowers the free
   bytes by one page per table frame, a failure restores the exact list, and with enough usable
   pages the clone succeeds if and only if the source tree is legal and within the limit.
   */
  ghost predicate Settled(m: Memory, source: Frame, limit: nat, result: Result<OwnedRoot, CloneError>,
                          start: seq<Region>, s: seq<Region>) {
    && (result.Ok? ==> Size(s) == Size(start) - PAGE_SIZE * result.value.tableFrames)
    && (result.Err? ==> s == start)
    && (Usable(start) && Size(start) > PAGE_SIZE * limit ==>
          (result.Ok? <==> Legal(m, source, 4, []) && |TreeFrames(m, source, 4)| <= limit))
  }

  /** A clone served by the manager: the manager answers as it must, and its books are settled. */
  lemma CloneAccounting(m: Memory, source: Frame, limit: nat, m': Memory, log: seq<Event>,
                        result: Result<OwnedRoot, CloneError>, start: seq<Region>, states: seq<seq<Region>>)
    requires RootCloned(m, [], source, 4, limit, m', log, result) && ReleasesHeld(log)
    requires Served(start, Transcript(log), states) && Outside(m, start)
    ensures Lawful(log) && forall i: nat :: GrantAllowed(m, log, i)
    ensures Settled(m, source, limit, result, start, states[|log|])
  {
    hide Legal, Cloned, TreeFrames, Blame, Cooperative, Canonical, Size, Address, Covers, Usable, Transcript, Paged,
      ReleasesHeld, Tracks, Answers, Lawful, GrantAllowed;
    ManagerMeetsContract(m, log, start, states);
    TranscriptHolds(log);
    AddressCount(Held(log));
    ServedAccounts(start, Transcript(log), states);
    assert Canonical(states[0]) && Canonical(states[|log|]);
    NoneHeld(start, Transcript(log), states[|log|]);
    if Usable(start) && Size(start) > PAGE_SIZE * limit {
      ManagerCooperates(log, limit, start, states);
    }
  }

  /** What the cloner does with any frame memory, it does with lawful releases. */
  lemma {:induction false} LawfulReleases(log: seq<Event>)
    requires Lawful(log)
    ensures ReleasesHeld(log)
  {
    if log != [] {
      LawfulReleases(log[..|log| - 1]);
    }
  }

  /** `clone_root` on a frame memory of its own: settled with any manager that served it. */
  method CloneServed(tables: Memory, source: Frame, limit: nat)
    returns (result: Result<OwnedRoot, CloneError>, ghost log: seq<Event>, ghost after: Memory)
    requires ValidFrame(source) ==> Initialised(tables, source, 4)
    ensures RootCloned(tables, [], source, 4, limit, after, log, result)
    ensures forall start, states :: Served(start, Transcript(log), states) && Outside(tables, start) ==>
              && Settled(tables, source, limit, result, start, states[|log|])
              && forall i: nat :: GrantAllowed(tables, log, i)
  {
    hide Initialised, RootCloned, Lawful, ReleasesHeld, Served, Outside, Settled, GrantAllowed, Transcript;
    var memory := new TableMemory(tables);
    result := CloneRoot(memory, source, limit);
    log, after := memory.log, memory.tables;
    LawfulReleases(log);
    forall start, states | Served(start, Transcript(log), states) && Outside(tables, start)
      ensures |states| == |log| + 1 && Settled(tables, source, limit, result, start, states[|log|])
      ensures forall i: nat :: GrantAllowed(tables, log, i)
    {
      ServedLength(start, Transcript(log), states);
      CloneAccounting(tables, source, limit, after, log, result, start, states);
    }
  }

  lemma ServedLength(start: seq<Region>, t: seq<Exchange>, states: seq<seq<Region>>)
    requires Served(start, t, states)
    ensures |states| == |t| + 1
  {
  }
}

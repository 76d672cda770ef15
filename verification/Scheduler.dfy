/** The cooperative round-robin scheduler, and what holds over all its runs. */
module Scheduler {
  import opened Wrappers
  import opened Units

  datatype State = Running | Ready | Sleeping(wake: nat) | Exited

  datatype Task = Task(id: nat, state: State)

  datatype Sched = Sched(tasks: seq<Task>, current: nat, nextId: nat, switches: nat)

  /** Exactly one task is Running, and it is the current one; identifiers are never handed out twice. */
  ghost predicate Sound(s: Sched) {
    && s.current < |s.tasks|
    && (forall i :: 0 <= i < |s.tasks| ==> (s.tasks[i].state == Running <==> i == s.current))
    && (forall i :: 0 <= i < |s.tasks| ==> s.tasks[i].id < s.nextId)
    && (forall i, j :: 0 <= i < j < |s.tasks| ==> s.tasks[i].id != s.tasks[j].id)
  }

  // --------------------------------------------------------------- the pieces

  function Woken(t: Task, now: nat): Task {
    if t.state.Sleeping? && now >= t.state.wake then t.(state := Ready) else t
  }

  /** `wake_sleepers`. */
  function WakeAll(tasks: seq<Task>, now: nat): (woken: seq<Task>)
    ensures |woken| == |tasks|
  {
    seq(|tasks|, i requires 0 <= i < |tasks| => Woken(tasks[i], now))
  }

  /** The task `offset` places after the current one, round the table. */
  function After(current: nat, offset: nat, len: nat): nat
    requires len > 0
  {
    (current + offset) % len
  }

  /** The scan of `next_ready` from `offset` on. */
  function Scan(tasks: seq<Task>, current: nat, offset: nat): Option<nat>
    requires |tasks| > 0
    decreases |tasks| - offset
  {
    if offset >= |tasks| then None
    else if tasks[After(current, offset, |tasks|)].state == Ready then Some(After(current, offset, |tasks|))
    else Scan(tasks, current, offset + 1)
  }

  function Saturating(n: nat): nat {
    if n < U64_MAX then n + 1 else n
  }

  /** The scheduler once the current task has put itself into `state` and the sleepers due have woken. */
  function Parked(s: Sched, now: nat, state: State): seq<Task>
    requires s.current < |s.tasks|
  {
    var woken := WakeAll(s.tasks, now);
    woken[s.current := woken[s.current].(state := state)]
  }

  /** Control passes to task `next`. */
  function Dispatched(s: Sched, tasks: seq<Task>, next: nat): Sched
    requires next < |tasks|
  {
    Sched(tasks[next := tasks[next].(state := Running)], next, s.nextId, Saturating(s.switches))
  }

  function Remains(s: Sched, tasks: seq<Task>): Sched
    requires s.current < |tasks|
  {
    s.(tasks := tasks[s.current := tasks[s.current].(state := Running)])
  }

  /** Who runs after the current task has parked itself. */
  function Successor(s: Sched, now: nat, state: State): Option<nat>
    requires s.current < |s.tasks|
  {
    Scan(Parked(s, now, state), s.current, 1)
  }

  /** What became of a scheduling call: control passed on, stayed, or could do neither. */
  datatype Outcome = Switched(s: Sched) | Stayed(s: Sched) | Stuck

  function Park(s: Sched, now: nat, state: State): Outcome
    requires s.current < |s.tasks|
  {
    var tasks := Parked(s, now, state);
    var next := Successor(s, now, state);
    if next.Some? && next.value < |tasks| then Switched(Dispatched(s, tasks, next.value))
    else if state == Exited then Stuck
    else Stayed(Remains(s, tasks))
  }

  // ------------------------------------------------------------------ the scan

  /** How far round the table task `i` is from the current one. */
  function Distance(current: nat, i: nat, len: nat): nat
    requires current < len && i < len
  {
    if i >= current then i - current else i + len - current
  }

  lemma Wraps(r: nat, len: nat)
    requires r < len
    ensures r % len == r && (r + len) % len == r
  {
  }

  lemma AfterIs(current: nat, offset: nat, len: nat)
    requires current < len && offset < len
    ensures After(current, offset, len) == if current + offset < len then current + offset else current + offset - len
  {
    var sum := current + offset;
    Wraps(if sum < len then sum else sum - len, len);
  }

  /** Every task has one place in the scan. */
  lemma AfterDistance(current: nat, i: nat, len: nat)
    requires current < len && i < len
    ensures After(current, Distance(current, i, len), len) == i
    ensures Distance(current, i, len) < len && (Distance(current, i, len) == 0 <==> i == current)
  {
    hide After;
    AfterIs(current, Distance(current, i, len), len);
  }

  lemma DistanceAfter(current: nat, offset: nat, len: nat)
    requires current < len && offset < len
    ensures After(current, offset, len) < len && Distance(current, After(current, offset, len), len) == offset
  {
    hide After;
    AfterIs(current, offset, len);
  }

  /** The scan finds the nearest Ready task, or there is none. */
  lemma {:induction false} ScanFinds(tasks: seq<Task>, current: nat, offset: nat)
    requires current < |tasks| && 1 <= offset <= |tasks|
    ensures Scan(tasks, current, offset).Some? ==>
              var n := Scan(tasks, current, offset).value;
              && n < |tasks| && tasks[n].state == Ready && Distance(current, n, |tasks|) >= offset
              && forall i: nat :: i < |tasks| && tasks[i].state == Ready && Distance(current, i, |tasks|) >= offset ==>
                                    Distance(current, n, |tasks|) <= Distance(current, i, |tasks|)
    ensures Scan(tasks, current, offset).None? ==>
              forall i: nat :: i < |tasks| && tasks[i].state == Ready ==> Distance(current, i, |tasks|) < offset
    decreases |tasks| - offset
  {
    hide After;
    forall i: nat | i < |tasks|
      ensures Distance(current, i, |tasks|) < |tasks|
      ensures Distance(current, i, |tasks|) == offset ==> i == After(current, offset, |tasks|)
    {
      AfterDistance(current, i, |tasks|);
    }
    if offset < |tasks| {
      DistanceAfter(current, offset, |tasks|);
      if tasks[After(current, offset, |tasks|)].state != Ready {
        ScanFinds(tasks, current, offset + 1);
      }
    }
  }

  // -------------------------------------------------------------------- events

  /** A call on the scheduler, made by the current task; `now` is the tick it reads. */
  datatype Event =
    | Spawn
    | Yield(now: nat)
    | Sleep(wake: nat, now: nat)
    | Exit(now: nat)

  function Effect(s: Sched, e: Event): Outcome
    requires s.current < |s.tasks|
  {
    match e
    case Spawn =>
      if s.nextId >= U64_MAX then Stayed(s)
      else Stayed(s.(tasks := s.tasks + [Task(s.nextId, Ready)], nextId := s.nextId + 1))
    case Yield(now) => Park(s, now, Ready)
    case Sleep(wake, now) => Park(s, now, Sleeping(wake))
    case Exit(now) => Park(s, now, Exited)
  }

  ghost predicate Step(s: Sched, e: Event, s': Sched) {
    s.current < |s.tasks| && (Effect(s, e) == Switched(s') || Effect(s, e) == Stayed(s'))
  }

  /** What one call does to the table, task by task. */
  lemma StepTasks(s: Sched, e: Event, s': Sched)
    requires Sound(s) && Step(s, e, s')
    ensures Sound(s') && |s.tasks| <= |s'.tasks|
    ensures forall i :: 0 <= i < |s.tasks| ==> s'.tasks[i].id == s.tasks[i].id
    ensures forall i :: 0 <= i < |s.tasks| && s.tasks[i].state == Exited ==> s'.tasks[i].state == Exited
    ensures forall i :: 0 <= i < |s.tasks| && s.tasks[i].state.Sleeping? ==>
                          s'.tasks[i] == s.tasks[i] || (!e.Spawn? && e.now >= s.tasks[i].state.wake)
    ensures forall i :: 0 <= i < |s.tasks| && s.tasks[i].state == Ready && i != s'.current ==>
              s'.tasks[i].state == Ready
  {
    if !e.Spawn? {
      ParkTasks(s, e.now, if e.Yield? then Ready else if e.Sleep? then Sleeping(e.wake) else Exited, s');
    }
  }

  lemma ParkTasks(s: Sched, now: nat, state: State, s': Sched)
    requires Sound(s) && state != Running && (Park(s, now, state) == Switched(s') || Park(s, now, state) == Stayed(s'))
    ensures Sound(s') && |s.tasks| == |s'.tasks|
    ensures forall i :: 0 <= i < |s.tasks| ==> s'.tasks[i].id == s.tasks[i].id
    ensures forall i :: 0 <= i < |s.tasks| && i != s.current && i != s'.current ==>
              s'.tasks[i] == Woken(s.tasks[i], now)
    ensures s'.current != s.current ==>
              s'.tasks[s.current].state == state && Woken(s.tasks[s'.current], now).state == Ready
  {
    hide Scan, Distance;
    var tasks := Parked(s, now, state);
    ScanFinds(tasks, s.current, 1);
    AfterDistance(s.current, s.current, |s.tasks|);
    assert forall i :: 0 <= i < |tasks| ==> tasks[i].state != Running;
    assert forall i :: 0 <= i < |tasks| ==> tasks[i].id == s.tasks[i].id;
  }

  /** The task is ready, or sleeps no longer than to this tick. */
  predicate ReadyOrDue(t: Task, now: nat) {
    t.state == Ready || (t.state.Sleeping? && t.state.wake <= now)
  }

  /** Whoever is ready or due and not dispatched is ready after the call, and no one else is woken. */
  lemma DueAreReady(s: Sched, e: Event, s': Sched, i: nat)
    requires Sound(s) && Step(s, e, s') && !e.Spawn? && i < |s.tasks| && i != s.current
    ensures i < |s'.tasks|
    ensures ReadyOrDue(s.tasks[i], e.now) ==> s'.tasks[i].state == (if s'.current == i then Running else Ready)
    ensures !ReadyOrDue(s.tasks[i], e.now) ==> s'.tasks[i] == s.tasks[i] && s'.current != i
  {
    ParkTasks(s, e.now, if e.Yield? then Ready else if e.Sleep? then Sleeping(e.wake) else Exited, s');
  }

  /** A call that parks the current task is stuck exactly if it exits and no one else is ready or due. */
  lemma StuckIff(s: Sched, e: Event)
    requires Sound(s)
    ensures Effect(s, e) == Stuck <==>
            e.Exit? && forall i :: 0 <= i < |s.tasks| && i != s.current ==> !ReadyOrDue(s.tasks[i], e.now)
  {
    if e.Exit? {
      hide Scan, Distance;
      var tasks := Parked(s, e.now, Exited);
      ScanFinds(tasks, s.current, 1);
      forall i: nat | i < |tasks|
        ensures i != s.current ==> Distance(s.current, i, |tasks|) >= 1 && tasks[i] == Woken(s.tasks[i], e.now)
      {
        AfterDistance(s.current, i, |tasks|);
      }
    }
  }

  /** Control passes on exactly if someone else is ready or due, and then to the nearest of those. */
  lemma NearestRuns(s: Sched, e: Event, s': Sched)
    requires Sound(s) && Step(s, e, s') && !e.Spawn?
    ensures s'.current < |s.tasks| == |s'.tasks|
    ensures s'.current != s.current <==>
            exists i: nat :: i < |s.tasks| && i != s.current && ReadyOrDue(s.tasks[i], e.now)
    ensures s'.current != s.current ==>
              && ReadyOrDue(s.tasks[s'.current], e.now)
              && forall i: nat :: i < |s.tasks| && i != s.current && ReadyOrDue(s.tasks[i], e.now) ==>
                   Distance(s.current, s'.current, |s.tasks|) <= Distance(s.current, i, |s.tasks|)
  {
    var state := if e.Yield? then Ready else if e.Sleep? then Sleeping(e.wake) else Exited;
    ParkedNearest(s, e.now, state, s');
  }

  lemma ParkedNearest(s: Sched, now: nat, state: State, s': Sched)
    requires Sound(s) && state != Running && (Park(s, now, state) == Switched(s') || Park(s, now, state) == Stayed(s'))
    ensures s'.current < |s.tasks| == |s'.tasks|
    ensures s'.current != s.current <==>
            exists i: nat :: i < |s.tasks| && i != s.current && ReadyOrDue(s.tasks[i], now)
    ensures s'.current != s.current ==>
              && ReadyOrDue(s.tasks[s'.current], now)
              && forall i: nat :: i < |s.tasks| && i != s.current && ReadyOrDue(s.tasks[i], now) ==>
                   Distance(s.current, s'.current, |s.tasks|) <= Distance(s.current, i, |s.tasks|)
  {
    hide Scan, Distance;
    var tasks := Parked(s, now, state);
    ScanFinds(tasks, s.current, 1);
    forall i: nat | i < |tasks|
      ensures i != s.current ==> (tasks[i].state == Ready <==> ReadyOrDue(s.tasks[i], now))
      ensures Distance(s.current, i, |tasks|) >= 1 <==> i != s.current
    {
      AfterDistance(s.current, i, |tasks|);
    }
  }

  /** What the caller becomes if control passes on, and what a spawn adds; switches are counted up to the largest. */
  lemma CallerParks(s: Sched, e: Event, s': Sched)
    requires Sound(s) && Step(s, e, s')
    ensures !e.Spawn? && s'.current != s.current ==>
              && s.current < |s'.tasks|
              && (e.Yield? ==> s'.tasks[s.current].state == Ready)
              && (e.Sleep? ==> s'.tasks[s.current].state == Sleeping(e.wake))
              && (e.Exit? ==> s'.tasks[s.current].state == Exited)
    ensures e.Spawn? ==> s'.current == s.current && s.tasks <= s'.tasks
    ensures e.Spawn? && s.nextId < U64_MAX ==>
              s'.tasks[|s.tasks|..] == [Task(s.nextId, Ready)] && s'.nextId == s.nextId + 1
    ensures e.Spawn? && s.nextId >= U64_MAX ==> s' == s
    ensures !e.Spawn? ==> s'.nextId == s.nextId
    ensures e.Exit? ==> s'.current != s.current
    ensures s'.switches == if s'.current != s.current && s.switches < U64_MAX then s.switches + 1 else s.switches
  {
    if !e.Spawn? {
      var state := if e.Yield? then Ready else if e.Sleep? then Sleeping(e.wake) else Exited;
      ParkTasks(s, e.now, state, s');
      SwitchedElsewhere(s, e.now, state);
    }
  }

  lemma SwitchedElsewhere(s: Sched, now: nat, state: State)
    requires Sound(s) && state != Running
    ensures Park(s, now, state).Switched? ==> Park(s, now, state).s.current != s.current
  {
    hide Scan, Distance;
    ScanFinds(Parked(s, now, state), s.current, 1);
    AfterDistance(s.current, s.current, |s.tasks|);
  }

  // ---------------------------------------------------------------------- runs

  ghost predicate Run(states: seq<Sched>, events: seq<Event>) {
    && |states| == |events| + 1 && Sound(states[0])
    && forall k :: 0 <= k < |events| ==> Follows(states, events, k)
  }

  ghost predicate Follows(states: seq<Sched>, events: seq<Event>, k: nat)
    requires |states| == |events| + 1
  {
    k < |events| && Step(states[k], events[k], states[k + 1])
  }

  /** In every state of every run one task is Running, and it is the current one. */
  lemma {:induction false} RunSound(states: seq<Sched>, events: seq<Event>, k: nat)
    requires Run(states, events) && k < |states|
    ensures Sound(states[k])
    decreases k
  {
    hide Sound, Step;
    if k > 0 {
      RunSound(states, events, k - 1);
      assert Follows(states, events, k - 1);
      StepTasks(states[k - 1], events[k - 1], states[k]);
    }
  }

  /** An exited task never runs again. */
  lemma {:induction false} ExitedStay(states: seq<Sched>, events: seq<Event>, a: nat, b: nat, i: nat)
    requires Run(states, events) && a <= b < |states| && i < |states[a].tasks| && states[a].tasks[i].state == Exited
    ensures i < |states[b].tasks| && states[b].tasks[i].state == Exited && states[b].current != i
    decreases b - a
  {
    RunSound(states, events, a);
    if a < b {
      assert Follows(states, events, a);
      StepTasks(states[a], events[a], states[a + 1]);
      ExitedStay(states, events, a + 1, b, i);
    }
  }

  /** A sleeper does not run before some call has read its wake tick or a later one. */
  lemma {:induction false} SleepersWait(states: seq<Sched>, events: seq<Event>, a: nat, b: nat, i: nat)
    requires Run(states, events) && a <= b < |states| && i < |states[a].tasks| && states[a].tasks[i].state.Sleeping?
    requires forall k :: a <= k < b && !events[k].Spawn? ==> events[k].now < states[a].tasks[i].state.wake
    ensures i < |states[b].tasks| && states[b].tasks[i] == states[a].tasks[i] && states[b].current != i
    decreases b - a
  {
    RunSound(states, events, a);
    if a < b {
      assert Follows(states, events, a);
      StepTasks(states[a], events[a], states[a + 1]);
      SleepersWait(states, events, a + 1, b, i);
    }
  }

  /** Task 0 only ever spawns and yields. */
  ghost predicate BootTaskStays(states: seq<Sched>, events: seq<Event>)
    requires |states| == |events| + 1
  {
    forall k :: 0 <= k < |events| && states[k].current == 0 ==> events[k].Spawn? || events[k].Yield?
  }

  ghost predicate BootTaskAwake(s: Sched) {
    0 < |s.tasks| && (s.tasks[0].state == Running || s.tasks[0].state == Ready)
  }

  lemma {:induction false} BootTaskStaysAwake(states: seq<Sched>, events: seq<Event>, k: nat)
    requires Run(states, events) && BootTaskStays(states, events) && BootTaskAwake(states[0]) && k < |states|
    ensures BootTaskAwake(states[k])
    decreases k
  {
    if k > 0 {
      BootTaskStaysAwake(states, events, k - 1);
      RunSound(states, events, k - 1);
      assert Follows(states, events, k - 1);
      var s, e, s' := states[k - 1], events[k - 1], states[k];
      StepTasks(s, e, s');
      if e.Yield? && s.current == 0 {
        ParkTasks(s, e.now, Ready, s');
      }
    }
  }

  /** Exit always finds a successor if the boot task never sleeps or exits. */
  lemma ExitFindsSuccessor(states: seq<Sched>, events: seq<Event>, k: nat, now: nat)
    requires Run(states, events) && BootTaskStays(states, events) && BootTaskAwake(states[0]) && k < |states|
    requires states[k].current != 0
    ensures Sound(states[k]) && Effect(states[k], Exit(now)).Switched?
  {
    hide Step, Sound, Park;
    RunSound(states, events, k);
    BootTaskStaysAwake(states, events, k);
    StuckIff(states[k], Exit(now));
    SoundCurrent(states[k]);
    ExitNeverStays(states[k], now);
  }

  lemma SoundCurrent(s: Sched)
    requires Sound(s)
    ensures s.current < |s.tasks| && (s.current != 0 ==> s.tasks[0].state != Running)
  {
  }

  lemma ExitNeverStays(s: Sched, now: nat)
    requires s.current < |s.tasks|
    ensures !Effect(s, Exit(now)).Stayed?
  {
  }

  // ----------------------------------------------------------- bounded waiting

  /** The number of calls other than spawns, and of spawns, between two states of a run. */
  ghost function Calls(events: seq<Event>, a: nat, b: nat): nat
    requires a <= b <= |events|
    decreases b - a
  {
    if a == b then 0 else (if events[a].Spawn? then 0 else 1) + Calls(events, a + 1, b)
  }

  ghost function Spawns(events: seq<Event>, a: nat, b: nat): nat
    requires a <= b <= |events|
    decreases b - a
  {
    if a == b then 0 else (if events[a].Spawn? then 1 else 0) + Spawns(events, a + 1, b)
  }

  lemma DistanceShift(current: nat, n: nat, i: nat, len: nat)
    requires current < len && n < len && i < len && Distance(current, n, len) <= Distance(current, i, len)
    ensures Distance(n, i, len) == Distance(current, i, len) - Distance(current, n, len)
  {
  }

  /** While a Ready task waits, every call but a spawn passes control on, and nearer to it. */
  lemma WaitStep(s: Sched, e: Event, s': Sched, i: nat)
    requires Sound(s) && Step(s, e, s') && i < |s.tasks| && s.tasks[i].state == Ready && s'.current != i
    ensures Sound(s') && i < |s'.tasks| && s'.tasks[i].state == Ready
    ensures e.Spawn? ==> Distance(s'.current, i, |s'.tasks|) <= Distance(s.current, i, |s.tasks|) + 1
    ensures !e.Spawn? ==>
              Effect(s, e) == Switched(s') && Distance(s'.current, i, |s'.tasks|) < Distance(s.current, i, |s.tasks|)
  {
    StepTasks(s, e, s');
    if !e.Spawn? {
      NearerStep(s, e.now, if e.Yield? then Ready else if e.Sleep? then Sleeping(e.wake) else Exited, s', i);
    }
  }

  lemma NearerStep(s: Sched, now: nat, state: State, s': Sched, i: nat)
    requires Sound(s) && state != Running && (Park(s, now, state) == Switched(s') || Park(s, now, state) == Stayed(s'))
    requires i < |s.tasks| && ReadyOrDue(s.tasks[i], now) && s'.current != i
    ensures Park(s, now, state) == Switched(s') && s'.current < |s.tasks| == |s'.tasks|
    ensures Distance(s'.current, i, |s.tasks|) < Distance(s.current, i, |s.tasks|)
  {
    hide Scan, Distance;
    var tasks := Parked(s, now, state);
    ScanFinds(tasks, s.current, 1);
    AfterDistance(s.current, i, |tasks|);
    assert tasks[i].state == Ready && i != s.current;
    var n := Successor(s, now, state).value;
    AfterDistance(s.current, n, |tasks|);
    DistanceShift(s.current, n, i, |tasks|);
  }

  /** Calls made while a Ready task waits are paid for by its distance and by spawns. */
  lemma {:induction false} WaitingIsPaidFor(states: seq<Sched>, events: seq<Event>, a: nat, b: nat, i: nat)
    requires Run(states, events) && a <= b < |states| && i < |states[a].tasks| && states[a].tasks[i].state == Ready
    requires forall k :: a < k <= b ==> states[k].current != i
    ensures Sound(states[a]) && Sound(states[b]) && i < |states[b].tasks| && states[b].tasks[i].state == Ready
    ensures Calls(events, a, b) + Distance(states[b].current, i, |states[b].tasks|)
            <= Distance(states[a].current, i, |states[a].tasks|) + Spawns(events, a, b)
    decreases b - a
  {
    hide Step, Distance;
    RunSound(states, events, a);
    if a < b {
      assert Follows(states, events, a);
      WaitStep(states[a], events[a], states[a + 1], i);
      WaitingIsPaidFor(states, events, a + 1, b, i);
    }
  }

  /**
   Bounded waiting: a Ready task is dispatched within as many calls as it is far from the current
   task, plus one for every task spawned meanwhile.
   */
  lemma BoundedWaiting(states: seq<Sched>, events: seq<Event>, a: nat, b: nat, i: nat)
    requires Run(states, events) && a <= b < |states| && i < |states[a].tasks| && states[a].tasks[i].state == Ready
    requires states[a].current < |states[a].tasks|
    requires Calls(events, a, b) >= Distance(states[a].current, i, |states[a].tasks|) + Spawns(events, a, b)
    ensures exists k :: a < k <= b && states[k].current == i
  {
    hide Step, Distance;
    if forall k :: a < k <= b ==> states[k].current != i {
      WaitingIsPaidFor(states, events, a, b, i);
      AfterDistance(states[b].current, i, |states[b].tasks|);
    }
  }

  /**
   Bounded sleep: a sleeper whose wake tick a call reads is dispatched within as many calls, that one included,
   as it is far from the current task then, plus one for every task spawned meanwhile.
   */
  lemma SleepersAreServed(states: seq<Sched>, events: seq<Event>, a: nat, b: nat, i: nat)
    requires Run(states, events) && a < b < |states| && i < |states[a].tasks| && states[a].tasks[i].state.Sleeping?
    requires !events[a].Spawn? && events[a].now >= states[a].tasks[i].state.wake
    requires states[a].current < |states[a].tasks|
    requires Calls(events, a, b) >= Distance(states[a].current, i, |states[a].tasks|) + Spawns(events, a, b)
    ensures exists k :: a < k <= b && states[k].current == i
  {
    hide Step, Distance;
    RunSound(states, events, a);
    assert Follows(states, events, a);
    var s, e, s' := states[a], events[a], states[a + 1];
    if s'.current != i {
      DueAreReady(s, e, s', i);
      StepTasks(s, e, s');
      DueStep(s, e, s', i);
      BoundedWaiting(states, events, a + 1, b, i);
    }
  }

  lemma DueStep(s: Sched, e: Event, s': Sched, i: nat)
    requires Sound(s) && Step(s, e, s') && !e.Spawn? && i < |s.tasks| && i != s.current
    requires ReadyOrDue(s.tasks[i], e.now) && s'.current != i
    ensures s'.current < |s'.tasks| == |s.tasks|
    ensures Distance(s'.current, i, |s'.tasks|) < Distance(s.current, i, |s.tasks|)
  {
    NearerStep(s, e.now, if e.Yield? then Ready else if e.Sleep? then Sleeping(e.wake) else Exited, s', i);
  }

  // ---------------------------------------------------------------- the object

  class Scheduler {
    var tasks: seq<Task>
    var current: nat
    var nextId: nat
    var switches: nat

    ghost function Abs(): Sched
      reads this
    {
      Sched(tasks, current, nextId, switches)
    }

    ghost predicate Valid()
      reads this
    {
      Sound(Abs())
    }

    /** `init`, up to its first spawn. */
    constructor ()
      ensures Valid() && BootTaskAwake(Abs()) && Abs() == Sched([Task(0, Running)], 0, 1, 0)
    {
      tasks, current, nextId, switches := [Task(0, Running)], 0, 1, 0;
    }

    method WakeSleepers(now: nat)
      modifies this`tasks
      ensures tasks == WakeAll(old(tasks), now)
    {
      var i := 0;
      while i < |tasks|
        invariant i <= |tasks| == |old(tasks)|
        invariant forall k :: 0 <= k < |tasks| ==>
                    tasks[k] == if k < i then Woken(old(tasks)[k], now) else old(tasks)[k]
      {
        if tasks[i].state.Sleeping? && now >= tasks[i].state.wake {
          tasks := tasks[i := tasks[i].(state := Ready)];
        }
        i := i + 1;
      }
    }

    method NextReady() returns (next: Option<nat>)
      requires current < |tasks|
      ensures next == Scan(tasks, current, 1)
      ensures next.Some? ==> next.value < |tasks|
    {
      ScanFinds(tasks, current, 1);
      var offset := 1;
      next := None;
      if |tasks| > 1 {
        while offset < |tasks| && next.None?
          invariant 1 <= offset <= |tasks|
          invariant Scan(tasks, current, 1) == if next.Some? then next else Scan(tasks, current, offset)
          decreases |tasks| - offset, if next.None? then 1 else 0
        {
          var index := (current + offset) % |tasks|;
          if tasks[index].state == Ready {
            next := Some(index);
          } else {
            offset := offset + 1;
          }
        }
      }
    }

    method SpawnTask() returns (id: Option<nat>)
      requires Valid()
      modifies this
      ensures Valid() && Effect(old(Abs()), Spawn) == Stayed(Abs())
      ensures id == if old(nextId) >= U64_MAX then None else Some(old(nextId))
    {
      if nextId >= U64_MAX {
        id := None;
      } else {
        id := Some(nextId);
        tasks, nextId := tasks + [Task(nextId, Ready)], nextId + 1;
      }
    }

    method SetState(i: nat, state: State)
      requires i < |tasks|
      modifies this`tasks
      ensures tasks == old(tasks)[i := old(tasks)[i].(state := state)]
    {
      tasks := tasks[i := tasks[i].(state := state)];
    }

    /** Control passes to `next`; the context switch itself is not part of the model. */
    method SwitchTo(next: nat)
      requires next < |tasks|
      modifies this
      ensures Abs() == Dispatched(old(Abs()), old(tasks), next)
    {
      SetState(next, Running);
      current := next;
      switches := Saturating(switches);
    }

    method YieldNow(now: nat)
      requires Valid()
      modifies this
      ensures Valid()
      ensures Effect(old(Abs()), Yield(now)) == Switched(Abs()) || Effect(old(Abs()), Yield(now)) == Stayed(Abs())
    {
      hide Scan, Sound;
      ghost var s := Abs();
      SoundCurrent(s);
      CurrentRuns(s, now);
      WakeSleepers(now);
      if tasks[current].state == Running {
        SetState(current, Ready);
      }
      var next := NextReady();
      if next.Some? {
        SwitchTo(next.value);
      } else {
        SetState(current, Running);
      }
      StepTasks(s, Yield(now), Abs());
    }

    /** `sleep_ticks`: `start` is the tick read first, `now` the one read with the lock held. */
    method SleepTicks(ticks: nat, start: nat, now: nat) returns (waits: bool)
      requires Valid() && start <= U64_MAX
      modifies this
      ensures Valid()
      ensures ticks == 0 ==> !waits && Step(old(Abs()), Yield(now), Abs())
      ensures ticks > 0 ==>
                Effect(old(Abs()), Sleep(if start + ticks > U64_MAX then U64_MAX else start + ticks, now))
                == if waits then Stayed(Abs()) else Switched(Abs())
    {
      hide Park;
      if ticks == 0 {
        YieldNow(now);
        waits := false;
      } else {
        waits := SleepUntil(if start + ticks > U64_MAX then U64_MAX else start + ticks, now);
      }
    }

    /**
     `sleep_ticks` for a positive number of ticks; `wake` is the tick to sleep to. A task that finds
     nobody to run instead keeps running, and waits for `wake` by itself.
     */
    method SleepUntil(wake: nat, now: nat) returns (waits: bool)
      requires Valid()
      modifies this
      ensures Valid() && Effect(old(Abs()), Sleep(wake, now)) == if waits then Stayed(Abs()) else Switched(Abs())
    {
      hide Scan, Sound;
      ghost var s := Abs();
      SoundCurrent(s);
      WakeSleepers(now);
      SetState(current, Sleeping(wake));
      var next := NextReady();
      waits := next.None?;
      if next.Some? {
        SwitchTo(next.value);
      } else {
        SetState(current, Running);
      }
      StepTasks(s, Sleep(wake, now), Abs());
    }

    /** `exit_current`; false where the source panics for want of a successor. */
    method ExitCurrent(now: nat) returns (ok: bool)
      requires Valid()
      modifies this
      ensures ok ==> Valid() && Effect(old(Abs()), Exit(now)) == Switched(Abs())
      ensures !ok ==> Effect(old(Abs()), Exit(now)) == Stuck
    {
      hide Scan, Sound;
      ghost var s := Abs();
      SoundCurrent(s);
      WakeSleepers(now);
      SetState(current, Exited);
      var next := NextReady();
      ok := next.Some?;
      if ok {
        SwitchTo(next.value);
        StepTasks(s, Exit(now), Abs());
      }
    }
  }

  lemma CurrentRuns(s: Sched, now: nat)
    requires Sound(s)
    ensures WakeAll(s.tasks, now)[s.current].state == Running
  {
  }
}

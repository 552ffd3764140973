/** The thread barrier as a transition system: `count` threads call `wait` again and again, one
    event being one atomic operation or one kernel action. */
module Barrier {
  import opened Common
  import Sets

  type Tid = nat


  datatype Pc =
    | Outside
    | LoadPhase                 // phase.load
    | Arrive(seen: nat)         // waiting.fetch_add(1)
    | ResetWaiting              // waiting.store(0)
    | AdvancePhase              // phase.fetch_add(1)
    | WakeAll                   // futex_wake(phase, MAX)
    | FutexWait(seen: nat)      // futex_wait(phase, seen)
    | Asleep(seen: nat)
    | Recheck(seen: nat)        // phase.load after the futex wait

  /** `arrived` counts the increments of `waiting` a thread has made; `results` are the values its
      completed calls returned. */
  datatype Thread = Thread(pc: Pc, arrived: nat, results: seq<bool>)

  /** `rounds` counts every increment of the phase; the phase word holds `rounds % U32`.
      `leaders[k]` is the thread that advanced the phase of round k. */
  datatype State = State(count: nat, waiting: nat, rounds: nat, leaders: seq<Tid>, threads: map<Tid, Thread>)

  datatype Event = Begin(t: Tid) | Step(t: Tid) | Wake(t: Tid) | Disturb(t: Tid)

  ghost predicate Sleeps(s: State, t: Tid) { t in s.threads && s.threads[t].pc.Asleep? }

  ghost predicate Enabled(s: State, e: Event) {
    && e.t in s.threads
    && match e
       case Begin(t) => s.threads[t].pc == Outside
       case Step(t) => s.threads[t].pc != Outside && !s.threads[t].pc.Asleep? && s.threads[t].pc != WakeAll
       case Wake(t) => s.threads[t].pc == WakeAll
       case Disturb(t) => s.threads[t].pc.Asleep?
  }

  function Phase(s: State): nat { s.rounds % U32 }

  /** The atomic operation of `t`: the new shared words and the new thread. */
  ghost function StepOf(s: State, t: Tid): State
    requires Enabled(s, Step(t))
  {
    var x := s.threads[t];
    match x.pc
    case LoadPhase => s.(threads := s.threads[t := x.(pc := Arrive(Phase(s)))])
    case Arrive(seen) =>
      var next := if s.waiting + 1 == s.count then ResetWaiting else FutexWait(seen);
      s.(waiting := (s.waiting + 1) % U32, threads := s.threads[t := x.(pc := next, arrived := x.arrived + 1)])
    case ResetWaiting => s.(waiting := 0, threads := s.threads[t := x.(pc := AdvancePhase)])
    case AdvancePhase =>
      s.(rounds := s.rounds + 1, leaders := s.leaders + [t], threads := s.threads[t := x.(pc := WakeAll)])
    case FutexWait(seen) =>
      s.(threads := s.threads[t := x.(pc := if Phase(s) == seen then Asleep(seen) else Recheck(seen))])
    case Recheck(seen) =>
      s.(threads := s.threads[t := if Phase(s) != seen then x.(pc := Outside, results := x.results + [false])
                                   else x.(pc := FutexWait(seen))])
  }

  function Awaken(x: Thread): Thread { if x.pc.Asleep? then x.(pc := Recheck(x.pc.seen)) else x }

  ghost function Apply(s: State, e: Event): State
    requires Enabled(s, e)
  {
    match e
    case Begin(t) => s.(threads := s.threads[t := s.threads[t].(pc := LoadPhase)])
    case Step(t) => StepOf(s, t)
    case Wake(t) =>
      var x := s.threads[t];
      s.(threads := (map u | u in s.threads :: Awaken(s.threads[u]))[t := x.(pc := Outside, results := x.results + [true])])
    case Disturb(t) => s.(threads := s.threads[t := Awaken(s.threads[t])])
  }

  ghost predicate IsRun(s: State, es: seq<Event>)
    decreases |es|
  {
    es == [] || (Enabled(s, es[0]) && IsRun(Apply(s, es[0]), es[1..]))
  }

  ghost function Final(s: State, es: seq<Event>): State
    requires IsRun(s, es)
    decreases |es|
  {
    if es == [] then s else Final(Apply(s, es[0]), es[1..])
  }

  /** A fresh barrier used by exactly `count` threads. */
  ghost predicate Init(s: State) {
    && 0 < s.count < U32 && |s.threads| == s.count
    && s.waiting == 0 && s.rounds == 0 && s.leaders == []
    && (forall t :: t in s.threads ==> s.threads[t] == Thread(Outside, 0, []))
  }

  // ------------------------------------------------------------ the invariant

  /** The threads that have arrived in the round now being collected. */
  ghost function Here(s: State): set<Tid> { set t | t in s.threads && s.threads[t].arrived == s.rounds + 1 }

  /** What holds of one thread while round `r` is being collected. */
  predicate Local(r: nat, x: Thread) {
    var here := x.arrived == r + 1 && |x.results| == r;
    var late := 0 < r && x.arrived == r && |x.results| == r - 1;
    match x.pc
    case Outside => x.arrived == |x.results| == r
    case LoadPhase => x.arrived == |x.results| == r
    case Arrive(seen) => x.arrived == |x.results| == r && seen == r % U32
    case ResetWaiting => here
    case AdvancePhase => here
    case WakeAll => late
    case FutexWait(seen) => (here && seen == r % U32) || (late && seen == (r - 1) % U32)
    case Asleep(seen) => (here && seen == r % U32) || (late && seen == (r - 1) % U32)
    case Recheck(seen) => (here && seen == r % U32) || (late && seen == (r - 1) % U32)
  }

  ghost predicate Closing(s: State, t: Tid) {
    t in s.threads && (s.threads[t].pc == ResetWaiting || s.threads[t].pc == AdvancePhase)
  }

  /** The calls that have returned returned true exactly to the leader of their round. */
  predicate ResultsOk(r: nat, leaders: seq<Tid>, t: Tid, x: Thread) {
    && |x.results| <= r == |leaders|
    && (forall k :: 0 <= k < |x.results| ==> (x.results[k] <==> leaders[k] == t))
    && (0 < r && |x.results| == r - 1 ==> (x.pc == WakeAll <==> leaders[r - 1] == t))
  }

  predicate ThreadOk(r: nat, leaders: seq<Tid>, t: Tid, x: Thread) { Local(r, x) && ResultsOk(r, leaders, t, x) }

  ghost predicate Shape(s: State) {
    && 0 < s.count < U32 && |s.threads.Keys| == s.count
    && |s.leaders| == s.rounds
    && (forall k :: 0 <= k < |s.leaders| ==> s.leaders[k] in s.threads)
  }

  ghost predicate Advancing(s: State, t: Tid) { t in s.threads && s.threads[t].pc == AdvancePhase }

  /** While the leader of a round is about to advance the phase, the counter is back at zero;
      otherwise it counts who is here. */
  ghost predicate Counting(s: State) {
    s.waiting == if exists t :: Advancing(s, t) then 0 else |Here(s)|
  }

  /** The round is full exactly when somebody is closing it, and then only one thread does. */
  ghost predicate OneCloser(s: State) {
    && ((exists t :: Closing(s, t)) <==> Here(s) == s.threads.Keys)
    && (forall t, u :: Closing(s, t) && Closing(s, u) ==> t == u)
  }

  ghost predicate WakeIsPending(s: State) {
    0 < s.rounds == |s.leaders| && s.leaders[s.rounds - 1] in s.threads && s.threads[s.leaders[s.rounds - 1]].pc == WakeAll
  }

  /** Whoever sleeps on the phase of a finished round has the wake of its leader coming. */
  ghost predicate NoLostWakeup(s: State) {
    forall t :: Sleeps(s, t) && s.threads[t].arrived == s.rounds ==> WakeIsPending(s)
  }

  ghost predicate Inv(s: State) {
    && Shape(s)
    && (forall t :: t in s.threads ==> ThreadOk(s.rounds, s.leaders, t, s.threads[t]))
    && Counting(s) && OneCloser(s) && NoLostWakeup(s)
  }

  // ------------------------------------------------------------ one thread

  /** The steps of a thread that touch no shared word: entering, loading the phase, the futex wait,
      the check after it, and being woken. */
  predicate Quiet(r: nat, x: Thread, y: Thread) {
    && y.arrived == x.arrived
    && match x.pc
       case Outside => y == x.(pc := LoadPhase)
       case LoadPhase => y == x.(pc := Arrive(r % U32))
       case FutexWait(seen) => y == x.(pc := if r % U32 == seen then Asleep(seen) else Recheck(seen))
       case Recheck(seen) =>
         y == if r % U32 != seen then x.(pc := Outside, results := x.results + [false]) else x.(pc := FutexWait(seen))
       case Asleep(seen) => y == x.(pc := Recheck(seen))
       case _ => false
  }

  lemma QuietOk(r: nat, leaders: seq<Tid>, t: Tid, x: Thread, y: Thread)
    requires ThreadOk(r, leaders, t, x) && Quiet(r, x, y)
    ensures ThreadOk(r, leaders, t, y)
    ensures y.pc.Asleep? ==> y.arrived == r + 1
  {}

  /** The thread of a round that has been advanced by another thread, or by itself. */
  lemma AdvancedOk(r: nat, leaders: seq<Tid>, t: Tid, x: Thread, leader: Tid)
    requires ThreadOk(r, leaders, t, x) && x.arrived == r + 1
    requires t == leader <==> x.pc == AdvancePhase
    requires x.pc != ResetWaiting
    ensures ThreadOk(r + 1, leaders + [leader], t, if t == leader then x.(pc := WakeAll) else x)
  {}

  lemma ArrivedOk(r: nat, leaders: seq<Tid>, t: Tid, x: Thread, full: bool)
    requires ThreadOk(r, leaders, t, x) && x.pc.Arrive?
    ensures x.arrived == r
    ensures ThreadOk(r, leaders, t, x.(pc := if full then ResetWaiting else FutexWait(x.pc.seen), arrived := x.arrived + 1))
  {}

  lemma LedOk(r: nat, leaders: seq<Tid>, t: Tid, x: Thread)
    requires ThreadOk(r, leaders, t, x)
    ensures x.pc == WakeAll ==> ThreadOk(r, leaders, t, x.(pc := Outside, results := x.results + [true]))
    ensures x.pc == ResetWaiting ==> ThreadOk(r, leaders, t, x.(pc := AdvancePhase))
    ensures x.pc == ResetWaiting || x.pc == AdvancePhase ==> x.arrived == r + 1
    ensures ThreadOk(r, leaders, t, Awaken(x))
  {}

  // ------------------------------------------------------------ the steps

  /** A step that keeps the counter, who is here and who is closing keeps what the counter counts. */
  lemma CountsCarry(s: State, s': State)
    requires Counting(s) && OneCloser(s)
    requires s'.waiting == s.waiting && s'.threads.Keys == s.threads.Keys && Here(s') == Here(s)
    requires forall u :: Closing(s', u) <==> Closing(s, u)
    requires forall u :: Advancing(s', u) <==> Advancing(s, u)
    ensures Counting(s') && OneCloser(s')
  {
    hide Here, Closing, Advancing;
  }

  lemma QuietStep(s: State, t: Tid, y: Thread)
    requires Inv(s) && t in s.threads && Quiet(s.rounds, s.threads[t], y)
    ensures Inv(s.(threads := s.threads[t := y]))
  {
    hide ThreadOk, Counting, OneCloser;
    var s' := s.(threads := s.threads[t := y]);
    assert s'.threads.Keys == s.threads.Keys;
    QuietOk(s.rounds, s.leaders, t, s.threads[t], y);
    assert Here(s') == Here(s);
    CountsCarry(s, s');
    forall u | Sleeps(s', u) && s'.threads[u].arrived == s'.rounds
      ensures WakeIsPending(s')
    {
      assert Sleeps(s, u);
    }
  }

  /** The counter after an arrival: one more is here, and the last one to come closes the round. */
  lemma ArriveCounts(s: State, t: Tid)
    requires Shape(s) && Counting(s) && OneCloser(s)
    requires t in s.threads && s.threads[t].pc.Arrive? && s.threads[t].arrived == s.rounds
    ensures Counting(StepOf(s, t)) && OneCloser(StepOf(s, t))
  {
    var s' := StepOf(s, t);
    assert s'.threads.Keys == s.threads.Keys;
    assert t !in Here(s) && Here(s') == Here(s) + {t};
    hide Here;
    assert forall u :: !Closing(s, u);
    assert forall u :: Advancing(s, u) ==> Closing(s, u);
    Sets.SubsetSize(Here(s'), s'.threads.Keys);
    assert s'.waiting == |Here(s')|;
    assert forall u :: Closing(s', u) ==> u == t || Closing(s, u);
    if s'.threads[t].pc == ResetWaiting { assert Closing(s', t); }
    assert forall u :: Advancing(s', u) ==> Advancing(s, u);
  }

  lemma ArriveStep(s: State, t: Tid)
    requires Inv(s) && t in s.threads && s.threads[t].pc.Arrive?
    ensures Inv(StepOf(s, t))
  {
    hide ThreadOk, Counting, OneCloser;
    var s' := StepOf(s, t);
    assert s'.threads.Keys == s.threads.Keys;
    ArrivedOk(s.rounds, s.leaders, t, s.threads[t], s.waiting + 1 == s.count);
    ArriveCounts(s, t);
    forall u | Sleeps(s', u) && s'.threads[u].arrived == s'.rounds
      ensures WakeIsPending(s')
    {
      assert Sleeps(s, u);
    }
  }

  lemma ResetStep(s: State, t: Tid)
    requires Inv(s) && t in s.threads && s.threads[t].pc == ResetWaiting
    ensures Inv(StepOf(s, t))
  {
    hide ThreadOk;
    var s' := StepOf(s, t);
    assert s'.threads.Keys == s.threads.Keys;
    LedOk(s.rounds, s.leaders, t, s.threads[t]);
    assert Closing(s, t) && Closing(s', t) && Advancing(s', t);
    assert Here(s') == Here(s);
    assert forall u :: Closing(s', u) ==> u == t || Closing(s, u);
    assert forall u :: u in s'.threads ==> u in Here(s);
  }

  lemma AdvanceStep(s: State, t: Tid)
    requires Inv(s) && t in s.threads && s.threads[t].pc == AdvancePhase
    ensures Inv(StepOf(s, t))
  {
    hide ThreadOk;
    var s' := StepOf(s, t);
    assert s'.threads.Keys == s.threads.Keys;
    assert Closing(s, t) && Advancing(s, t);
    forall u | u in s'.threads
      ensures ThreadOk(s'.rounds, s'.leaders, u, s'.threads[u]) && !Closing(s', u) && s'.threads[u].arrived == s'.rounds
    {
      assert u in Here(s);
      assert Closing(s, u) ==> u == t;
      AdvancedOk(s.rounds, s.leaders, u, s.threads[u], t);
    }
    assert Here(s') == {};
    assert forall u :: Advancing(s', u) ==> Closing(s', u);
    assert WakeIsPending(s');
  }

  lemma WakeStep(s: State, t: Tid)
    requires Inv(s) && Enabled(s, Wake(t))
    ensures Inv(Apply(s, Wake(t)))
  {
    hide ThreadOk;
    var s' := Apply(s, Wake(t));
    assert s'.threads.Keys == s.threads.Keys;
    forall u | u in s'.threads
      ensures ThreadOk(s'.rounds, s'.leaders, u, s'.threads[u])
    {
      LedOk(s.rounds, s.leaders, u, s.threads[u]);
    }
    assert Here(s') == Here(s);
    assert forall u :: Closing(s', u) <==> Closing(s, u);
    assert forall u :: Advancing(s', u) <==> Advancing(s, u);
    assert forall u :: !Sleeps(s', u);
  }

  lemma InvStep(s: State, e: Event)
    requires Inv(s) && Enabled(s, e)
    ensures Inv(Apply(s, e))
  {
    hide ThreadOk;
    var x := s.threads[e.t];
    if e.Wake? {
      WakeStep(s, e.t);
    } else if e.Step? && x.pc.Arrive? {
      ArriveStep(s, e.t);
    } else if e.Step? && x.pc == ResetWaiting {
      ResetStep(s, e.t);
    } else if e.Step? && x.pc == AdvancePhase {
      AdvanceStep(s, e.t);
    } else {
      var y := Apply(s, e).threads[e.t];
      assert Apply(s, e) == s.(threads := s.threads[e.t := y]);
      QuietStep(s, e.t, y);
    }
  }

  lemma {:induction false} InvRun(s: State, es: seq<Event>)
    requires Inv(s) && IsRun(s, es)
    ensures Inv(Final(s, es))
    decreases |es|
  {
    hide Inv, Apply;
    if es != [] {
      InvStep(s, es[0]);
      InvRun(Apply(s, es[0]), es[1..]);
    }
  }

  // ------------------------------------------------------------ what the barrier promises

  lemma InitInv(s: State)
    requires Init(s)
    ensures Inv(s)
  {
    assert Here(s) == {};
    assert |s.threads.Keys| == |s.threads|;
    assert s.threads.Keys != {};
    assert forall t :: !Closing(s, t);
  }

  /** No call returns from round k before every thread has arrived in round k. */
  lemma NobodyLeavesEarly(s: State, es: seq<Event>, t: Tid, u: Tid)
    requires Init(s) && IsRun(s, es) && t in Final(s, es).threads && u in Final(s, es).threads
    ensures |Final(s, es).threads[t].results| <= Final(s, es).threads[u].arrived
  {
    InitInv(s);
    InvRun(s, es);
    var f := Final(s, es);
    assert ThreadOk(f.rounds, f.leaders, t, f.threads[t]) && ThreadOk(f.rounds, f.leaders, u, f.threads[u]);
  }

  /** Of the calls of round k, the one of `leader` returned true and the others returned false. */
  ghost predicate OnlyLeader(f: State, k: nat, leader: Tid) {
    && leader in f.threads
    && (forall t :: t in f.threads ==> k < |f.threads[t].results| && (f.threads[t].results[k] <==> t == leader))
  }

  /** Exactly one of the threads of a round is told that it led it. */
  lemma OneLeaderPerRound(s: State, es: seq<Event>, k: nat)
    requires Init(s) && IsRun(s, es)
    requires forall t :: t in Final(s, es).threads ==> k < |Final(s, es).threads[t].results|
    ensures exists leader :: OnlyLeader(Final(s, es), k, leader)
  {
    hide ThreadOk;
    InitInv(s);
    InvRun(s, es);
    LeaderOfRound(Final(s, es), k);
  }

  lemma LeaderOfRound(f: State, k: nat)
    requires Inv(f) && forall t :: t in f.threads ==> k < |f.threads[t].results|
    ensures exists leader :: OnlyLeader(f, k, leader)
  {
    SomeThread(f);
    var u :| u in f.threads;
    assert ThreadOk(f.rounds, f.leaders, u, f.threads[u]);
    var leader := f.leaders[k];
    forall t | t in f.threads ensures f.threads[t].results[k] <==> t == leader {
      assert ThreadOk(f.rounds, f.leaders, t, f.threads[t]);
    }
    assert OnlyLeader(f, k, leader);
  }

  lemma SomeThread(s: State)
    requires Shape(s)
    ensures exists u :: u in s.threads
  {
    assert s.threads.Keys != {};
    var u :| u in s.threads.Keys;
  }

  /** Whatever the phase word has wrapped to, a thread asleep on the phase of a finished round will be
      woken by that round's leader. */
  lemma SleepersAreAwaited(s: State, es: seq<Event>, t: Tid)
    requires Init(s) && IsRun(s, es) && Sleeps(Final(s, es), t)
    ensures var f := Final(s, es); f.threads[t].pc.seen == Phase(f) || WakeIsPending(f)
  {
    InitInv(s);
    InvRun(s, es);
    var f := Final(s, es);
    assert ThreadOk(f.rounds, f.leaders, t, f.threads[t]);
  }

  /** The barrier never blocks everybody: not all threads are asleep at once. */
  lemma SomebodyIsAwake(s: State, es: seq<Event>)
    requires Init(s) && IsRun(s, es)
    ensures exists t :: t in Final(s, es).threads && !Sleeps(Final(s, es), t)
  {
    hide Inv, Apply, Init;
    InitInv(s);
    InvRun(s, es);
    AwakeOne(Final(s, es));
  }

  lemma AwakeOne(f: State)
    requires Inv(f)
    ensures exists t :: t in f.threads && !Sleeps(f, t)
  {
    hide ThreadOk;
    if WakeIsPending(f) {
      assert !Sleeps(f, f.leaders[f.rounds - 1]);
    } else if Here(f) == f.threads.Keys {
      var t :| Closing(f, t);
      assert !Sleeps(f, t);
    } else {
      assert Here(f) <= f.threads.Keys;
      var t :| t in f.threads.Keys && t !in Here(f);
      if Sleeps(f, t) { SleeperIsHereOrLate(f.rounds, f.leaders, t, f.threads[t]); }
      assert !Sleeps(f, t);
    }
  }

  lemma SleeperIsHereOrLate(r: nat, leaders: seq<Tid>, t: Tid, x: Thread)
    requires ThreadOk(r, leaders, t, x) && x.pc.Asleep?
    ensures x.arrived == r + 1 || x.arrived == r
  {}

  // ------------------------------------------------------------ every round can be completed

  lemma {:induction false} Concat(s: State, a: seq<Event>, b: seq<Event>)
    requires IsRun(s, a) && IsRun(Final(s, a), b)
    ensures IsRun(s, a + b) && Final(s, a + b) == Final(Final(s, a), b)
    decreases |a|
  {
    if a == [] {
      assert a + b == b;
    } else {
      assert (a + b)[1..] == a[1..] + b;
      Concat(Apply(s, a[0]), a[1..], b);
    }
  }

  lemma Once(s: State, e: Event)
    requires Enabled(s, e)
    ensures IsRun(s, [e]) && Final(s, [e]) == Apply(s, e)
  {
    assert [e][1..] == [];
  }

  /** Nobody's sleep ends without a wake. */
  ghost predicate Fair(es: seq<Event>) { forall k :: 0 <= k < |es| ==> !es[k].Disturb? }

  /** es leads from s to f, without a disturbed sleep. */
  ghost predicate Leads(s: State, es: seq<Event>, f: State) { IsRun(s, es) && Fair(es) && Final(s, es) == f && Inv(f) }

  lemma Then(s: State, a: seq<Event>, m: State, b: seq<Event>, f: State)
    requires Leads(s, a, m) && Leads(m, b, f)
    ensures Leads(s, a + b, f)
  {
    hide Inv, Apply;
    Concat(s, a, b);
  }

  lemma Go(s: State, e: Event)
    requires Inv(s) && Enabled(s, e) && !e.Disturb?
    ensures Leads(s, [e], Apply(s, e))
  {
    InvStep(s, e);
    Once(s, e);
  }

  lemma Stay(s: State)
    requires Inv(s)
    ensures Leads(s, [], s)
  {}

  /** Only t has moved, within the same round. */
  predicate OnlyMoved(s: State, s': State, t: Tid) {
    && s'.rounds == s.rounds && s'.threads.Keys == s.threads.Keys && t in s.threads
    && forall u :: u in s.threads && u != t ==> s'.threads[u] == s.threads[u]
  }

  /** The thread's call belongs to the round before. */
  predicate Late(r: nat, x: Thread) { |x.results| < r }

  lemma PhaseMoved(r: nat)
    requires 0 < r
    ensures (r - 1) % U32 != r % U32
  {}

  lemma LateAt(r: nat, leaders: seq<Tid>, t: Tid, x: Thread)
    requires ThreadOk(r, leaders, t, x) && Late(r, x)
    ensures x.pc == WakeAll || ((x.pc.FutexWait? || x.pc.Asleep? || x.pc.Recheck?) && x.pc.seen != r % U32)
    ensures 0 < r == |leaders| && |x.results| == r - 1 && x.arrived == r && (x.pc == WakeAll <==> leaders[r - 1] == t)
  {
    if 0 < r { PhaseMoved(r); }
  }

  /** The next event of a thread, if it is neither asleep nor the leader's wake. */
  function Own(t: Tid, x: Thread): Event { if x.pc == Outside then Begin(t) else Step(t) }

  /** A move of one thread that touches no shared word. */
  lemma MovesAlone(s: State, t: Tid) returns (f: State)
    requires Inv(s) && t in s.threads
    requires s.threads[t].pc in {Outside, LoadPhase} || s.threads[t].pc.FutexWait? || s.threads[t].pc.Recheck?
    ensures Leads(s, [Own(t, s.threads[t])], f) && Inv(f) && OnlyMoved(s, f, t)
    ensures Quiet(s.rounds, s.threads[t], f.threads[t]) && ThreadOk(f.rounds, f.leaders, t, f.threads[t])
  {
    var e := Own(t, s.threads[t]);
    f := Apply(s, e);
    MoveIsQuiet(s, t);
    hide Inv, Leads, Apply, Quiet;
    Go(s, e);
    LeadsInv(s, [e], f);
    OkOf(f, t);
  }

  lemma MoveIsQuiet(s: State, t: Tid)
    requires t in s.threads
    requires s.threads[t].pc in {Outside, LoadPhase} || s.threads[t].pc.FutexWait? || s.threads[t].pc.Recheck?
    ensures var e := Own(t, s.threads[t]); Enabled(s, e) && OnlyMoved(s, Apply(s, e), t) && Quiet(s.rounds, s.threads[t], Apply(s, e).threads[t])
  {}

  lemma OkOf(s: State, t: Tid)
    requires Inv(s) && t in s.threads
    ensures ThreadOk(s.rounds, s.leaders, t, s.threads[t])
  {
    hide ThreadOk;
  }

  /** The phase has moved on from the one that the waiting thread has seen. */
  predicate SeesChange(r: nat, x: Thread) { (x.pc.FutexWait? || x.pc.Recheck?) && x.pc.seen != r % U32 }

  lemma LateSees(s: State, t: Tid)
    requires Inv(s) && t in s.threads && Late(s.rounds, s.threads[t]) && !s.threads[t].pc.Asleep? && s.threads[t].pc != WakeAll
    ensures SeesChange(s.rounds, s.threads[t])
  {
    OkOf(s, t);
    LateAt(s.rounds, s.leaders, t, s.threads[t]);
  }

  lemma QuietWhenOver(r: nat, x: Thread, y: Thread)
    requires Quiet(r, x, y) && SeesChange(r, x)
    ensures x.pc.FutexWait? ==> y == x.(pc := Recheck(x.pc.seen)) && SeesChange(r, y)
    ensures x.pc.Recheck? ==> y == x.(pc := Outside, results := x.results + [false])
  {}

  lemma StepsWhenOver(s: State, t: Tid) returns (f: State)
    requires Inv(s) && t in s.threads && SeesChange(s.rounds, s.threads[t])
    ensures Leads(s, [Step(t)], f) && Inv(f) && OnlyMoved(s, f, t)
    ensures var x, y := s.threads[t], f.threads[t];
            && (x.pc.FutexWait? ==> y == x.(pc := Recheck(x.pc.seen)) && SeesChange(f.rounds, y))
            && (x.pc.Recheck? ==> y == x.(pc := Outside, results := x.results + [false]))
  {
    hide Inv, Leads, ThreadOk, Quiet;
    f := MovesAlone(s, t);
    QuietWhenOver(s.rounds, s.threads[t], f.threads[t]);
  }

  /** A thread that is awake leaves a round that is over by at most two steps of its own, and is told false. */
  lemma LeavesAlone(s: State, t: Tid) returns (es: seq<Event>, f: State)
    requires Inv(s) && t in s.threads && Late(s.rounds, s.threads[t]) && !s.threads[t].pc.Asleep? && s.threads[t].pc != WakeAll
    ensures Leads(s, es, f) && Inv(f) && (es == [Step(t)] || es == [Step(t), Step(t)]) && OnlyMoved(s, f, t)
    ensures f.threads[t].pc == Outside && f.threads[t].results == s.threads[t].results + [false]
  {
    LateSees(s, t);
    var waits := s.threads[t].pc.FutexWait?;
    assert !waits ==> s.threads[t].pc.Recheck?;
    hide Inv, Leads, SeesChange;
    f := StepsWhenOver(s, t);
    es := [Step(t)];
    if waits {
      var m := f;
      f := StepsWhenOver(m, t);
      Then(s, [Step(t)], m, [Step(t)], f);
      es := [Step(t), Step(t)];
      assert es == [Step(t)] + [Step(t)];
    }
  }

  /** The wake of a round's leader tells it true and leaves nobody asleep. */
  lemma LeaderLeaves(s: State) returns (f: State)
    requires Inv(s) && WakeIsPending(s)
    ensures var t := s.leaders[s.rounds - 1];
            && Leads(s, [Wake(t)], f) && Inv(f) && f.rounds == s.rounds && f.threads.Keys == s.threads.Keys
            && f.threads[t].pc == Outside && f.threads[t].results == s.threads[t].results + [true]
            && (forall u :: u in s.threads && u != t ==> f.threads[u] == Awaken(s.threads[u]))
  {
    var t := s.leaders[s.rounds - 1];
    f := Apply(s, Wake(t));
    Go(s, Wake(t));
  }

  ghost predicate NoneAsleepLate(s: State) {
    forall t :: t in s.threads && Late(s.rounds, s.threads[t]) ==> !s.threads[t].pc.Asleep? && s.threads[t].pc != WakeAll
  }

  /** The calls of threads outside ts are of the round being collected. */
  ghost predicate LateWithin(s: State, ts: set<Tid>) { forall t :: t in s.threads && Late(s.rounds, s.threads[t]) ==> t in ts }

  /** Those who are in the round that is being collected stay as they are. */
  ghost predicate KeepsHere(s: State, f: State) {
    && f.rounds == s.rounds && f.threads.Keys == s.threads.Keys
    && forall t :: t in s.threads ==> |s.threads[t].results| <= |f.threads[t].results|
  }

  lemma {:induction false} EachLeaves(s: State, ts: set<Tid>) returns (es: seq<Event>, f: State)
    requires Inv(s) && NoneAsleepLate(s) && LateWithin(s, ts)
    ensures Leads(s, es, f) && Inv(f) && KeepsHere(s, f) && LateWithin(f, {})
    decreases |ts|
  {
    hide Inv, Leads;
    if ts == {} {
      es, f := [], s;
      Stay(s);
    } else {
      var t :| t in ts;
      if t in s.threads && Late(s.rounds, s.threads[t]) {
        var a, m := LeavesAlone(s, t);
        FewerLate(s, m, t, ts);
        var b;
        b, f := EachLeaves(m, ts - {t});
        es := a + b;
        Then(s, a, m, b, f);
      } else {
        es, f := EachLeaves(s, ts - {t});
      }
    }
  }

  lemma FewerLate(s: State, m: State, t: Tid, ts: set<Tid>)
    requires Inv(s) && NoneAsleepLate(s) && LateWithin(s, ts) && OnlyMoved(s, m, t) && Late(s.rounds, s.threads[t])
    requires |m.threads[t].results| == |s.threads[t].results| + 1
    ensures NoneAsleepLate(m) && LateWithin(m, ts - {t})
  {
    assert ThreadOk(s.rounds, s.leaders, t, s.threads[t]);
    LateAt(s.rounds, s.leaders, t, s.threads[t]);
    hide Inv;
  }

  /** Everybody leaves the round that is over. */
  lemma AllLeave(s: State) returns (es: seq<Event>, f: State)
    requires Inv(s)
    ensures Leads(s, es, f) && Inv(f) && KeepsHere(s, f) && LateWithin(f, {})
  {
    if WakeIsPending(s) {
      var m := LeaderLeaves(s);
      var t := s.leaders[s.rounds - 1];
      forall u | u in m.threads && Late(m.rounds, m.threads[u]) ensures !m.threads[u].pc.Asleep? && m.threads[u].pc != WakeAll {
        assert ThreadOk(m.rounds, m.leaders, u, m.threads[u]);
        LateAt(m.rounds, m.leaders, u, m.threads[u]);
      }
      var b;
      hide Inv, Leads;
      b, f := EachLeaves(m, m.threads.Keys);
      es := [Wake(t)] + b;
      Then(s, [Wake(t)], m, b, f);
    } else {
      forall u | u in s.threads && Late(s.rounds, s.threads[u]) ensures !s.threads[u].pc.Asleep? && s.threads[u].pc != WakeAll {
        assert ThreadOk(s.rounds, s.leaders, u, s.threads[u]);
        LateAt(s.rounds, s.leaders, u, s.threads[u]);
        assert !Sleeps(s, u);
      }
      es, f := EachLeaves(s, s.threads.Keys);
    }
  }

  /** A thread that has not arrived yet does so by at most three events of its own. */
  lemma ArrivesAlone(s: State, t: Tid) returns (es: seq<Event>, f: State)
    requires Inv(s) && t in s.threads && t !in Here(s) && !Late(s.rounds, s.threads[t])
    ensures Leads(s, es, f) && Inv(f) && |es| <= 3 && OnlyMoved(s, f, t)
    ensures f.threads[t].arrived == s.rounds + 1 && |f.threads[t].results| == s.rounds
    decreases if s.threads[t].pc == Outside then 2 else if s.threads[t].pc == LoadPhase then 1 else 0
    ensures s.threads[t].pc != Outside ==> |es| <= 2
    ensures s.threads[t].pc.Arrive? ==> |es| <= 1
  {
    assert ThreadOk(s.rounds, s.leaders, t, s.threads[t]);
    hide Inv, Leads;
    if s.threads[t].pc.Arrive? {
      es, f := [Step(t)], Apply(s, Step(t));
      Go(s, Step(t));
      LeadsInv(s, es, f);
    } else {
      var m := MovesAlone(s, t);
      var e := Own(t, s.threads[t]);
      hide ThreadOk;
      var b;
      b, f := ArrivesAlone(m, t);
      es := [e] + b;
      Then(s, [e], m, b, f);
    }
  }

  lemma LeadsInv(s: State, es: seq<Event>, f: State)
    requires Leads(s, es, f)
    ensures Inv(f)
  {}

  lemma {:induction false} EachArrives(s: State, ts: set<Tid>) returns (es: seq<Event>, f: State)
    requires Inv(s) && LateWithin(s, {}) && (forall t :: t in s.threads && t !in Here(s) ==> t in ts)
    ensures Leads(s, es, f) && Inv(f) && f.rounds == s.rounds && f.threads.Keys == s.threads.Keys && Here(f) == f.threads.Keys
    ensures LateWithin(f, {})
    decreases |ts|
  {
    hide Inv, Leads;
    if ts == {} {
      es, f := [], s;
      Stay(s);
    } else {
      var t :| t in ts;
      if t in s.threads && t !in Here(s) {
        var a, m := ArrivesAlone(s, t);
        var b;
        b, f := EachArrives(m, ts - {t});
        es := a + b;
        Then(s, a, m, b, f);
      } else {
        es, f := EachArrives(s, ts - {t});
      }
    }
  }

  /** The last one to arrive closes the round. */
  lemma Closes(s: State) returns (es: seq<Event>, f: State)
    requires Inv(s) && Here(s) == s.threads.Keys
    ensures Leads(s, es, f) && Inv(f) && f.rounds == s.rounds + 1 && f.threads.Keys == s.threads.Keys
  {
    var t :| Closing(s, t);
    hide Inv, Here, Leads, Apply;
    if s.threads[t].pc == AdvancePhase {
      f := Advances(s, t);
      es := [Step(t)];
    } else {
      var m := Apply(s, Step(t));
      ResetMove(s, t);
      Go(s, Step(t));
      LeadsInv(s, [Step(t)], m);
      f := Advances(m, t);
      es := [Step(t)] + [Step(t)];
      Then(s, [Step(t)], m, [Step(t)], f);
    }
  }

  lemma ResetMove(s: State, t: Tid)
    requires t in s.threads && s.threads[t].pc == ResetWaiting
    ensures Enabled(s, Step(t)) && OnlyMoved(s, Apply(s, Step(t)), t) && Apply(s, Step(t)).threads[t].pc == AdvancePhase
  {}

  lemma Advances(s: State, t: Tid) returns (f: State)
    requires Inv(s) && t in s.threads && s.threads[t].pc == AdvancePhase
    ensures Leads(s, [Step(t)], f) && Inv(f) && f.rounds == s.rounds + 1 && f.threads.Keys == s.threads.Keys
  {
    f := Apply(s, Step(t));
    assert f.rounds == s.rounds + 1 && f.threads.Keys == s.threads.Keys;
    hide Inv, Leads, Apply;
    Go(s, Step(t));
    LeadsInv(s, [Step(t)], f);
  }

  /** Whatever has happened, the round that is being collected can be completed: there is a way on, without any
      disturbed sleep, on which every thread's call in it returns. */
  lemma RoundCompletes(s: State, es: seq<Event>) returns (on: seq<Event>)
    requires Init(s) && IsRun(s, es)
    ensures IsRun(Final(s, es), on) && Fair(on)
    ensures var m, f := Final(s, es), Final(Final(s, es), on);
            f.rounds == m.rounds + 1 && f.threads.Keys == m.threads.Keys && forall t :: t in f.threads ==> |f.threads[t].results| == m.rounds + 1
  {
    InitInv(s);
    InvRun(s, es);
    hide Inv, Here, LateWithin;
    var s0 := Final(s, es);
    var a, s1 := AllLeave(s0);
    var b, s2 := EachArrives(s1, s1.threads.Keys);
    var c, s3 := Closes(s2);
    var d, s4 := AllLeave(s3);
    Then(s0, a, s1, b, s2);
    Then(s0, a + b, s2, c, s3);
    Then(s0, a + b + c, s3, d, s4);
    on := a + b + c + d;
    AllOut(s4);
  }

  lemma AllOut(s: State)
    requires Inv(s) && LateWithin(s, {})
    ensures forall t :: t in s.threads ==> |s.threads[t].results| == s.rounds
  {
    forall t | t in s.threads ensures |s.threads[t].results| == s.rounds {
      assert ThreadOk(s.rounds, s.leaders, t, s.threads[t]);
    }
  }
}

/** The three-state futex mutex of the synchronisation layer, as a transition system.

    Any finite set of threads runs `lock`, `lock_timeout`, `try_lock` and `unlock` with
    arbitrary interleaving.  One event is one atomic operation on the futex word or one
    kernel action (a wake, a spurious wake, a timeout).  Atomics are sequentially consistent. */
module Mutex {
  import opened Common

  type Tid = nat

  /** The entry points that try to acquire. */
  datatype Op = Lock | LockTimeout | TryLock

  const SPINS: nat := 40

  /** Where a thread stands: the atomic operation it performs next. */
  datatype Pc =
    | Idle
    | LockFast                  // compare_exchange(0, 1) of lock
    | SpinLoad(i: nat)          // load of spin iteration i
    | SpinCas(i: nat)           // compare_exchange_weak(0, 2) of spin iteration i
    | LockSwap                  // swap(2) of the futex phase
    | LockWait                  // futex_wait(word, 2)
    | LockAsleep
    | TimedFast                 // compare_exchange(0, 1) of lock_timeout
    | TimedSwap                 // swap(2) of the timed loop
    | TimedCheck                // reads the clock
    | TimedWait                 // futex_wait_timeout(word, 2)
    | TimedAsleep
    | TimedLast                 // swap(2) after the deadline
    | TryFast                   // compare_exchange(0, 1) of try_lock
    | Held                      // owns the lock; next is swap(0) of unlock
    | WakeDue                   // unlocked a contended word; next is futex_wake(1)

  datatype State = State(word: nat, pc: map<Tid, Pc>)

  datatype Event =
    | Begin(t: Tid, op: Op)
    | Run(t: Tid, luck: bool)            // luck: a weak CAS does not fail spuriously, the deadline has not passed
    | Wake(t: Tid, woken: Option<Tid>)   // futex_wake(1) issued by t, waking one sleeper if there is one
    | Disturb(u: Tid, timedOut: bool)    // the kernel ends a sleep on its own

  predicate Sleeping(pc: Pc) { pc == LockAsleep || pc == TimedAsleep }

  /** The next operation of the thread is an unconditional swap(2). */
  predicate Swapping(pc: Pc) { pc == LockSwap || pc == TimedSwap || pc == TimedLast }

  ghost predicate Holds(s: State, t: Tid) { t in s.pc && s.pc[t] == Held }
  ghost predicate Sleeps(s: State, t: Tid) { t in s.pc && Sleeping(s.pc[t]) }
  ghost predicate OwesWake(s: State, t: Tid) { t in s.pc && s.pc[t] == WakeDue }
  ghost predicate WillSwap(s: State, t: Tid) { t in s.pc && Swapping(s.pc[t]) }

  function EntryPc(op: Op): Pc {
    match op
    case Lock => LockFast
    case LockTimeout => TimedFast
    case TryLock => TryFast
  }

  function AfterSpin(i: nat): Pc { if i + 1 < SPINS then SpinLoad(i + 1) else LockSwap }

  /** The effect of one atomic operation on the word and on the thread that performs it. */
  function Exec(word: nat, pc: Pc, luck: bool): (nat, Pc)
    requires pc != Idle && pc != WakeDue && !Sleeping(pc)
  {
    match pc
    case LockFast => if word == 0 then (1, Held) else (word, SpinLoad(0))
    case SpinLoad(i) => (word, if word == 0 then SpinCas(i) else AfterSpin(i))
    case SpinCas(i) => if word == 0 && luck then (2, Held) else (word, AfterSpin(i))
    case LockSwap => (2, if word == 0 then Held else LockWait)
    case LockWait => (word, if word == 2 then LockAsleep else LockSwap)
    case TimedFast => if word == 0 then (1, Held) else (word, TimedSwap)
    case TimedSwap => (2, if word == 0 then Held else TimedCheck)
    case TimedCheck => (word, if luck then TimedWait else TimedLast)
    case TimedWait => (word, if word == 2 then TimedAsleep else TimedSwap)
    case TimedLast => (2, if word == 0 then Held else Idle)
    case TryFast => if word == 0 then (1, Held) else (word, Idle)
    case Held => (0, if word == 2 then WakeDue else Idle)
  }

  /** Where a sleeper continues. */
  function Awakened(pc: Pc, timedOut: bool): Pc
    requires Sleeping(pc)
  {
    if pc == LockAsleep then LockSwap else if timedOut then TimedLast else TimedSwap
  }

  ghost predicate Enabled(s: State, e: Event) {
    match e
    case Begin(t, _) => t in s.pc && s.pc[t] == Idle
    case Run(t, _) => t in s.pc && s.pc[t] != Idle && s.pc[t] != WakeDue && !Sleeping(s.pc[t])
    case Wake(t, None) => OwesWake(s, t) && forall u :: !Sleeps(s, u)
    case Wake(t, Some(u)) => OwesWake(s, t) && Sleeps(s, u)
    case Disturb(u, _) => Sleeps(s, u)
  }

  ghost function Apply(s: State, e: Event): State
    requires Enabled(s, e)
  {
    match e
    case Begin(t, op) => s.(pc := s.pc[t := EntryPc(op)])
    case Run(t, luck) => var (w, p) := Exec(s.word, s.pc[t], luck); State(w, s.pc[t := p])
    case Wake(t, None) => s.(pc := s.pc[t := Idle])
    case Wake(t, Some(u)) => s.(pc := s.pc[t := Idle][u := Awakened(s.pc[u], false)])
    case Disturb(u, timedOut) => s.(pc := s.pc[u := Awakened(s.pc[u], timedOut)])
  }

  ghost predicate IsRun(s: State, es: seq<Event>)
    decreases |es|
  {
    es == [] || (Enabled(s, es[0]) && IsRun(Apply(s, es[0]), es[1..]))
  }

  ghost function Final(s: State, es: seq<Event>): State
    requires IsRun(s, es)
    decreases |es|
  {
    if es == [] then s else Final(Apply(s, es[0]), es[1..])
  }

  /** A fresh mutex: the word is 0 and nobody is inside a call. */
  ghost predicate Init(s: State) {
    s.word == 0 && forall t :: t in s.pc ==> s.pc[t] == Idle
  }

  // ------------------------------------------------------------------ safety

  /** The word is nonzero exactly when one thread owns the lock, and never two do. */
  ghost predicate Exclusive(s: State) {
    && s.word <= 2
    && (s.word != 0 <==> exists t :: Holds(s, t))
    && (forall t, u :: Holds(s, t) && Holds(s, u) ==> t == u)
  }

  /** While somebody sleeps, the word announces it, or a wake is on its way, or a thread
      that is awake is about to announce it. */
  ghost predicate NoLostWakeup(s: State) {
    (exists u :: Sleeps(s, u)) ==>
      s.word == 2 || (exists t :: OwesWake(s, t)) || (exists t :: WillSwap(s, t))
  }

  ghost predicate Inv(s: State) { Exclusive(s) && NoLostWakeup(s) }

  lemma ExclusiveStep(s: State, e: Event)
    requires Inv(s) && Enabled(s, e)
    ensures Exclusive(Apply(s, e))
  {
    var s' := Apply(s, e);
    forall t | Holds(s', t) && !(e.Run? && e.t == t)
      ensures Holds(s, t)
    {}
    forall t | Holds(s, t) && !(e.Run? && e.t == t)
      ensures Holds(s', t)
    {}
    if e.Run? && s.pc[e.t] != Held && s'.pc[e.t] == Held {
      assert s.word == 0;
      assert Holds(s', e.t);
    }
    if e.Run? && s.pc[e.t] == Held {
      assert Holds(s, e.t);
    }
  }

  lemma NoLostWakeupStep(s: State, e: Event)
    requires Inv(s) && Enabled(s, e)
    ensures NoLostWakeup(Apply(s, e))
  {
    var s' := Apply(s, e);
    match e
    case Begin(t, op) =>
      KeepWitnesses(s, s', t);
    case Run(t, luck) =>
      if s.pc[t] == Held {
        if s.word == 2 { assert OwesWake(s', t); }
        KeepWitnesses(s, s', t);
      } else if Swapping(s.pc[t]) {
        assert s'.word == 2;
      } else {
        if s.word == 2 { assert s'.word == 2; }
        KeepWitnesses(s, s', t);
      }
    case Wake(t, None) =>
      assert forall u :: Sleeps(s', u) ==> Sleeps(s, u);
    case Wake(t, Some(u)) =>
      assert WillSwap(s', u);
    case Disturb(u, _) =>
      assert WillSwap(s', u);
  }

  /** A step of `t` alone leaves every other thread's role as it was. */
  lemma KeepWitnesses(s: State, s': State, t: Tid)
    requires t in s.pc && s'.pc.Keys == s.pc.Keys
    requires forall u :: u in s.pc && u != t ==> s'.pc[u] == s.pc[u]
    ensures forall u :: u != t ==> (Sleeps(s, u) <==> Sleeps(s', u))
    ensures forall u :: u != t ==> (OwesWake(s, u) <==> OwesWake(s', u))
    ensures forall u :: u != t ==> (WillSwap(s, u) <==> WillSwap(s', u))
  {}

  lemma InvStep(s: State, e: Event)
    requires Inv(s) && Enabled(s, e)
    ensures Inv(Apply(s, e))
  {
    ExclusiveStep(s, e);
    NoLostWakeupStep(s, e);
  }

  /** Both invariants hold after every run, whatever the interleaving. */
  lemma {:induction false} InvRun(s: State, es: seq<Event>)
    requires Inv(s) && IsRun(s, es)
    ensures Inv(Final(s, es))
    decreases |es|
  {
    if es != [] {
      InvStep(s, es[0]);
      InvRun(Apply(s, es[0]), es[1..]);
    }
  }

  lemma Safety(s: State, es: seq<Event>)
    requires Init(s) && IsRun(s, es)
    ensures Exclusive(Final(s, es)) && NoLostWakeup(Final(s, es))
  {
    assert Inv(s);
    InvRun(s, es);
  }

  // ---------------------------------------------------------------- progress

  ghost predicate AllIdle(s: State) { forall t :: t in s.pc ==> s.pc[t] == Idle }

  ghost function Busy(s: State): set<Tid> { set t | t in s.pc && s.pc[t] != Idle }

  /** No new call begins, and the kernel wakes nobody except in answer to a futex_wake. */
  ghost predicate Unaided(es: seq<Event>) {
    forall i :: 0 <= i < |es| ==> es[i].Run? || es[i].Wake?
  }

  lemma {:induction false} RunConcat(s: State, a: seq<Event>, b: seq<Event>)
    requires IsRun(s, a) && IsRun(Final(s, a), b)
    ensures IsRun(s, a + b) && Final(s, a + b) == Final(Final(s, a), b)
    decreases |a|
  {
    if a == [] {
      assert a + b == b;
    } else {
      assert (a + b)[0] == a[0] && (a + b)[1..] == a[1..] + b;
      RunConcat(Apply(s, a[0]), a[1..], b);
    }
  }

  /** The last step of a longer run. */
  lemma RunSnoc(s: State, a: seq<Event>, e: Event)
    requires IsRun(s, a) && Enabled(Final(s, a), e)
    ensures IsRun(s, a + [e]) && Final(s, a + [e]) == Apply(Final(s, a), e)
  {
    var m := Final(s, a);
    assert [e][1..] == [];
    assert IsRun(m, [e]) && Final(m, [e]) == Apply(m, e);
    RunConcat(s, a, [e]);
  }

  /** Steps left before `pc` owns a lock that nobody else wants. */
  function Distance(pc: Pc): nat {
    match pc
    case LockFast => 1
    case SpinLoad(_) => 2
    case SpinCas(_) => 1
    case LockSwap => 1
    case LockWait => 2
    case TimedFast => 1
    case TimedSwap => 1
    case TimedCheck => 2
    case TimedWait => 2
    case TimedLast => 1
    case TryFast => 1
    case _ => 0
  }

  /** On a free lock, a thread inside an acquiring call gets the lock by its own steps. */
  lemma {:induction false} Acquire(s: State, t: Tid) returns (es: seq<Event>)
    requires Inv(s) && s.word == 0
    requires t in s.pc && s.pc[t] != Idle && s.pc[t] != WakeDue && !Sleeping(s.pc[t])
    ensures IsRun(s, es) && Unaided(es)
    ensures Inv(Final(s, es)) && Holds(Final(s, es), t)
    ensures Busy(Final(s, es)) == Busy(s)
    decreases Distance(s.pc[t])
  {
    assert !Holds(s, t);
    var e := Run(t, s.pc[t] != TimedCheck);
    var s' := Apply(s, e);
    InvStep(s, e);
    assert Busy(s') == Busy(s);
    if s'.pc[t] == Held {
      assert [e][1..] == [];
      es := [e];
    } else {
      var rest := Acquire(s', t);
      assert ([e] + rest)[1..] == rest;
      es := [e] + rest;
    }
  }

  lemma ReleaseStep(s: State, t: Tid)
    requires Inv(s) && Holds(s, t)
    ensures Enabled(s, Run(t, true))
    ensures var m := Apply(s, Run(t, true)); if OwesWake(m, t) then Busy(m) == Busy(s) else Busy(m) == Busy(s) - {t}
  {}

  lemma WakeStep(s: State, t: Tid) returns (w: Event)
    requires Inv(s) && OwesWake(s, t)
    ensures Enabled(s, w) && w.Wake? && Busy(Apply(s, w)) == Busy(s) - {t}
  {
    w := Wake(t, None);
    if u :| Sleeps(s, u) {
      w := Wake(t, Some(u));
    }
  }

  /** An owner finishes unlock, including the wake it may owe. */
  lemma Release(s: State, t: Tid) returns (es: seq<Event>)
    requires Inv(s) && (Holds(s, t) || OwesWake(s, t))
    ensures IsRun(s, es) && Unaided(es)
    ensures Inv(Final(s, es)) && Busy(Final(s, es)) == Busy(s) - {t}
  {
    hide Inv, Apply, Enabled, Busy;
    es := [];
    if Holds(s, t) {
      var e := Run(t, true);
      ReleaseStep(s, t);
      InvStep(s, e);
      RunSnoc(s, [], e);
      es := [] + [e];
    }
    var m := Final(s, es);
    if OwesWake(m, t) {
      var w := WakeStep(m, t);
      InvStep(m, w);
      RunSnoc(s, es, w);
      es := es + [w];
    }
  }

  /** From every state the invariants allow, the threads that are inside a call can all
      return, without a spurious wake and without a timeout. */
  lemma {:induction false} Drain(s: State) returns (es: seq<Event>)
    requires Inv(s)
    ensures IsRun(s, es) && Unaided(es) && AllIdle(Final(s, es))
    decreases Busy(s)
  {
    if Busy(s) == {} {
      assert forall t :: t in s.pc && s.pc[t] != Idle ==> t in Busy(s);
      es := [];
      return;
    }
    var t, first := FinishOne(s);
    var m := Final(s, first);
    var rest := Drain(m);
    RunConcat(s, first, rest);
    es := first + rest;
  }

  lemma FinishOne(s: State) returns (t: Tid, es: seq<Event>)
    requires Inv(s) && Busy(s) != {}
    ensures IsRun(s, es) && Unaided(es)
    ensures t in Busy(s) && Inv(Final(s, es)) && Busy(Final(s, es)) == Busy(s) - {t}
  {
    if u :| Holds(s, u) {
      t := u;
      es := Release(s, u);
    } else if u :| OwesWake(s, u) {
      t := u;
      es := Release(s, u);
    } else {
      t := SomebodyAwake(s);
      assert !OwesWake(s, t);
      var first := Acquire(s, t);
      var rest := Release(Final(s, first), t);
      RunConcat(s, first, rest);
      es := first + rest;
    }
  }

  /** With the lock free and no wake on its way, not everybody who is inside a call sleeps. */
  lemma SomebodyAwake(s: State) returns (t: Tid)
    requires Inv(s) && Busy(s) != {} && s.word == 0 && forall u :: !OwesWake(s, u)
    ensures t in Busy(s) && !Sleeping(s.pc[t])
  {
    var u :| u in Busy(s);
    if Sleeping(s.pc[u]) {
      assert Sleeps(s, u);
      var v :| WillSwap(s, v);
      t := v;
    } else {
      t := u;
    }
  }

  /** No run strands a thread: whatever happened so far, every call can still return. */
  lemma NobodyIsStranded(s: State, past: seq<Event>)
    requires Init(s) && IsRun(s, past)
    ensures exists es ::
              IsRun(Final(s, past), es) && Unaided(es) && AllIdle(Final(Final(s, past), es))
  {
    InvRun(s, past);
    var es := Drain(Final(s, past));
  }

  // ---------------------------------------------------------------- answers

  /** Inside a call that acquires. */
  predicate InCall(pc: Pc) { pc != Idle && pc != Held && pc != WakeDue }

  predicate InTimed(pc: Pc) {
    pc == TimedFast || pc == TimedSwap || pc == TimedCheck || pc == TimedWait || pc == TimedAsleep || pc == TimedLast
  }

  predicate FastPath(pc: Pc) { pc == LockFast || pc == TimedFast || pc == TryFast }

  /** A call that acquires ends with an operation of its own.  It ends with the lock exactly if that operation
      found the word 0, and it leaves 1 in the word on the fast path and 2, the mark of a waiter, after it;
      without the lock the blocking form never ends, and the word is 2 or untouched. */
  lemma AnswerIff(s: State, e: Event, t: Tid)
    requires Enabled(s, e) && t in s.pc && InCall(s.pc[t]) && !InCall(Apply(s, e).pc[t])
    ensures e.Run? && e.t == t && (Apply(s, e).pc[t] == Held || Apply(s, e).pc[t] == Idle)
    ensures Holds(Apply(s, e), t) <==> s.word == 0
    ensures s.word == 0 ==> Apply(s, e).word == if FastPath(s.pc[t]) then 1 else 2
    ensures s.word != 0 ==> InTimed(s.pc[t]) || (s.pc[t] == TryFast && Apply(s, e).word == s.word)
  {}

  /** The call goes on by the thread's own operations, its deadline being past: it finds the clock late, and a
      sleep of it ends with a timeout. */
  function LateStep(s: State, t: Tid): Event
    requires t in s.pc
  {
    if Sleeping(s.pc[t]) then Disturb(t, true) else Run(t, false)
  }

  /** A run of such operations that stops at the latest when the call ends. */
  ghost predicate LateRun(s: State, es: seq<Event>, t: Tid)
    requires t in s.pc
    decreases |es|
  {
    es == [] || (InCall(s.pc[t]) && Enabled(s, es[0]) && es[0] == LateStep(s, t) && t in Apply(s, es[0]).pc && LateRun(Apply(s, es[0]), es[1..], t))
  }

  /** How many operations a call with a past deadline has left, the word being free or not. */
  function Patience(word: nat, pc: Pc): nat {
    match pc
    case TryFast => 1
    case TimedFast => if word == 0 then 1 else 4
    case TimedSwap => if word == 0 then 1 else 3
    case TimedCheck => 2
    case TimedWait => if word == 0 then 2 else if word == 2 then 3 else 4
    case TimedAsleep => 2
    case TimedLast => 1
    case _ => 0
  }

  predicate Impatient(pc: Pc) { pc == TryFast || InTimed(pc) }

  /** One more operation is possible, and the call has one less left. */
  lemma LateStepLeft(s: State, t: Tid)
    requires s.word <= 2 && t in s.pc && Impatient(s.pc[t])
    ensures Enabled(s, LateStep(s, t))
    ensures var s' := Apply(s, LateStep(s, t));
            && s'.word <= 2 && t in s'.pc && s'.pc == s.pc[t := s'.pc[t]]
            && Patience(s'.word, s'.pc[t]) == Patience(s.word, s.pc[t]) - 1
            && (Impatient(s'.pc[t]) ==> (s'.word == 0 <==> s.word == 0))
            && (!Impatient(s'.pc[t]) ==> s'.pc[t] == if s.word == 0 then Held else Idle)
            && (s.pc[t] == TryFast && s.word != 0 ==> s' == s.(pc := s.pc[t := Idle]))
  {}

  /** On a free word a blocking lock that is awake comes closer with each operation. */
  lemma FreeStepLeft(s: State, t: Tid)
    requires s.word == 0 && t in s.pc && InCall(s.pc[t]) && !Impatient(s.pc[t]) && !Sleeping(s.pc[t])
    ensures Enabled(s, Run(t, true))
    ensures var s' := Apply(s, Run(t, true));
            && t in s'.pc && s'.pc == s.pc[t := s'.pc[t]]
            && (s'.pc[t] == Held ||
                (s'.word == 0 && InCall(s'.pc[t]) && !Impatient(s'.pc[t]) && !Sleeping(s'.pc[t]) && Distance(s'.pc[t]) < Distance(s.pc[t])))
  {}

  /** A try_lock, or a lock_timeout whose deadline is past, is over after exactly that many operations of its
      own, at most four, whatever the holder of the lock does not do: on a free word it has the lock, else it is
      outside the call without it.  No other thread is touched. */
  lemma {:induction false} CallsAnswer(s: State, t: Tid) returns (es: seq<Event>)
    requires Inv(s) && t in s.pc && Impatient(s.pc[t])
    ensures LateRun(s, es, t) && IsRun(s, es) && |es| == Patience(s.word, s.pc[t]) <= 4
    ensures var f := Final(s, es); Inv(f) && t in f.pc && f.pc == s.pc[t := if s.word == 0 then Held else Idle]
    decreases Patience(s.word, s.pc[t])
  {
    LateStepLeft(s, t);
    var e := LateStep(s, t);
    var s' := Apply(s, e);
    InvStep(s, e);
    assert s'.word <= 2 && InCall(s.pc[t]);
    assert [e][1..] == [];
    hide Inv, Apply, Enabled, LateStep, Patience, InCall;
    if Impatient(s'.pc[t]) {
      var rest := CallsAnswer(s', t);
      es := [e] + rest;
      assert es[1..] == rest;
    } else {
      es := [e];
    }
  }

  /** And every run of the call by itself is a part of that one: it never takes longer. */
  lemma {:induction false} NeverLonger(s: State, es: seq<Event>, t: Tid)
    requires s.word <= 2 && t in s.pc && Impatient(s.pc[t]) && LateRun(s, es, t)
    ensures IsRun(s, es) && |es| <= Patience(s.word, s.pc[t])
    ensures |es| == Patience(s.word, s.pc[t]) ==> Final(s, es).pc == s.pc[t := if s.word == 0 then Held else Idle]
    decreases |es|
  {
    if es != [] {
      LateStepLeft(s, t);
      var s' := Apply(s, es[0]);
      if Impatient(s'.pc[t]) { NeverLonger(s', es[1..], t); } else { assert es[1..] == []; }
    } else {
      assert 0 < Patience(s.word, s.pc[t]);
    }
  }

  /** The whole calls, from outside: a try_lock that fails leaves no trace. */
  lemma TryLockAnswers(s: State, t: Tid, luck: bool)
    requires t in s.pc && s.pc[t] == Idle
    ensures IsRun(s, [Begin(t, TryLock), Run(t, luck)])
    ensures var f := Final(s, [Begin(t, TryLock), Run(t, luck)]);
            f == if s.word == 0 then State(1, s.pc[t := Held]) else s
  {
    var s1 := Apply(s, Begin(t, TryLock));
    assert s1.pc[t := Held] == s.pc[t := Held] && s1.pc[t := Idle] == s.pc;
    var s2 := Apply(s1, Run(t, luck));
    assert IsRun(s2, []) && Final(s2, []) == s2;
    RunSnoc(s, [], Begin(t, TryLock));
    RunSnoc(s, [Begin(t, TryLock)], Run(t, luck));
    assert [] + [Begin(t, TryLock)] == [Begin(t, TryLock)];
    assert [Begin(t, TryLock)] + [Run(t, luck)] == [Begin(t, TryLock), Run(t, luck)];
  }

  /** A lock_timeout with a deadline already past, from outside: at most four operations. */
  lemma LockTimeoutAnswers(s: State, t: Tid) returns (es: seq<Event>)
    requires Inv(s) && t in s.pc && s.pc[t] == Idle
    ensures IsRun(s, [Begin(t, LockTimeout)] + es) && |es| == if s.word == 0 then 1 else 4
    ensures forall i :: 0 <= i < |es| ==> es[i] == Run(t, false)
    ensures Final(s, [Begin(t, LockTimeout)] + es).pc == s.pc[t := if s.word == 0 then Held else Idle]
  {
    var b := Begin(t, LockTimeout);
    var s1 := Apply(s, b);
    InvStep(s, b);
    es := CallsAnswer(s1, t);
    AwakeThroughout(s1, es, t);
    assert ([b] + es)[1..] == es;
    assert s1.pc[t := Held] == s.pc[t := Held] && s1.pc[t := Idle] == s.pc[t := Idle];
  }

  /** Such a call does not go to sleep before it looks at the clock. */
  lemma {:induction false} AwakeThroughout(s: State, es: seq<Event>, t: Tid)
    requires t in s.pc && LateRun(s, es, t)
    requires s.pc[t] == TimedFast || s.pc[t] == TimedSwap || s.pc[t] == TimedCheck || s.pc[t] == TimedLast
    ensures forall i :: 0 <= i < |es| ==> es[i] == Run(t, false)
    decreases |es|
  {
    if es != [] {
      var s' := Apply(s, es[0]);
      if InCall(s'.pc[t]) { AwakeThroughout(s', es[1..], t); } else { assert es[1..] == []; }
      assert forall i :: 0 < i < |es| ==> es[i] == es[1..][i - 1];
    }
  }

  /** The operations left to a blocking lock against a lock that stays held: one attempt, forty looks, the mark
      of a waiter, and then it sleeps on the mark. */
  function Tries(pc: Pc): nat {
    match pc
    case LockFast => 43
    case SpinLoad(i) => if i < 40 then 42 - i else 0
    case LockSwap => 2
    case LockWait => 1
    case _ => 0
  }

  lemma {:induction false} LockFallsAsleep(s: State, t: Tid) returns (es: seq<Event>)
    requires s.word != 0 && t in s.pc && 0 < Tries(s.pc[t]) && (s.pc[t] == LockWait ==> s.word == 2)
    ensures IsRun(s, es) && |es| == Tries(s.pc[t]) && forall i :: 0 <= i < |es| ==> es[i] == Run(t, true)
    ensures Final(s, es) == State(2, s.pc[t := LockAsleep])
    decreases Tries(s.pc[t])
  {
    var e := Run(t, true);
    var s' := Apply(s, e);
    assert [e][1..] == [];
    if s.pc[t] == LockWait {
      es := [e];
    } else {
      var rest := LockFallsAsleep(s', t);
      es := [e] + rest;
      assert es[1..] == rest;
      assert s'.pc[t := LockAsleep] == s.pc[t := LockAsleep];
    }
  }

  lemma LockAnswers(s: State, t: Tid) returns (es: seq<Event>)
    requires t in s.pc && s.pc[t] == Idle && s.word <= 2
    ensures IsRun(s, [Begin(t, Lock)] + es) && |es| == if s.word == 0 then 1 else 43
    ensures forall i :: 0 <= i < |es| ==> es[i] == Run(t, true)
    ensures Final(s, [Begin(t, Lock)] + es) ==
            if s.word == 0 then State(1, s.pc[t := Held]) else State(2, s.pc[t := LockAsleep])
  {
    var b := Begin(t, Lock);
    var s1 := Apply(s, b);
    if s.word == 0 {
      es := [Run(t, true)];
      assert IsRun(Apply(s1, es[0]), es[1..]) && Final(s1, es) == Final(Apply(s1, es[0]), es[1..]) == Apply(s1, es[0]);
    } else {
      es := LockFallsAsleep(s1, t);
    }
    assert ([b] + es)[1..] == es;
    assert s1.pc[t := Held] == s.pc[t := Held] && s1.pc[t := LockAsleep] == s.pc[t := LockAsleep];
  }

  /** The thread is inside a lock, or a lock_timeout that has not found its deadline past. */
  predicate Patient(pc: Pc) { InCall(pc) && pc != TryFast && pc != TimedLast }

  /** The deadline of t does not pass in the event: it does not find the clock late, nor does its sleep time out. */
  ghost predicate InTime(s: State, e: Event, t: Tid)
    requires t in s.pc
  {
    !(s.pc[t] == TimedCheck && e == Run(t, false)) && !(s.pc[t] == TimedAsleep && e == Disturb(t, true))
  }

  ghost predicate AllInTime(s: State, es: seq<Event>, t: Tid)
    requires IsRun(s, es)
    decreases |es|
  {
    es == [] || (t in s.pc && InTime(s, es[0], t) && AllInTime(Apply(s, es[0]), es[1..], t))
  }

  /** The thread has had the lock at some moment of the run. */
  ghost predicate Got(s: State, es: seq<Event>, t: Tid)
    requires IsRun(s, es)
    decreases |es|
  {
    Holds(s, t) || (es != [] && Got(Apply(s, es[0]), es[1..], t))
  }

  lemma StaysPatient(s: State, e: Event, t: Tid)
    requires Enabled(s, e) && t in s.pc && Patient(s.pc[t]) && InTime(s, e, t)
    ensures t in Apply(s, e).pc && (Holds(Apply(s, e), t) || Patient(Apply(s, e).pc[t]))
  {}

  /** A lock, and a lock_timeout before its deadline, does not come back without the lock, whatever happens
      meanwhile. */
  lemma {:induction false} NeverGivesUp(s: State, es: seq<Event>, t: Tid)
    requires IsRun(s, es) && t in s.pc && Patient(s.pc[t]) && AllInTime(s, es, t)
    ensures Got(s, es, t) || (t in Final(s, es).pc && Patient(Final(s, es).pc[t]))
    decreases |es|
  {
    if es != [] {
      StaysPatient(s, es[0], t);
      hide Patient, Apply, InTime, Holds;
      var s' := Apply(s, es[0]);
      if Holds(s', t) {
        assert Got(s', es[1..], t);
      } else {
        NeverGivesUp(s', es[1..], t);
      }
    }
  }

  /** A holder of the lock gives it up with its next operation, and wakes a waiter if one is marked. */
  lemma UnlockAnswers(s: State, t: Tid, luck: bool)
    requires Inv(s) && Holds(s, t)
    ensures Enabled(s, Run(t, luck))
    ensures var s' := Apply(s, Run(t, luck)); s' == State(0, s.pc[t := if s.word == 2 then WakeDue else Idle])
  {
    assert s.word != 0;
  }

  /** A wake that is due ends one sleep if anybody sleeps, and only that one. */
  lemma WakeWakesOne(s: State, t: Tid, woken: Option<Tid>)
    requires Enabled(s, Wake(t, woken))
    ensures var s' := Apply(s, Wake(t, woken));
            && t in s'.pc && s'.pc[t] == Idle && s'.word == s.word && s'.pc.Keys == s.pc.Keys
            && (woken.Some? ==> Sleeps(s, woken.value) && WillSwap(s', woken.value))
            && (woken.None? ==> forall u :: !Sleeps(s, u))
            && (forall u :: u in s.pc && u != t && woken != Some(u) ==> s'.pc[u] == s.pc[u])
  {}
}

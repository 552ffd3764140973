/** What the calls of a typed mutex come to, seen by its callers: which calls count, what they leave behind,
    and that a thread completes them by its own operations. */
module TypedCalls {
  import opened Common
  import M = Mutex
  import T = TypedMutex

  type Tid = M.Tid

  // ------------------------------------------------------------ counting calls from outside

  /** What a caller knows of thread t: how many of its locks are not yet undone, the call it is inside of, and
      whether it had the lock when it made that call. */
  datatype Tally = Tally(locks: int, inside: Option<T.Call>, had: bool)

  /** What a call that has returned adds: a lock counts if the caller then has the lock, except that a second
      one on an error-checking mutex is refused; an unlock counts if the caller had the lock. */
  function Change(kind: T.Kind, call: T.Call, had: bool, has: bool): int {
    match call
    case Lock(_) => if has && !(kind == T.ErrorCheck && had) then 1 else 0
    case Unlock => if had then -1 else 0
    case Wait => 0
    case Signal(_) => 0
  }

  predicate Has(v: T.View) { v.ipc == M.Held }

  function Begun(v: T.View, call: T.Call, y: Tally): Tally { Tally(y.locks, Some(call), Has(v)) }

  /** The thread's call has returned, if it has. */
  function Returned(kind: T.Kind, v: T.View, v': T.View, y: Tally): Tally {
    if v.pc != T.Out && v'.pc == T.Out && y.inside.Some?
    then Tally(y.locks + Change(kind, y.inside.value, y.had, Has(v')), None, false)
    else y
  }

  ghost function Noted(s: T.State, e: T.Event, s': T.State, t: Tid, y: Tally): Tally
    requires T.WellFormed(s) && T.WellFormed(s') && t in s.pcs && t in s'.pcs
  {
    if e.Begin? && e.t == t then Begun(T.ViewOf(s, t), e.call, y)
    else Returned(s.kind, T.ViewOf(s, t), T.ViewOf(s', t), y)
  }

  /** The tally of a whole run. */
  ghost function TallyOf(s: T.State, es: seq<T.Event>, t: Tid, y: Tally): Tally
    requires T.IsRun(s, es)
    decreases |es|
  {
    if es == [] then y
    else
      var s' := T.Apply(s, es[0]);
      TallyOf(s', es[1..], t, if t in s.pcs && t in s'.pcs then Noted(s, es[0], s', t, y) else y)
  }

  /** How the tally goes with the place of the thread. */
  predicate Fits(kind: T.Kind, v: T.View, y: Tally) {
    match v.pc
    case Out => y.inside == None && y.locks == v.depth
    case LockOwner(_) => In(y, T.Lock(M.Lock)) && y.locks == v.depth && (y.had <==> Has(v))
    case LockBump => In(y, T.Lock(M.Lock)) && y.locks == v.depth && y.had && kind == T.Recursive
    case LockInner => In(y, T.Lock(M.Lock)) && y.locks == v.depth && !y.had
    case LockStoreOwner => In(y, T.Lock(M.Lock)) && y.locks == v.depth && !y.had
    case LockStoreCount => In(y, T.Lock(M.Lock)) && y.locks == v.depth && !y.had
    case UnlockOwner => In(y, T.Unlock) && y.locks == v.depth && (y.had <==> Has(v))
    case UnlockSub => In(y, T.Unlock) && y.locks == v.depth && y.had
    case UnlockClearOwner => In(y, T.Unlock) && y.locks == v.depth + 1 && y.had
    case UnlockClearCount => In(y, T.Unlock) && y.locks == v.depth + 1 && y.had
    case UnlockInner => In(y, T.Unlock) && y.locks == v.depth + 1 && y.had
    case SignalAdd(_) => In(y, T.Signal(false)) && y.locks == v.depth
    case SignalWake(_, _) => In(y, T.Signal(false)) && y.locks == v.depth
    case _ => In(y, T.Wait) && y.locks == v.depth
  }

  /** The thread is inside a call of this sort. */
  predicate In(y: Tally, call: T.Call) {
    && y.inside.Some?
    && (call.Lock? ==> y.inside.value.Lock?) && (call.Unlock? ==> y.inside.value.Unlock?)
    && (call.Wait? ==> y.inside.value.Wait?) && (call.Signal? ==> y.inside.value.Signal?)
  }

  lemma FirstFits(kind: T.Kind, t: Tid, call: T.Call, v: T.View, y: Tally)
    requires v.pc == T.Out && T.Local(true, kind, t, v) && Fits(kind, v, y)
    requires kind == T.Normal && (call.Unlock? || call.Wait?) ==> v.depth > 0
    ensures Fits(kind, T.First(kind, call, v), Begun(v, call, y))
  {}

  lemma LockFits(kind: T.Kind, t: Tid, v: T.View, y: Tally)
    requires T.IsLockPc(v.pc) && T.Local(true, kind, t, v) && Fits(kind, v, y)
    ensures Fits(kind, T.LockNext(kind, t, v), Returned(kind, v, T.LockNext(kind, t, v), y))
  {}

  lemma UnlockFits(kind: T.Kind, t: Tid, v: T.View, y: Tally)
    requires T.IsUnlockPc(v.pc) && T.Local(true, kind, t, v) && Fits(kind, v, y)
    ensures Fits(kind, T.UnlockNext(kind, t, v), Returned(kind, v, T.UnlockNext(kind, t, v), y))
  {}

  lemma WaitFits(kind: T.Kind, t: Tid, v: T.View, y: Tally)
    requires T.IsWaitPc(v.pc) && T.Local(true, kind, t, v) && Fits(kind, v, y)
    ensures Fits(kind, T.WaitNext(kind, t, v), Returned(kind, v, T.WaitNext(kind, t, v), y))
  {}

  lemma ReturnFits(kind: T.Kind, t: Tid, v: T.View, y: Tally)
    requires T.IsReturnPc(v.pc) && T.Local(true, kind, t, v) && Fits(kind, v, y)
    ensures Fits(kind, T.ReturnNext(kind, t, v), Returned(kind, v, T.ReturnNext(kind, t, v), y))
  {}

  lemma ResumeFits(kind: T.Kind, t: Tid, v: T.View, ipc: M.Pc, y: Tally)
    requires T.InInner(v.pc) && T.Local(true, kind, t, v) && Fits(kind, v, y) && T.InnerMove(v.ipc, ipc)
    ensures var w := T.Resume(kind, v.(ipc := ipc)); Fits(kind, w, Returned(kind, v, w, y))
  {}

  /** What happens to a thread without its doing: nothing, or a sleep ends, or its wake is issued. */
  predicate Passive(v: T.View, v': T.View) {
    && v'.depth == v.depth && (v'.ipc == v.ipc || (!Has(v) && !Has(v')))
    && (v'.pc == v.pc || (v.pc.WaitAsleep? && v'.pc.WaitAwake?) || (v.pc.SignalWake? && v'.pc == T.Out))
  }

  lemma PassiveFits(kind: T.Kind, v: T.View, v': T.View, y: Tally)
    requires Passive(v, v') && Fits(kind, v, y)
    ensures Fits(kind, v', Returned(kind, v, v', y))
  {}

  lemma WakeIsPassive(s: T.State, e: T.Event, t: Tid)
    requires T.WellFormed(s) && T.Enabled(s, e) && T.IsWake(e) && t in s.pcs
    ensures var s' := T.Apply(s, e); T.WellFormed(s') && t in s'.pcs && Passive(T.ViewOf(s, t), T.ViewOf(s', t))
  {
    T.WakeFrame(s, e);
    T.WakeEffect(s, e, t);
    hide T.Apply;
  }

  // What a thread sees after a step.

  lemma BeginView(s: T.State, u: Tid, call: T.Call, t: Tid)
    requires T.WellFormed(s) && T.Enabled(s, T.Begin(u, call)) && t in s.pcs
    ensures var s' := T.Apply(s, T.Begin(u, call));
            && T.WellFormed(s') && t in s'.pcs
            && (if t == u then T.ViewOf(s', t) == T.First(s.kind, call, T.ViewOf(s, t)) else Passive(T.ViewOf(s, t), T.ViewOf(s', t)))
  {
    hide T.First;
  }

  lemma StepView(s: T.State, u: Tid, t: Tid)
    requires T.WellFormed(s) && T.Enabled(s, T.Step(u)) && t in s.pcs
    ensures var s' := T.Apply(s, T.Step(u));
            && T.WellFormed(s') && t in s'.pcs
            && (if t == u then T.ViewOf(s', t) == T.Next(s.kind, t, T.ViewOf(s, t)) else Passive(T.ViewOf(s, t), T.ViewOf(s', t)))
  {
    hide T.Next;
  }

  lemma ExecMoves(word: nat, pc: M.Pc, luck: bool)
    requires pc != M.Idle && pc != M.WakeDue && !M.Sleeping(pc)
    ensures T.InnerMove(pc, M.Exec(word, pc, luck).1)
  {}

  /** A futex operation of thread u: it moves u on, and wakes others at most. */
  lemma MovedView(s: T.State, m: M.State, u: Tid, t: Tid)
    requires T.WellFormed(s) && u in s.pcs && t in s.pcs && T.InInner(s.pcs[u]) && m.pc.Keys == s.inner.pc.Keys
    requires t != u ==> T.SameOrAwakened(s.inner.pc[t], m.pc[t])
    ensures var s1 := s.(inner := m);
            var s' := T.WriteBack(s1, u, T.Resume(s.kind, T.ViewOf(s1, u)));
            && T.WellFormed(s') && t in s'.pcs
            && (if t == u then T.ViewOf(s', t) == T.Resume(s.kind, T.ViewOf(s, t).(ipc := m.pc[t]))
                else Passive(T.ViewOf(s, t), T.ViewOf(s', t)))
  {
    var s1 := s.(inner := m);
    ResumeKeeps(s.kind, T.ViewOf(s1, u));
    hide T.Resume;
  }

  lemma InnerMoves(m: M.State, e: M.Event)
    requires M.Inv(m) && M.Enabled(m, e) && (e.Run? || e.Wake?)
    ensures var m' := M.Apply(m, e);
            && m'.pc.Keys == m.pc.Keys && T.InnerMove(m.pc[e.t], m'.pc[e.t])
            && forall u :: u in m.pc && u != e.t ==> T.SameOrAwakened(m.pc[u], m'.pc[u])
  {
    if e.Run? {
      ExecMoves(m.word, m.pc[e.t], e.luck);
      hide M.Exec, T.InnerMove;
    } else {
      T.WakeMoves(m, e.t, e.woken);
    }
  }

  lemma InnerView(s: T.State, e: M.Event, t: Tid)
    requires T.WellFormed(s) && M.Inv(s.inner) && T.Enabled(s, T.Inner(e)) && !e.Disturb? && t in s.pcs
    ensures var s', m := T.Apply(s, T.Inner(e)), M.Apply(s.inner, e);
            && T.WellFormed(s') && t in s'.pcs && t in m.pc
            && (if t == e.t
                then T.InInner(s.pcs[t]) && T.InnerMove(s.inner.pc[t], m.pc[t])
                     && T.ViewOf(s', t) == T.Resume(s.kind, T.ViewOf(s, t).(ipc := m.pc[t]))
                else Passive(T.ViewOf(s, t), T.ViewOf(s', t)))
  {
    InnerMoves(s.inner, e);
    hide M.Apply, M.Inv, T.InnerMove, T.Resume, Passive, T.WriteBack, T.SameOrAwakened;
    MovedView(s, M.Apply(s.inner, e), e.t, t);
  }

  /** Going on after a futex operation changes the thread's own place and depth only. */
  lemma ResumeKeeps(kind: T.Kind, v: T.View)
    requires T.InInner(v.pc)
    ensures var w := T.Resume(kind, v); w.ipc == v.ipc && w.owner == v.owner && w.count == v.count && w.sent == v.sent
  {}

  lemma DisturbView(s: T.State, u: Tid, timedOut: bool, t: Tid)
    requires T.WellFormed(s) && T.Enabled(s, T.Inner(M.Disturb(u, timedOut))) && t in s.pcs
    ensures var s' := T.Apply(s, T.Inner(M.Disturb(u, timedOut)));
            T.WellFormed(s') && t in s'.pcs && Passive(T.ViewOf(s, t), T.ViewOf(s', t))
  {}

  lemma FitsStep(s: T.State, e: T.Event, t: Tid, y: Tally)
    requires T.Inv({t}, s) && T.Enabled(s, e) && t in s.pcs && Fits(s.kind, T.ViewOf(s, t), y)
    ensures var s' := T.Apply(s, e);
            T.WellFormed(s') && t in s'.pcs && s'.kind == s.kind && Fits(s.kind, T.ViewOf(s', t), Noted(s, e, s', t, y))
  {
    var v := T.ViewOf(s, t);
    assert T.ThreadOk({t}, s, t);
    KindStays(s, e);
    hide Fits, T.Local, T.Apply, M.Apply, M.Inv, Returned, Passive, T.First, T.Next, T.Resume, T.InnerMove;
    match e {
      case Begin(u, call) =>
        BeginView(s, u, call, t);
        if u == t { FirstFits(s.kind, t, call, v, y); }
      case Step(u) =>
        StepView(s, u, t);
        if u == t { NextFits(s.kind, t, v, y); }
      case Inner(e) =>
        if e.Disturb? {
          DisturbView(s, e.u, e.timedOut, t);
        } else {
          InnerView(s, e, t);
          if e.t == t { ResumeFits(s.kind, t, v, M.Apply(s.inner, e).pc[t], y); }
        }
      case _ =>
        WakeIsPassive(s, e, t);
    }
    if Passive(v, T.ViewOf(T.Apply(s, e), t)) { PassiveFits(s.kind, v, T.ViewOf(T.Apply(s, e), t), y); }
  }

  lemma NextFits(kind: T.Kind, t: Tid, v: T.View, y: Tally)
    requires T.OwnStep(v.pc) && T.Local(true, kind, t, v) && Fits(kind, v, y)
    ensures Fits(kind, T.Next(kind, t, v), Returned(kind, v, T.Next(kind, t, v), y))
  {
    hide Fits, T.Local, Returned, T.LockNext, T.UnlockNext, T.WaitNext, T.ReturnNext;
    if T.IsLockPc(v.pc) { LockFits(kind, t, v, y); }
    else if T.IsUnlockPc(v.pc) { UnlockFits(kind, t, v, y); }
    else if T.IsWaitPc(v.pc) { WaitFits(kind, t, v, y); }
    else { ReturnFits(kind, t, v, y); }
  }

  lemma KindStays(s: T.State, e: T.Event)
    requires T.WellFormed(s) && T.Enabled(s, e)
    ensures T.Apply(s, e).kind == s.kind
  {}

  lemma {:induction false} FitsRun(s: T.State, es: seq<T.Event>, t: Tid, y: Tally)
    requires T.Inv({t}, s) && T.IsRun(s, es) && t in s.pcs && Fits(s.kind, T.ViewOf(s, t), y) && t !in T.Wrapped(s, es)
    ensures var f := T.Final(s, es);
            T.Inv({t}, f) && f.kind == s.kind && t in f.pcs && Fits(f.kind, T.ViewOf(f, t), TallyOf(s, es, t, y))
    decreases |es|
  {
    hide Fits, T.Apply, T.Enabled, Noted;
    assert T.WellFormed(s);
    hide T.Inv;
    if es != [] {
      var s' := T.Apply(s, es[0]);
      FitsStep(s, es[0], t, y);
      T.InvStep({t}, s, es[0]);
      assert {t} - T.Wraps(s, es[0]) == {t};
      FitsRun(s', es[1..], t, Noted(s, es[0], s', t, y));
    }
  }

  const NONE: Tally := Tally(0, None, false)

  /** After every run, between two calls of a thread that has not overflowed the counter: the thread has the lock,
      and is its recorded owner, exactly if it has made more locks than unlocks that count; and on a recursive
      mutex the counter is the difference. */
  lemma LocksMinusUnlocks(s: T.State, es: seq<T.Event>, t: Tid)
    requires T.Init(s) && T.IsRun(s, es) && t in s.pcs && t !in T.Wrapped(s, es)
    ensures var f, n := T.Final(s, es), TallyOf(s, es, t, NONE).locks;
            && T.WellFormed(f) && t in f.pcs && f.kind == s.kind
            && (f.pcs[t] == T.Out ==>
                  && 0 <= n && (M.Holds(f.inner, t) <==> 0 < n) && f.depth[t] == n
                  && (f.kind != T.Normal ==> (f.owner == Some(t) <==> 0 < n))
                  && (if f.kind == T.Recursive then n < U32 && (0 < n ==> f.count == n) else n <= 1))
  {
    T.InitInv({t}, s);
    FitsRun(s, es, t, NONE);
    assert T.ThreadOk({t}, T.Final(s, es), t);
  }

  /** Only a recursive mutex has a counter to overflow. */
  lemma {:induction false} NoCounter(s: T.State, es: seq<T.Event>)
    requires T.Inv({}, s) && T.IsRun(s, es) && s.kind != T.Recursive
    ensures T.Wrapped(s, es) == {}
    decreases |es|
  {
    if es != [] {
      var e := es[0];
      assert e.Step? && e.t in s.pcs ==> T.ThreadOk({}, s, e.t);
      KindStays(s, e);
      T.InvStep({}, s, e);
      assert {} - T.Wraps(s, e) == {};
      hide T.Inv, T.Apply, T.Enabled;
      NoCounter(T.Apply(s, e), es[1..]);
    }
  }

  // ------------------------------------------------------------ completing a call alone

  predicate Unlocking(pc: T.Pc) { T.IsUnlockPc(pc) || pc.UnlockInner? }

  predicate Locking(pc: T.Pc) { T.IsLockPc(pc) || pc.LockInner? }

  predicate Returning(pc: T.Pc) { pc.WaitAwake? || pc.Relock? || pc.RestoreOwner? || pc.RestoreCount? }

  /** On the way into a wait. */
  predicate Entering(pc: T.Pc) { pc.WaitSeq? || pc.WaitOwner? || pc.WaitSwapCount? || pc.WaitClearOwner? || pc.WaitUnlock? }

  /** Where a call, or the way into a wait, ends. */
  predicate Over(pc: T.Pc) { pc == T.Out || pc.WaitFutex? }

  /** A wait that goes through: by the owner, with a count to come back to. */
  predicate GoesThrough(kind: T.Kind, t: Tid, v: T.View) {
    match v.pc
    case WaitSeq => kind == T.Normal || (T.Mine(t, v) && 0 < SavedCount(kind, v))
    case WaitOwner(_) => kind != T.Normal && T.Mine(t, v) && 0 < SavedCount(kind, v)
    case _ => (Entering(v.pc) || v.pc.WaitFutex?) && 0 < SavedCount(kind, v)
  }

  /** A wait by an owner whose counter an overflow has left at zero: there is nothing to come back to. */
  predicate Fruitless(kind: T.Kind, t: Tid, v: T.View) {
    kind == T.Recursive && SavedCount(kind, v) == 0 &&
    match v.pc
    case WaitSeq => T.Mine(t, v)
    case WaitOwner(_) => T.Mine(t, v)
    case _ => Entering(v.pc)
  }

  /** The count that the wait saves, and its snapshot of the sequence counter. */
  function SavedCount(kind: T.Kind, v: T.View): nat {
    match v.pc
    case WaitClearOwner(_, saved) => saved
    case WaitUnlock(_, saved) => saved
    case WaitFutex(_, saved) => saved
    case _ => if kind == T.Recursive then v.count else 1
  }

  function SnapshotOf(v: T.View): nat { if T.Snapshot(v.pc) then v.pc.at else v.sent }

  /** A wait on its way in stays on it, with what it saved. */
  predicate SameWait(kind: T.Kind, t: Tid, v: T.View, w: T.View) {
    && (Entering(w.pc) || w.pc.WaitFutex? ==> Entering(v.pc))
    && (Entering(v.pc) && GoesThrough(kind, t, v) ==>
          GoesThrough(kind, t, w) && SavedCount(kind, w) == SavedCount(kind, v) && SnapshotOf(w) == SnapshotOf(v))
    && (Fruitless(kind, t, v) ==> Fruitless(kind, t, w) || (w.pc == T.Out && w.ipc == M.Idle))
  }

  /** The futex operation can go on by itself: it does not wait for anybody, or the word is free. */
  predicate Free(word: nat, ipc: M.Pc) { M.Impatient(ipc) || (word == 0 && !M.Sleeping(ipc)) }

  /** The call can be completed by the thread alone: an unlock always, a lock if the thread has the mutex, if the
      word is free or if the form does not wait, the return from a wait if the word is free. */
  predicate Ready(word: nat, kind: T.Kind, t: Tid, v: T.View) {
    match v.pc
    case LockOwner(op) => (kind != T.Normal && T.Mine(t, v)) || word == 0 || op != M.Lock
    case LockInner => Free(word, v.ipc)
    case WaitAwake(_) => word == 0
    case Relock(_) => Free(word, v.ipc)
    case _ => Unlocking(v.pc) || Locking(v.pc) || Returning(v.pc) || Entering(v.pc)
  }

  function InnerRank(word: nat, ipc: M.Pc): nat {
    if ipc == M.Held then 2 else if ipc == M.WakeDue then 1
    else 10 + if M.Impatient(ipc) then M.Patience(word, ipc) else M.Distance(ipc)
  }

  /** Operations left, at most. */
  function Rank(word: nat, v: T.View): nat {
    match v.pc
    case LockOwner(_) => 30
    case LockInner => InnerRank(word, v.ipc)
    case LockStoreOwner => 2
    case UnlockOwner => 6
    case UnlockSub => 5
    case UnlockClearOwner => 4
    case UnlockClearCount => 3
    case UnlockInner => InnerRank(word, v.ipc)
    case WaitAwake(_) => 30
    case Relock(_) => InnerRank(word, v.ipc)
    case RestoreOwner(_) => 2
    case WaitSeq => 9
    case WaitOwner(_) => 8
    case WaitSwapCount(_) => 7
    case WaitClearOwner(_, _) => 6
    case WaitUnlock(_, _) => InnerRank(word, v.ipc)
    case _ => 1
  }

  /** An operation of the thread itself, or the end of a sleep of it at its deadline. */
  predicate OwnEvent(e: T.Event, t: Tid) {
    match e
    case Step(u) => u == t
    case Inner(Run(u, _)) => u == t
    case Inner(Wake(u, _)) => u == t
    case Inner(Disturb(u, timedOut)) => u == t && timedOut
    case _ => false
  }

  ghost predicate AllOwn(es: seq<T.Event>, t: Tid) { forall i :: 0 <= i < |es| ==> OwnEvent(es[i], t) }

  /** What the thread's own operations leave alone: who else has the lock, and who else is recorded. */
  ghost predicate Apart(s: T.State, s': T.State, t: Tid) {
    && s'.kind == s.kind && s'.pcs.Keys == s.pcs.Keys
    && (forall u :: u != t ==> (M.Holds(s'.inner, u) <==> M.Holds(s.inner, u)))
    && (s'.owner == s.owner || s'.owner == None || s'.owner == Some(t))
  }

  /** The thread is not about to overflow the counter. */
  ghost predicate Calm(s: T.State, t: Tid) {
    t in s.pcs && (s.pcs[t].LockBump? || (s.pcs[t].LockOwner? && s.kind == T.Recursive && s.owner == Some(t)) ==> s.count < U32 - 1)
  }

  lemma NextSameWait(kind: T.Kind, t: Tid, v: T.View)
    requires T.OwnStep(v.pc) && T.Local(false, kind, t, v) && !v.pc.WaitFutex?
    ensures SameWait(kind, t, v, T.Next(kind, t, v))
  {}

  lemma NextReady(word: nat, kind: T.Kind, t: Tid, v: T.View)
    requires T.OwnStep(v.pc) && T.Local(false, kind, t, v) && Ready(word, kind, t, v)
    ensures var w := T.Next(kind, t, v);
            && (Over(w.pc) || (Ready(word, kind, t, w) && Rank(word, w) < Rank(word, v)))
            && (w.owner == v.owner || w.owner == None || w.owner == Some(t))
            && (Locking(v.pc) ==> w.pc == T.Out || Locking(w.pc))
            && (Locking(v.pc) && word == 0 && w.pc == T.Out ==> w.ipc == M.Held)
            && (Locking(w.pc) ==> Locking(v.pc))
            && !w.pc.LockOwner? && (w.pc.LockBump? ==> v.pc.LockOwner? && kind == T.Recursive && T.Mine(t, v) && w.count == v.count)
            && (w.ipc == v.ipc || (v.ipc == M.Idle && w.ipc != M.Held && w.ipc != M.WakeDue))
  {
    if T.IsLockPc(v.pc) {} else if T.IsUnlockPc(v.pc) {} else if T.IsWaitPc(v.pc) {} else {}
  }

  /** A step of the thread's own leaves the futex word alone, and everybody's hold on it. */
  lemma StepFrame(s: T.State, t: Tid)
    requires T.WellFormed(s) && T.Enabled(s, T.Step(t))
    requires var w := T.Next(s.kind, t, T.ViewOf(s, t)); w.ipc == s.inner.pc[t] || (s.inner.pc[t] == M.Idle && w.ipc != M.Held)
    ensures var s', w := T.Apply(s, T.Step(t)), T.Next(s.kind, t, T.ViewOf(s, t));
            && s'.inner.word == s.inner.word && s'.kind == s.kind && s'.pcs.Keys == s.pcs.Keys
            && s'.owner == w.owner && s'.count == w.count && (forall u :: M.Holds(s'.inner, u) <==> M.Holds(s.inner, u))
  {
    hide T.Next;
  }

  /** The next operation of the thread when it is not inside a futex operation. */
  lemma StepReady(s: T.State, t: Tid)
    requires T.Inv({}, s) && t in s.pcs && T.OwnStep(s.pcs[t]) && Ready(s.inner.word, s.kind, t, T.ViewOf(s, t))
    ensures T.Enabled(s, T.Step(t))
    ensures var s' := T.Apply(s, T.Step(t));
            && T.WellFormed(s') && s'.inner.word == s.inner.word && Apart(s, s', t) && Progress(s, s', t)
  {
    assert T.ThreadOk({}, s, t);
    NextReady(s.inner.word, s.kind, t, T.ViewOf(s, t));
    NextSameWait(s.kind, t, T.ViewOf(s, t));
    StepView(s, t, t);
    StepFrame(s, t);
    hide T.Next, T.Local, T.Apply, T.Inv, Ready, Rank, SameWait;
  }

  /** The call is over or closer to its end; a lock on a free word ends with the lock. */
  ghost predicate Progress(s: T.State, s': T.State, t: Tid)
    requires T.WellFormed(s) && T.WellFormed(s') && t in s.pcs
  {
    && t in s'.pcs
    && SameWait(s.kind, t, T.ViewOf(s, t), T.ViewOf(s', t))
    && (Over(s'.pcs[t]) ||
        (Ready(s'.inner.word, s.kind, t, T.ViewOf(s', t)) && Rank(s'.inner.word, T.ViewOf(s', t)) < Rank(s.inner.word, T.ViewOf(s, t))))
    && (Locking(s.pcs[t]) ==> s'.pcs[t] == T.Out || Locking(s'.pcs[t]))
    && (Locking(s'.pcs[t]) ==> Locking(s.pcs[t]))
    && !s'.pcs[t].LockOwner? && (s'.pcs[t].LockBump? ==> s.pcs[t].LockOwner? && s.kind == T.Recursive && s.owner == Some(t) && s'.count == s.count)
    && (Locking(s.pcs[t]) && (s.inner.word == 0 || M.Holds(s.inner, t)) ==>
          if s'.pcs[t] == T.Out then M.Holds(s'.inner, t) else s'.inner.word == 0 || M.Holds(s'.inner, t))
  }

  /** The event by which the futex operation goes on. */
  lemma InnerNext(m: M.State, t: Tid) returns (e: M.Event)
    requires M.Inv(m) && t in m.pc && m.pc[t] != M.Idle && (m.pc[t] == M.Held || m.pc[t] == M.WakeDue || Free(m.word, m.pc[t]))
    ensures M.Enabled(m, e) && OwnEvent(T.Inner(e), t)
    ensures var m' := M.Apply(m, e);
            && m'.pc.Keys == m.pc.Keys && (e.Disturb? ==> M.Sleeping(m.pc[t]) && !M.Sleeping(m'.pc[t]))
            && (forall u :: u != t ==> (M.Holds(m', u) <==> M.Holds(m, u)))
            && (m.pc[t] == M.Held ==> m'.pc[t] == M.WakeDue || m'.pc[t] == M.Idle)
            && (m.pc[t] == M.WakeDue ==> m'.pc[t] == M.Idle)
            && (m.pc[t] != M.Held && m.pc[t] != M.WakeDue ==>
                  && (m'.pc[t] == M.Held || m'.pc[t] == M.Idle || Free(m'.word, m'.pc[t]))
                  && InnerRank(m'.word, m'.pc[t]) < InnerRank(m.word, m.pc[t])
                  && (m'.pc[t] == M.Idle ==> M.Impatient(m.pc[t]))
                  && (m.word == 0 ==> m'.pc[t] == M.Held || (m'.pc[t] != M.Idle && m'.word == 0)))
  {
    if m.pc[t] == M.Held {
      e := M.Run(t, true);
    } else if m.pc[t] == M.WakeDue {
      e := M.WakeStep(m, t);
      assert e.t == t;
    } else if M.Impatient(m.pc[t]) {
      M.LateStepLeft(m, t);
      e := M.LateStep(m, t);
    } else {
      M.FreeStepLeft(m, t);
      e := M.Run(t, true);
    }
  }

  /** The operations of the call go on where the futex operation ends. */
  lemma ResumeReady(word: nat, word': nat, kind: T.Kind, t: Tid, v: T.View, ipc: M.Pc)
    requires T.InInner(v.pc) && T.Local(false, kind, t, v) && Ready(word, kind, t, v)
    requires T.InnerMove(v.ipc, ipc)
    requires v.ipc != M.Held && v.ipc != M.WakeDue ==>
               && (ipc == M.Held || ipc == M.Idle || Free(word', ipc)) && InnerRank(word', ipc) < InnerRank(word, v.ipc)
               && (word == 0 ==> ipc == M.Held || (ipc != M.Idle && word' == 0))
    ensures var w := T.Resume(kind, v.(ipc := ipc));
            && (Over(w.pc) || (Ready(word', kind, t, w) && Rank(word', w) < Rank(word, v))) && SameWait(kind, t, v, w)
            && (Locking(v.pc) ==> w.pc == T.Out || Locking(w.pc)) && (Locking(w.pc) ==> Locking(v.pc))
            && !w.pc.LockOwner? && !w.pc.LockBump?
            && (Locking(v.pc) && word == 0 ==> if w.pc == T.Out then ipc == M.Held else ipc == M.Held || word' == 0)
  {}

  /** Inside a futex operation the thread acquires or releases. */
  lemma InnerPlace(word: nat, kind: T.Kind, t: Tid, v: T.View)
    requires T.InInner(v.pc) && T.Local(false, kind, t, v) && Ready(word, kind, t, v)
    ensures v.ipc != M.Idle && (v.ipc == M.Held || v.ipc == M.WakeDue || Free(word, v.ipc))
    ensures Locking(v.pc) ==> v.ipc != M.Held
  {}

  /** A futex operation leaves owner, kind and the set of threads alone. */
  lemma InnerFrame(s: T.State, e: M.Event)
    requires T.WellFormed(s) && M.Inv(s.inner) && T.Enabled(s, T.Inner(e)) && !e.Disturb?
    ensures var s', m := T.Apply(s, T.Inner(e)), M.Apply(s.inner, e);
            s'.kind == s.kind && s'.owner == s.owner && s'.count == s.count && s'.pcs.Keys == s.pcs.Keys && s'.inner == m
  {
    var m := M.Apply(s.inner, e);
    InnerMoves(s.inner, e);
    hide M.Apply, M.Inv, T.InnerMove;
    ResumeKeeps(s.kind, T.ViewOf(s.(inner := m), e.t));
    hide T.Resume;
    assert m.pc[e.t := m.pc[e.t]] == m.pc;
  }

  lemma LateReady(word: nat, kind: T.Kind, t: Tid, v: T.View)
    requires T.InInner(v.pc) && T.Local(false, kind, t, v) && Ready(word, kind, t, v) && M.Sleeping(v.ipc)
    ensures var w := v.(ipc := M.Awakened(v.ipc, true)); Ready(word, kind, t, w) && Rank(word, w) < Rank(word, v)
    ensures !Has(v) && !Has(v.(ipc := M.Awakened(v.ipc, true)))
  {}

  /** The end of a sleep at its deadline. */
  lemma DisturbReady(s: T.State, i: M.Event, t: Tid)
    requires T.Inv({}, s) && t in s.pcs && T.InInner(s.pcs[t]) && Ready(s.inner.word, s.kind, t, T.ViewOf(s, t))
    requires i == M.Disturb(t, true) && M.Enabled(s.inner, i)
    ensures T.Enabled(s, T.Inner(i))
    ensures var s' := T.Apply(s, T.Inner(i)); T.WellFormed(s') && Apart(s, s', t) && Progress(s, s', t)
  {
    assert T.ThreadOk({}, s, t);
    var v := T.ViewOf(s, t);
    LateReady(s.inner.word, s.kind, t, v);
    hide T.Local, Ready, Rank, T.Inv, M.Awakened;
    assert T.ViewOf(T.Apply(s, T.Inner(i)), t) == v.(ipc := M.Awakened(v.ipc, true));
    assert !s.pcs[t].LockOwner? && !s.pcs[t].LockBump?;
  }

  lemma InnerReady(s: T.State, t: Tid) returns (e: T.Event)
    requires T.Inv({}, s) && t in s.pcs && T.InInner(s.pcs[t]) && Ready(s.inner.word, s.kind, t, T.ViewOf(s, t))
    ensures T.Enabled(s, e) && OwnEvent(e, t)
    ensures var s' := T.Apply(s, e); T.WellFormed(s') && Apart(s, s', t) && Progress(s, s', t)
  {
    assert T.ThreadOk({}, s, t);
    hide T.Local, Free, Ready, InnerRank, M.Apply, M.Enabled, M.Inv, T.Apply, Apart, Progress;
    InnerPlace(s.inner.word, s.kind, t, T.ViewOf(s, t));
    var i := InnerNext(s.inner, t);
    e := T.Inner(i);
    if i.Disturb? {
      DisturbReady(s, i, t);
    } else {
      ResumedReady(s, i, t);
    }
  }

  lemma ResumedReady(s: T.State, i: M.Event, t: Tid)
    requires T.WellFormed(s) && M.Inv(s.inner) && T.Enabled(s, T.Inner(i)) && !i.Disturb? && i.t == t && t in s.pcs
    requires var v, m := T.ViewOf(s, t), M.Apply(s.inner, i);
             && t in m.pc && T.InInner(v.pc) && T.Local(false, s.kind, t, v) && Ready(s.inner.word, s.kind, t, v)
             && (Locking(v.pc) ==> v.ipc != M.Held)
             && (v.ipc != M.Held && v.ipc != M.WakeDue ==>
                   && (m.pc[t] == M.Held || m.pc[t] == M.Idle || Free(m.word, m.pc[t]))
                   && InnerRank(m.word, m.pc[t]) < InnerRank(s.inner.word, v.ipc)
                   && (s.inner.word == 0 ==> m.pc[t] == M.Held || (m.pc[t] != M.Idle && m.word == 0)))
    requires forall u :: u != t ==> (M.Holds(M.Apply(s.inner, i), u) <==> M.Holds(s.inner, u))
    ensures var s' := T.Apply(s, T.Inner(i)); T.WellFormed(s') && Apart(s, s', t) && Progress(s, s', t)
  {
    hide T.Local, Free, Ready, Rank, InnerRank, M.Apply, M.Enabled, M.Inv, T.Apply, T.Resume, T.InnerMove;
    var m := M.Apply(s.inner, i);
    InnerView(s, i, t);
    InnerFrame(s, i);
    ResumeReady(s.inner.word, m.word, s.kind, t, T.ViewOf(s, t), m.pc[t]);
  }

  /** One more operation of the thread alone. */
  lemma Advance(s: T.State, t: Tid) returns (e: T.Event)
    requires T.Inv({}, s) && t in s.pcs && Ready(s.inner.word, s.kind, t, T.ViewOf(s, t))
    ensures T.Enabled(s, e) && OwnEvent(e, t)
    ensures var s' := T.Apply(s, e); T.Inv({}, s') && T.WellFormed(s') && Apart(s, s', t) && Progress(s, s', t)
    ensures Calm(s, t) ==> t !in T.Wraps(s, e) && Calm(T.Apply(s, e), t)
  {
    ReadyPlaces(s.inner.word, s.kind, t, T.ViewOf(s, t));
    hide T.Apply, Ready, Apart, Progress;
    if T.OwnStep(s.pcs[t]) {
      StepReady(s, t);
      e := T.Step(t);
    } else {
      e := InnerReady(s, t);
    }
    hide T.Inv, T.Enabled, OwnEvent;
    T.InvStep({}, s, e);
    assert {} - T.Wraps(s, e) == {};
    StaysCalm(s, T.Apply(s, e), e, t);
  }

  lemma StaysCalm(s: T.State, s': T.State, e: T.Event, t: Tid)
    requires T.WellFormed(s) && T.WellFormed(s') && t in s.pcs && OwnEvent(e, t) && Progress(s, s', t)
    ensures Calm(s, t) ==> t !in T.Wraps(s, e) && Calm(s', t)
  {
    hide Ready, Rank, M.Holds;
  }

  lemma ApartTrans(s: T.State, m: T.State, f: T.State, t: Tid)
    requires Apart(s, m, t) && Apart(m, f, t)
    ensures Apart(s, f, t)
  {
    hide M.Holds;
  }

  /** So the call can be completed by the thread alone. */
  lemma {:induction false} Finish(s: T.State, t: Tid) returns (es: seq<T.Event>)
    requires T.Inv({}, s) && T.WellFormed(s) && t in s.pcs && Ready(s.inner.word, s.kind, t, T.ViewOf(s, t))
    ensures T.IsRun(s, es) && AllOwn(es, t)
    ensures Finished(s, T.Final(s, es), t) && (Calm(s, t) ==> t !in T.Wrapped(s, es))
    decreases Rank(s.inner.word, T.ViewOf(s, t))
  {
    hide T.Apply, T.Enabled, T.Inv, Ready, Rank, Apart, M.Holds, Locking, OwnEvent, T.Wraps, Calm, SameWait;
    var e := Advance(s, t);
    var s' := T.Apply(s, e);
    if Over(s'.pcs[t]) {
      es := [e];
      OneStep(s, e);
      OverIsNotLocking(s'.pcs[t]);
    } else {
      assert s'.kind == s.kind by { KindStays(s, e); }
      var rest := Finish(s', t);
      es := [e] + rest;
      assert es[1..] == rest;
      ApartTrans(s, s', T.Final(s', rest), t);
      SameWaitTrans(s.kind, t, T.ViewOf(s, t), T.ViewOf(s', t), T.ViewOf(T.Final(s', rest), t));
    }
  }

  lemma OverIsNotLocking(pc: T.Pc)
    ensures Over(pc) ==> !Locking(pc)
  {}

  lemma SameWaitTrans(kind: T.Kind, t: Tid, v: T.View, w: T.View, x: T.View)
    requires SameWait(kind, t, v, w) && SameWait(kind, t, w, x) && !Over(w.pc)
    ensures SameWait(kind, t, v, x)
  {}

  ghost predicate Finished(s: T.State, f: T.State, t: Tid) {
    && T.WellFormed(s) && T.WellFormed(f) && T.Inv({}, f) && t in s.pcs && t in f.pcs && Over(f.pcs[t]) && Apart(s, f, t)
    && SameWait(s.kind, t, T.ViewOf(s, t), T.ViewOf(f, t))
    && (Locking(s.pcs[t]) && (s.inner.word == 0 || M.Holds(s.inner, t)) ==> M.Holds(f.inner, t))
  }

  lemma ReadyPlaces(word: nat, kind: T.Kind, t: Tid, v: T.View)
    requires Ready(word, kind, t, v)
    ensures T.OwnStep(v.pc) || T.InInner(v.pc)
  {}

  lemma OneStep(s: T.State, e: T.Event)
    requires T.WellFormed(s) && T.Enabled(s, e) && T.WellFormed(T.Apply(s, e))
    ensures T.IsRun(s, [e]) && T.Final(s, [e]) == T.Apply(s, e)
  {
    hide T.Apply, T.Enabled;
    assert [e][1..] == [];
    assert T.IsRun(T.Apply(s, e), []) && T.Final(T.Apply(s, e), []) == T.Apply(s, e);
  }

  /** A whole call by the thread alone, from outside. */
  lemma CallAlone(s: T.State, t: Tid, call: T.Call) returns (es: seq<T.Event>)
    requires T.Inv({}, s) && T.WellFormed(s) && T.Enabled(s, T.Begin(t, call)) && !call.Signal?
    requires call == T.Lock(M.Lock) ==> s.inner.word == 0 || (s.kind != T.Normal && s.owner == Some(t))
    ensures T.IsRun(s, [T.Begin(t, call)] + es) && AllOwn(es, t)
    ensures var f := T.Final(s, [T.Begin(t, call)] + es);
            && T.WellFormed(f) && T.Inv({}, f) && t in f.pcs && (call.Wait? || f.pcs[t] == T.Out) && Apart(s, f, t)
            && Finished(T.Apply(s, T.Begin(t, call)), f, t)
            && (call.Lock? && (s.inner.word == 0 || M.Holds(s.inner, t)) ==> M.Holds(f.inner, t))
    ensures (call.Lock? && s.kind == T.Recursive && s.owner == Some(t) ==> s.count < U32 - 1) ==> t !in T.Wrapped(s, [T.Begin(t, call)] + es)
  {
    var b := T.Begin(t, call);
    var s1 := T.Apply(s, b);
    BeginReady(s, t, call);
    hide T.Apply, T.Enabled, T.Inv, Ready, Apart, M.Holds, Locking, OwnEvent, SameWait, GoesThrough;
    assert (call.Lock? && s.kind == T.Recursive && s.owner == Some(t) ==> s.count < U32 - 1) ==> Calm(s1, t);
    assert T.Wraps(s, b) == {};
    T.InvStep({}, s, b);
    assert {} - T.Wraps(s, b) == {};
    hide Finished;
    es := Finish(s1, t);
    assert ([b] + es)[1..] == es;
    OutsideAgain(s1, T.Final(s1, es), t);
    ApartTrans(s, s1, T.Final(s1, es), t);
  }

  lemma OutsideAgain(s: T.State, f: T.State, t: Tid)
    requires Finished(s, f, t)
    ensures T.WellFormed(f) && T.Inv({}, f) && t in f.pcs && Apart(s, f, t) && (!Entering(s.pcs[t]) ==> f.pcs[t] == T.Out)
    ensures Locking(s.pcs[t]) && (s.inner.word == 0 || M.Holds(s.inner, t)) ==> M.Holds(f.inner, t)
  {
    hide T.Inv, Apart, Locking, M.Holds;
  }

  lemma WaitEnds(s: T.State, f: T.State, t: Tid)
    requires Finished(s, f, t)
    ensures s.pcs[t].WaitSeq? && GoesThrough(s.kind, t, T.ViewOf(s, t)) ==>
              f.pcs[t] == T.WaitFutex(s.sent, if s.kind == T.Recursive then s.count else 1)
    ensures Fruitless(s.kind, t, T.ViewOf(s, t)) ==> f.pcs[t] == T.Out && !M.Holds(f.inner, t)
  {
    hide T.Inv, Apart;
  }

  lemma BeginReady(s: T.State, t: Tid, call: T.Call)
    requires T.Inv({}, s) && T.Enabled(s, T.Begin(t, call)) && !call.Signal?
    requires call == T.Lock(M.Lock) ==> s.inner.word == 0 || (s.kind != T.Normal && s.owner == Some(t))
    ensures var s1 := T.Apply(s, T.Begin(t, call));
            && T.WellFormed(s1) && t in s1.pcs && Apart(s, s1, t) && s1.inner == s.inner
            && Ready(s1.inner.word, s1.kind, t, T.ViewOf(s1, t)) && (call.Lock? <==> Locking(s1.pcs[t]))
            && (call.Lock? <==> s1.pcs[t].LockOwner?) && !s1.pcs[t].LockBump? && s1.count == s.count && s1.owner == s.owner
            && (if call.Wait? then s1.pcs[t] == T.WaitSeq && s1.sent == s.sent else !Entering(s1.pcs[t]))
  {
    assert T.ThreadOk({}, s, t);
    assert s.inner.pc[t := s.inner.pc[t]] == s.inner.pc;
  }

  // ------------------------------------------------------------ what the calls do

  /** The tally after one call, if the thread is outside again. */
  lemma AfterCall(s: T.State, t: Tid, call: T.Call, es: seq<T.Event>)
    requires T.Inv({t}, s) && T.WellFormed(s) && t in s.pcs && s.pcs[t] == T.Out
    requires T.IsRun(s, [T.Begin(t, call)] + es) && AllOwn(es, t) && t !in T.Wrapped(s, [T.Begin(t, call)] + es)
    requires T.WellFormed(T.Final(s, [T.Begin(t, call)] + es)) && t in T.Final(s, [T.Begin(t, call)] + es).pcs
    requires T.Final(s, [T.Begin(t, call)] + es).pcs[t] == T.Out
    ensures var f := T.Final(s, [T.Begin(t, call)] + es);
            && T.Inv({t}, f) && f.kind == s.kind
            && f.depth[t] == s.depth[t] + Change(s.kind, call, M.Holds(s.inner, t), M.Holds(f.inner, t))
            && (M.Holds(s.inner, t) <==> s.depth[t] > 0)
            && (M.Holds(f.inner, t) <==> f.depth[t] > 0)
            && (s.kind != T.Normal ==> (f.owner == Some(t) <==> f.depth[t] > 0))
            && (s.kind == T.Recursive && f.depth[t] > 0 ==> f.count == f.depth[t])
  {
    var all, y := [T.Begin(t, call)] + es, Tally(s.depth[t], None, false);
    FitsRun(s, all, t, y);
    T.InvWeaker({t}, {}, s);
    OneCall(s, t, call, es, y);
    assert T.ThreadOk({t}, s, t) && T.ThreadOk({t}, T.Final(s, all), t);
  }

  /** In such a run the tally changes with the return of the one call. */
  lemma OneCall(s: T.State, t: Tid, call: T.Call, es: seq<T.Event>, y: Tally)
    requires T.Inv({}, s) && T.WellFormed(s) && t in s.pcs && T.IsRun(s, [T.Begin(t, call)] + es) && AllOwn(es, t)
    requires T.WellFormed(T.Final(s, [T.Begin(t, call)] + es)) && t in T.Final(s, [T.Begin(t, call)] + es).pcs
    requires T.Final(s, [T.Begin(t, call)] + es).pcs[t] == T.Out
    ensures var f := T.Final(s, [T.Begin(t, call)] + es);
            TallyOf(s, [T.Begin(t, call)] + es, t, y).locks == y.locks + Change(s.kind, call, M.Holds(s.inner, t), M.Holds(f.inner, t))
  {
    var b := T.Begin(t, call);
    assert ([b] + es)[1..] == es;
    BeginView(s, t, call, t);
    FirstIsInside(s.kind, call, T.ViewOf(s, t));
    KindStays(s, b);
    T.InvStep({}, s, b);
    assert {} - T.Wraps(s, b) == {};
    hide T.Apply, T.Enabled, T.Inv, T.First;
    StillInside(T.Apply(s, b), t, call, es, Begun(T.ViewOf(s, t), call, y));
  }

  lemma FirstIsInside(kind: T.Kind, call: T.Call, v: T.View)
    ensures T.First(kind, call, v).pc != T.Out
  {}

  lemma {:induction false} StillInside(s: T.State, t: Tid, call: T.Call, es: seq<T.Event>, y: Tally)
    requires T.Inv({}, s) && T.WellFormed(s) && t in s.pcs && T.IsRun(s, es) && AllOwn(es, t) && s.pcs[t] != T.Out && y.inside == Some(call)
    requires T.WellFormed(T.Final(s, es)) && t in T.Final(s, es).pcs && T.Final(s, es).pcs[t] == T.Out
    ensures TallyOf(s, es, t, y).locks == y.locks + Change(s.kind, call, y.had, M.Holds(T.Final(s, es).inner, t))
    decreases |es|
  {
    var s' := T.Apply(s, es[0]);
    KindStays(s, es[0]);
    OwnStays(s, es[0], t);
    T.InvStep({}, s, es[0]);
    assert {} - T.Wraps(s, es[0]) == {};
    hide T.Apply, T.Enabled, T.Inv;
    if s'.pcs[t] == T.Out {
      NothingFollows(s', es[1..], t);
    } else {
      assert AllOwn(es[1..], t);
      StillInside(s', t, call, es[1..], y);
    }
  }

  lemma OwnStays(s: T.State, e: T.Event, t: Tid)
    requires T.WellFormed(s) && t in s.pcs && T.Enabled(s, e) && OwnEvent(e, t)
    ensures t in T.Apply(s, e).pcs && T.WellFormed(T.Apply(s, e))
  {}

  /** A thread outside has no operation of its own. */
  lemma NothingFollows(s: T.State, es: seq<T.Event>, t: Tid)
    requires T.Inv({}, s) && t in s.pcs && s.pcs[t] == T.Out && T.IsRun(s, es) && AllOwn(es, t)
    ensures es == []
  {
    assert T.ThreadOk({}, s, t);
    assert es != [] ==> OwnEvent(es[0], t);
    hide T.Apply;
  }

  // Calls that are refused leave no trace.

  ghost predicate NoTrace(s: T.State, t: Tid, call: T.Call, steps: nat) {
    exists es :: |es| == steps && AllOwn(es, t) && T.IsRun(s, [T.Begin(t, call)] + es) && T.Final(s, [T.Begin(t, call)] + es) == s
  }

  /** Begin and then the given number of own steps. */
  lemma TwoSteps(s: T.State, b: T.Event, s1: T.State, t: Tid)
    requires b.Begin? && T.Takes(s, b, s1) && T.Takes(s1, T.Step(t), s)
    ensures NoTrace(s, b.t, b.call, 1) || b.t != t
  {
    hide T.Apply, T.Enabled;
    var es := [T.Step(t)];
    OneStep(s1, T.Step(t));
    assert ([b] + es)[1..] == es;
    assert AllOwn(es, t);
  }

  /** Unlocking a recursive or error-checking mutex that one does not own. */
  lemma ForeignUnlock(s: T.State, t: Tid)
    requires T.WellFormed(s) && t in s.pcs && s.pcs[t] == T.Out && s.kind != T.Normal && s.owner != Some(t)
    ensures NoTrace(s, t, T.Unlock, 1)
  {
    var b := T.Begin(t, T.Unlock);
    var s1 := T.Apply(s, b);
    SameAgain(s, s1, t);
    hide NoTrace;
    TwoSteps(s, b, s1, t);
  }

  /** Waiting with one. */
  lemma ForeignWait(s: T.State, t: Tid)
    requires T.WellFormed(s) && t in s.pcs && s.pcs[t] == T.Out && s.kind != T.Normal && s.owner != Some(t)
    ensures NoTrace(s, t, T.Wait, 2)
  {
    var b, e := T.Begin(t, T.Wait), T.Step(t);
    var s1 := T.Apply(s, b);
    var s2 := T.Apply(s1, e);
    assert s2.inner.pc == s.inner.pc && s2.depth == s.depth && s2.pcs == s.pcs[t := T.WaitOwner(s.sent)];
    SameAgain(s, s2, t);
    assert T.Takes(s, b, s1) && T.Takes(s1, e, s2) && T.Takes(s2, e, s);
    hide *;
    ThreeSteps(s, b, s1, s2, t);
  }

  lemma ThreeSteps(s: T.State, b: T.Event, s1: T.State, s2: T.State, t: Tid)
    requires b.Begin? && b.t == t && T.Takes(s, b, s1) && T.Takes(s1, T.Step(t), s2) && T.Takes(s2, T.Step(t), s)
    ensures NoTrace(s, t, b.call, 2)
  {
    hide T.Apply, T.Enabled;
    var e := T.Step(t);
    var es := [e, e];
    OneStep(s2, e);
    assert es[1..] == [e] && ([b] + es)[1..] == es;
    assert T.IsRun(s1, es) && T.Final(s1, es) == T.Final(s2, [e]);
    assert T.IsRun(s, [b] + es) && T.Final(s, [b] + es) == T.Final(s1, es);
    assert AllOwn(es, t);
  }

  /** Locking an error-checking mutex that one owns, in any form. */
  lemma RelockRefused(s: T.State, t: Tid, op: M.Op)
    requires T.WellFormed(s) && t in s.pcs && s.pcs[t] == T.Out && s.kind == T.ErrorCheck && s.owner == Some(t)
    ensures NoTrace(s, t, T.Lock(op), 1)
  {
    var b := T.Begin(t, T.Lock(op));
    var s1 := T.Apply(s, b);
    SameAgain(s, s1, t);
    hide NoTrace;
    TwoSteps(s, b, s1, t);
  }

  lemma SameAgain(s: T.State, s1: T.State, t: Tid)
    requires T.WellFormed(s) && t in s.pcs && t in s1.pcs && s1 == s.(pcs := s1.pcs) && s1.pcs == s.pcs[t := s1.pcs[t]]
    ensures T.WellFormed(s1) && T.WriteBack(s1, t, T.ViewOf(s1, t).(pc := s.pcs[t])) == s
  {
    assert s1.pcs[t := s.pcs[t]] == s.pcs && s.depth[t := s.depth[t]] == s.depth && s.inner.pc[t := s.inner.pc[t]] == s.inner.pc;
  }

  // ------------------------------------------------------------ lock and unlock

  /** Unlocking at depth d, by the caller's own operations: it ends at depth d - 1; at depth 1 the caller then has
      neither the lock nor its name on it, deeper it still owns the mutex and the counter is one less. */
  lemma UnlockAlone(s: T.State, t: Tid) returns (es: seq<T.Event>)
    requires T.Inv({t}, s) && T.WellFormed(s) && t in s.pcs && s.pcs[t] == T.Out && s.depth[t] > 0
    ensures T.IsRun(s, [T.Begin(t, T.Unlock)] + es) && AllOwn(es, t)
    ensures var f := T.Final(s, [T.Begin(t, T.Unlock)] + es);
            && T.WellFormed(f) && T.Inv({t}, f) && t in f.pcs && f.pcs[t] == T.Out && f.depth[t] == s.depth[t] - 1 && Apart(s, f, t)
            && (s.depth[t] == 1 ==> !M.Holds(f.inner, t) && (s.kind != T.Normal ==> f.owner == None))
            && (s.depth[t] > 1 ==> M.Holds(f.inner, t) && f.owner == Some(t) && f.count == s.depth[t] - 1)
  {
    T.InvWeaker({t}, {}, s);
    OwnerAtRest(s, t);
    hide T.Apply, T.Inv, T.IsRun, T.Final, T.Wrapped, AllOwn, Finished;
    es := CallAlone(s, t, T.Unlock);
    AfterCall(s, t, T.Unlock, es);
  }

  /** Locking on a free word, or by the owner of a recursive mutex, in any form: the caller then owns the mutex,
      one deeper than before. */
  lemma LockAlone(s: T.State, t: Tid, op: M.Op) returns (es: seq<T.Event>)
    requires T.Inv({t}, s) && T.WellFormed(s) && t in s.pcs && s.pcs[t] == T.Out
    requires if s.depth[t] == 0 then s.inner.word == 0 else s.kind == T.Recursive && s.depth[t] < U32 - 1
    ensures T.IsRun(s, [T.Begin(t, T.Lock(op))] + es) && AllOwn(es, t)
    ensures var f := T.Final(s, [T.Begin(t, T.Lock(op))] + es);
            && T.WellFormed(f) && T.Inv({t}, f) && t in f.pcs && f.pcs[t] == T.Out && f.depth[t] == s.depth[t] + 1 && M.Holds(f.inner, t)
            && (s.kind != T.Normal ==> f.owner == Some(t)) && (s.kind == T.Recursive ==> f.count == s.depth[t] + 1)
  {
    T.InvWeaker({t}, {}, s);
    OwnerAtRest(s, t);
    hide T.Apply, T.Inv, T.IsRun, T.Final, T.Wrapped, AllOwn, Apart, Finished;
    es := CallAlone(s, t, T.Lock(op));
    AfterCall(s, t, T.Lock(op), es);
  }

  /** Trying, or locking with a deadline already past, while another thread has the lock: the caller comes back
      without it. */
  lemma LockRefused(s: T.State, t: Tid, u: Tid, op: M.Op) returns (es: seq<T.Event>)
    requires T.Inv({t}, s) && T.WellFormed(s) && t in s.pcs && s.pcs[t] == T.Out && op != M.Lock && u != t && M.Holds(s.inner, u)
    ensures T.IsRun(s, [T.Begin(t, T.Lock(op))] + es) && AllOwn(es, t)
    ensures var f := T.Final(s, [T.Begin(t, T.Lock(op))] + es);
            && T.WellFormed(f) && T.Inv({t}, f) && t in f.pcs && f.pcs[t] == T.Out && f.depth[t] == 0 && !M.Holds(f.inner, t) && M.Holds(f.inner, u)
            && (s.kind != T.Normal ==> f.owner != Some(t))
  {
    T.InvWeaker({t}, {}, s);
    OwnerAtRest(s, t);
    assert !M.Holds(s.inner, t);
    hide T.Apply, T.Inv, T.IsRun, T.Final, T.Wrapped, AllOwn, Finished;
    es := CallAlone(s, t, T.Lock(op));
    AfterCall(s, t, T.Lock(op), es);
  }

  lemma OwnerAtRest(s: T.State, t: Tid)
    requires T.Inv({t}, s) && t in s.pcs && s.pcs[t] == T.Out
    ensures M.Holds(s.inner, t) <==> s.depth[t] > 0
    ensures s.kind != T.Normal ==> (s.owner == Some(t) <==> s.depth[t] > 0)
    ensures if s.kind == T.Recursive then s.depth[t] > 0 ==> s.count == s.depth[t] else s.depth[t] <= 1
  {
    assert T.ThreadOk({t}, s, t);
  }

  // ------------------------------------------------------------ the condition variable

  /** An owner that waits gives the lock up by its own operations, whatever its depth, and is ready to sleep on the
      value that the sequence word had, with its depth to come back to. */
  lemma WaitAlone(s: T.State, t: Tid) returns (es: seq<T.Event>)
    requires T.Inv({t}, s) && T.WellFormed(s) && t in s.pcs && s.pcs[t] == T.Out && s.depth[t] > 0
    ensures T.IsRun(s, [T.Begin(t, T.Wait)] + es) && AllOwn(es, t)
    ensures var f := T.Final(s, [T.Begin(t, T.Wait)] + es);
            && t in f.pcs && f.pcs[t] == T.WaitFutex(s.sent, s.depth[t]) && !M.Holds(f.inner, t)
            && (s.kind != T.Normal ==> f.owner == None) && Apart(s, f, t)
  {
    T.InvWeaker({t}, {}, s);
    OwnerAtRest(s, t);
    WaitBegins(s, t);
    hide T.Apply, T.Inv, T.Enabled, T.IsRun, T.Final, T.Wrapped, AllOwn, Finished, GoesThrough, Apart;
    es := CallAlone(s, t, T.Wait);
    var f := T.Final(s, [T.Begin(t, T.Wait)] + es);
    WaitEnds(T.Apply(s, T.Begin(t, T.Wait)), f, t);
    NobodyOwns(s, f, t);
  }

  lemma WaitBegins(s: T.State, t: Tid)
    requires T.WellFormed(s) && t in s.pcs && s.pcs[t] == T.Out && (s.kind == T.Normal || s.owner == Some(t))
    requires s.depth[t] > 0 && (if s.kind == T.Recursive then s.count == s.depth[t] else s.depth[t] <= 1)
    ensures T.Enabled(s, T.Begin(t, T.Wait))
    ensures var s1 := T.Apply(s, T.Begin(t, T.Wait));
            && T.WellFormed(s1) && t in s1.pcs && s1.pcs[t].WaitSeq? && GoesThrough(s1.kind, t, T.ViewOf(s1, t))
            && s1.kind == s.kind && s1.sent == s.sent && s1.count == s.count
  {}

  /** The owner is gone from the lock, and nobody else could take it meanwhile. */
  lemma NobodyOwns(s: T.State, f: T.State, t: Tid)
    requires T.Inv({}, s) && T.Inv({}, f) && Apart(s, f, t) && t in f.pcs && f.pcs[t].WaitFutex? && (s.kind == T.Normal || s.owner == Some(t))
    ensures !M.Holds(f.inner, t) && (s.kind != T.Normal ==> f.owner == None)
  {
    T.WaitReleases({}, f, t);
  }

  /** An owner whose counter has wrapped to zero gives the lock up as well when it waits, but does not sleep, and comes
      back without it. */
  lemma WaitAfterOverflow(s: T.State, t: Tid) returns (es: seq<T.Event>)
    requires T.Inv({}, s) && T.WellFormed(s) && t in s.pcs && s.pcs[t] == T.Out && s.kind == T.Recursive && s.owner == Some(t) && s.count == 0
    ensures T.IsRun(s, [T.Begin(t, T.Wait)] + es) && AllOwn(es, t)
    ensures var f := T.Final(s, [T.Begin(t, T.Wait)] + es); t in f.pcs && f.pcs[t] == T.Out && !M.Holds(f.inner, t)
  {
    var s1 := T.Apply(s, T.Begin(t, T.Wait));
    assert T.Enabled(s, T.Begin(t, T.Wait)) && T.WellFormed(s1) && t in s1.pcs && Fruitless(s1.kind, t, T.ViewOf(s1, t));
    hide T.Apply, T.Inv, T.Enabled, T.IsRun, T.Final, T.Wrapped, AllOwn, Finished, Fruitless, Apart;
    es := CallAlone(s, t, T.Wait);
    WaitEnds(s1, T.Final(s, [T.Begin(t, T.Wait)] + es), t);
  }

  /** A thread that has been woken, or never slept, comes back from its wait by its own operations once the lock is
      free: it owns the mutex at the depth it had. */
  lemma ReturnAlone(s: T.State, t: Tid) returns (es: seq<T.Event>)
    requires T.Inv({t}, s) && T.WellFormed(s) && t in s.pcs && s.pcs[t].WaitAwake? && s.inner.word == 0
    ensures T.IsRun(s, es) && AllOwn(es, t)
    ensures var f := T.Final(s, es);
            && T.WellFormed(f) && t in f.pcs && f.pcs[t] == T.Out && M.Holds(f.inner, t) && f.depth[t] == s.pcs[t].saved
            && (s.kind != T.Normal ==> f.owner == Some(t)) && (s.kind == T.Recursive ==> f.count == s.pcs[t].saved)
  {
    T.InvWeaker({t}, {}, s);
    var y := Tally(s.depth[t], Some(T.Wait), false);
    assert T.ThreadOk({t}, s, t);
    assert Ready(s.inner.word, s.kind, t, T.ViewOf(s, t)) && Fits(s.kind, T.ViewOf(s, t), y) && Calm(s, t);
    assert !Entering(s.pcs[t]) && s.pcs[t].saved == s.depth[t] > 0;
    hide T.Apply, T.Inv, Ready, Fits, Apart, SameWait, T.Wrapped, T.IsRun, T.Final, TallyOf, Locking;
    es := Finish(s, t);
    var f := T.Final(s, es);
    OutsideAgain(s, f, t);
    FitsRun(s, es, t, y);
    StillInside(s, t, T.Wait, es, y);
    Rested(f, t, TallyOf(s, es, t, y));
  }

  lemma Rested(f: T.State, t: Tid, y: Tally)
    requires T.Inv({t}, f) && t in f.pcs && f.pcs[t] == T.Out && 0 < y.locks && Fits(f.kind, T.ViewOf(f, t), y)
    ensures T.WellFormed(f) && M.Holds(f.inner, t) && f.depth[t] == y.locks
    ensures (f.kind != T.Normal ==> f.owner == Some(t)) && (f.kind == T.Recursive ==> f.count == y.locks)
  {
    assert T.ThreadOk({t}, f, t);
  }

  /** A signal ends one sleep if anybody sleeps, a broadcast ends all; both return to their callers. */
  lemma SignalWakes(s: T.State, e: T.Event)
    requires T.WellFormed(s) && T.Enabled(s, e) && (e.WakeOne? || e.WakeAll?)
    ensures var s' := T.Apply(s, e);
            && s'.pcs.Keys == s.pcs.Keys && e.t in s'.pcs && s'.pcs[e.t] == T.Out
            && (e.WakeOne? && e.woken.Some? ==> T.Asleep(s, e.woken.value) && s'.pcs[e.woken.value] == T.WaitAwake(s.pcs[e.woken.value].saved))
            && (e.WakeOne? && e.woken.None? ==> forall u :: !T.Asleep(s, u))
            && (e.WakeOne? ==> forall u :: u in s.pcs && u != e.t && e.woken != Some(u) ==> s'.pcs[u] == s.pcs[u])
            && (e.WakeAll? ==> forall u :: !T.Asleep(s', u))
  {}

  /** A sleep may end on its own, as after a spurious wake or a timeout; the waiter then goes on to take the lock. */
  lemma SleepEnds(s: T.State, u: Tid)
    requires T.WellFormed(s) && T.Asleep(s, u)
    ensures T.Enabled(s, T.Disturb(u)) && T.Apply(s, T.Disturb(u)) == s.(pcs := s.pcs[u := T.WaitAwake(s.pcs[u].saved)])
  {}

  /** A wait sleeps exactly if no signal has changed the word since its snapshot, and a signal changes it. */
  lemma WaitOrGo(kind: T.Kind, t: Tid, v: T.View)
    requires v.pc.WaitFutex?
    ensures T.Next(kind, t, v).pc.WaitAsleep? <==> v.sent % U32 == v.pc.at % U32
    ensures !T.Next(kind, t, v).pc.WaitAsleep? ==> T.Next(kind, t, v).pc == T.WaitAwake(v.pc.saved)
  {}

  // ------------------------------------------------------------ the counter of a free mutex

  /** The thread has the futex lock and only its release is left, or that and the owner field in a wait. */
  predicate Releasing(v: T.View) { (v.pc.UnlockInner? || v.pc.WaitUnlock? || v.pc.WaitClearOwner?) && v.ipc == M.Held }

  /** The counter is then zero. */
  predicate ClearFor(v: T.View) { Releasing(v) ==> v.count == 0 }

  ghost predicate Cleared(s: T.State) {
    T.WellFormed(s) && (s.kind == T.Recursive ==> forall t :: t in s.pcs ==> ClearFor(T.ViewOf(s, t)))
  }

  lemma NextClears(t: Tid, v: T.View)
    requires T.OwnStep(v.pc) && T.Local(false, T.Recursive, t, v) && ClearFor(v)
    ensures var w := T.Next(T.Recursive, t, v); ClearFor(w) && (w.count != v.count ==> v.ipc == M.Held)
  {}

  lemma ResumeClears(t: Tid, v: T.View, ipc: M.Pc)
    requires T.InInner(v.pc) && T.InnerMove(v.ipc, ipc) && T.Local(false, T.Recursive, t, v)
    ensures ClearFor(T.Resume(T.Recursive, v.(ipc := ipc)))
  {}

  /** The counter changes only by a step of the thread that has the lock. */
  lemma CountStays(s: T.State, e: T.Event)
    requires T.Inv({}, s) && T.Enabled(s, e) && s.kind == T.Recursive && (e.Step? ==> ClearFor(T.ViewOf(s, e.t)))
    ensures T.Apply(s, e).count != s.count ==> e.Step? && M.Holds(s.inner, e.t)
  {
    if e.Step? {
      assert T.ThreadOk({}, s, e.t);
      NextClears(e.t, T.ViewOf(s, e.t));
      hide T.Next, T.Local;
    } else if e.Inner? && !e.e.Disturb? {
      InnerFrame(s, e.e);
    } else if T.IsWake(e) {
      T.WakeFrame(s, e);
    }
  }

  lemma ClearedFor(s: T.State, e: T.Event, t: Tid)
    requires T.Inv({}, s) && T.Enabled(s, e) && s.kind == T.Recursive && Cleared(s) && t in s.pcs
    ensures var s' := T.Apply(s, e); T.WellFormed(s') && t in s'.pcs && ClearFor(T.ViewOf(s', t))
  {
    var v := T.ViewOf(s, t);
    assert T.ThreadOk({}, s, t) && ClearFor(v);
    CountStays(s, e);
    assert M.Holds(s.inner, t) && e.Step? && M.Holds(s.inner, e.t) ==> e.t == t;
    hide T.Local, T.Apply, M.Apply, M.Inv, T.First, T.Next, T.Resume, T.InnerMove, T.Inv;
    match e {
      case Begin(u, call) =>
        BeginView(s, u, call, t);
        if u == t { FirstClears(call, v); }
      case Step(u) =>
        StepView(s, u, t);
        if u == t { NextClears(t, v); }
      case Inner(e) =>
        if e.Disturb? {
          DisturbView(s, e.u, e.timedOut, t);
        } else {
          InnerView(s, e, t);
          if e.t == t { ResumeClears(t, v, M.Apply(s.inner, e).pc[t]); }
        }
      case _ =>
        WakeIsPassive(s, e, t);
    }
  }

  lemma FirstClears(call: T.Call, v: T.View)
    ensures !Releasing(T.First(T.Recursive, call, v))
  {}

  lemma ThreadsStay(s: T.State, e: T.Event)
    requires T.Inv({}, s) && T.Enabled(s, e)
    ensures T.Apply(s, e).pcs.Keys == s.pcs.Keys
  {
    if e.Inner? && !e.e.Disturb? {
      InnerFrame(s, e.e);
    } else if T.IsWake(e) {
      T.WakeFrame(s, e);
    }
  }

  lemma {:induction false} ClearedRun(s: T.State, es: seq<T.Event>)
    requires T.Inv({}, s) && T.IsRun(s, es) && Cleared(s)
    ensures Cleared(T.Final(s, es))
    decreases |es|
  {
    if es != [] {
      var s' := T.Apply(s, es[0]);
      KindStays(s, es[0]);
      T.InvStep({}, s, es[0]);
      assert {} - T.Wraps(s, es[0]) == {};
      if s.kind == T.Recursive {
        forall t | t in s'.pcs ensures ClearFor(T.ViewOf(s', t)) {
          ThreadsStay(s, es[0]);
          ClearedFor(s, es[0], t);
        }
      }
      hide T.Apply, T.Enabled, T.Inv;
      ClearedRun(s', es[1..]);
    }
  }

  /** In every run, overflows included, a recursive mutex is released with its counter at zero. */
  lemma ReleasedAtZero(s: T.State, es: seq<T.Event>, t: Tid)
    requires T.Init(s) && T.IsRun(s, es) && s.kind == T.Recursive && t in T.Final(s, es).pcs
    ensures var f := T.Final(s, es);
            T.WellFormed(f) && (M.Holds(f.inner, t) && (f.pcs[t].UnlockInner? || f.pcs[t].WaitUnlock?) ==> f.count == 0)
  {
    T.InitInv({}, s);
    assert Cleared(s);
    ClearedRun(s, es);
    KindsStay(s, es);
    assert ClearFor(T.ViewOf(T.Final(s, es), t));
  }

  lemma {:induction false} KindsStay(s: T.State, es: seq<T.Event>)
    requires T.Inv({}, s) && T.IsRun(s, es)
    ensures T.Final(s, es).kind == s.kind
    decreases |es|
  {
    if es != [] {
      KindStays(s, es[0]);
      T.InvStep({}, s, es[0]);
      assert {} - T.Wraps(s, es[0]) == {};
      hide T.Apply, T.Enabled, T.Inv;
      KindsStay(T.Apply(s, es[0]), es[1..]);
    }
  }
}

/** Typed mutexes (normal, recursive, error-checking) together with the condition variable.

    The futex word is the lock of module `Mutex`, driven by its own events; this layer adds the
    `owner` and `count` fields, the sequence counter and the threads asleep on it.  One event is
    one atomic operation.  Thread identifiers are distinct. */
module TypedMutex {
  import opened Common
  import M = Mutex

  type Tid = M.Tid

  datatype Kind = Normal | Recursive | ErrorCheck

  datatype Call = Lock(op: M.Op) | Unlock | Wait | Signal(all: bool)

  datatype Pc =
    | Out
    | LockOwner(op: M.Op)                 // owner.load of lock, try_lock or lock_timeout
    | LockBump                            // count.fetch_add(1)
    | LockInner                           // inside the futex acquisition
    | LockStoreOwner                      // owner.store(tid)
    | LockStoreCount                      // count.store(1)
    | UnlockOwner                         // owner.load of unlock
    | UnlockSub                           // count.fetch_sub(1)
    | UnlockClearOwner                    // owner.store(MAX)
    | UnlockClearCount                    // count.store(0)
    | UnlockInner                         // inside the futex release
    | WaitSeq                             // seq.load of wait_typed
    | WaitOwner(at: nat)                  // owner.load of condvar_unlock
    | WaitSwapCount(at: nat)              // count.swap(0)
    | WaitClearOwner(at: nat, saved: nat) // owner.store(MAX)
    | WaitUnlock(at: nat, saved: nat)     // inside the futex release
    | WaitFutex(at: nat, saved: nat)      // futex_wait(seq, snapshot)
    | WaitAsleep(at: nat, saved: nat, slept: nat)
    | WaitAwake(saved: nat)               // about to call condvar_relock
    | Relock(saved: nat)                  // inside the futex acquisition
    | RestoreOwner(saved: nat)            // owner.store(tid)
    | RestoreCount(saved: nat)            // count.store(saved)
    | SignalAdd(all: bool)                // seq.fetch_add(1)
    | SignalWake(all: bool, index: nat)   // futex_wake

  /** `sent` counts every signal and broadcast ever issued: the futex word holds `sent % U32`, and
      the code never looks at more.  `at` in a program counter is the value of `sent` when the
      thread loaded the word, `slept` its value when the thread fell asleep.  `done` is the
      highest index of a broadcast whose wake has been issued.  `depth` is how many times a
      thread has locked and not yet unlocked, as its caller counts. */
  datatype State = State(
    kind: Kind, inner: M.State, owner: Option<Tid>, count: nat, sent: nat, done: nat,
    pcs: map<Tid, Pc>, depth: map<Tid, nat>)

  datatype Event =
    | Begin(t: Tid, call: Call)
    | Step(t: Tid)
    | Inner(e: M.Event)
    | WakeOne(t: Tid, woken: Option<Tid>)
    | WakeAll(t: Tid)
    | Disturb(u: Tid)

  ghost predicate WellFormed(s: State) {
    s.pcs.Keys == s.inner.pc.Keys == s.depth.Keys
  }

  /** What one thread sees: its own position, futex operation and depth, and the shared words. */
  datatype View = View(pc: Pc, ipc: M.Pc, depth: nat, owner: Option<Tid>, count: nat, sent: nat)

  ghost function ViewOf(s: State, t: Tid): View
    requires WellFormed(s) && t in s.pcs
  {
    View(s.pcs[t], s.inner.pc[t], s.depth[t], s.owner, s.count, s.sent)
  }

  ghost function WriteBack(s: State, t: Tid, v: View): State {
    s.(pcs := s.pcs[t := v.pc], depth := s.depth[t := v.depth], owner := v.owner, count := v.count, sent := v.sent,
       inner := s.inner.(pc := s.inner.pc[t := v.ipc]))
  }

  // ------------------------------------------------- atomic operations of a thread

  predicate IsLockPc(pc: Pc) { pc.LockOwner? || pc.LockBump? || pc.LockStoreOwner? || pc.LockStoreCount? }

  predicate IsUnlockPc(pc: Pc) { pc.UnlockOwner? || pc.UnlockSub? || pc.UnlockClearOwner? || pc.UnlockClearCount? }

  predicate IsWaitPc(pc: Pc) { pc.WaitSeq? || pc.WaitOwner? || pc.WaitSwapCount? || pc.WaitClearOwner? || pc.WaitFutex? }

  predicate IsReturnPc(pc: Pc) { pc.WaitAwake? || pc.RestoreOwner? || pc.RestoreCount? || pc.SignalAdd? }

  predicate OwnStep(pc: Pc) { IsLockPc(pc) || IsUnlockPc(pc) || IsWaitPc(pc) || IsReturnPc(pc) }

  /** An atomic operation of lock, try_lock or lock_timeout. */
  function LockNext(kind: Kind, t: Tid, v: View): View
    requires IsLockPc(v.pc)
  {
    match v.pc
    case LockOwner(op) =>
      if kind == Normal || v.owner != Some(t) then v.(ipc := M.EntryPc(op), pc := LockInner)
      else if kind == Recursive then v.(pc := LockBump)
      else v.(pc := Out)
    case LockBump => v.(count := (v.count + 1) % U32, depth := v.depth + 1, pc := Out)
    case LockStoreOwner =>
      if kind == Recursive then v.(owner := Some(t), pc := LockStoreCount)
      else v.(owner := Some(t), depth := 1, pc := Out)
    case LockStoreCount => v.(count := 1, depth := 1, pc := Out)
  }

  /** An atomic operation of unlock. */
  function UnlockNext(kind: Kind, t: Tid, v: View): View
    requires IsUnlockPc(v.pc)
  {
    match v.pc
    case UnlockOwner =>
      if v.owner != Some(t) then v.(pc := Out)
      else if kind == Recursive then v.(pc := UnlockSub)
      else v.(depth := 0, pc := UnlockClearOwner)
    case UnlockSub =>
      v.(count := (v.count + U32 - 1) % U32, depth := if v.depth == 0 then 0 else v.depth - 1,
         pc := if v.count <= 1 then UnlockClearOwner else Out)
    case UnlockClearOwner =>
      v.(owner := None, pc := if kind == Recursive then UnlockClearCount else UnlockInner)
    case UnlockClearCount => v.(count := 0, pc := UnlockInner)
  }

  /** An atomic operation of wait_typed up to and including the futex wait. */
  function WaitNext(kind: Kind, t: Tid, v: View): View
    requires IsWaitPc(v.pc)
  {
    match v.pc
    case WaitSeq => v.(pc := if kind == Normal then WaitUnlock(v.sent, 1) else WaitOwner(v.sent))
    case WaitOwner(at) =>
      if v.owner != Some(t) then v.(pc := Out)
      else if kind == Recursive then v.(pc := WaitSwapCount(at))
      else v.(pc := WaitClearOwner(at, 1))
    case WaitSwapCount(at) => v.(count := 0, pc := WaitClearOwner(at, v.count))
    case WaitClearOwner(at, saved) => v.(owner := None, pc := WaitUnlock(at, saved))
    case WaitFutex(at, saved) =>
      v.(pc := if v.sent % U32 == at % U32 then WaitAsleep(at, saved, v.sent) else WaitAwake(saved))
  }

  /** An atomic operation of the return from the wait, or the increment of a signal. */
  function ReturnNext(kind: Kind, t: Tid, v: View): View
    requires IsReturnPc(v.pc)
  {
    match v.pc
    case WaitAwake(saved) => v.(ipc := M.EntryPc(M.Lock), pc := Relock(saved))
    case RestoreOwner(saved) => v.(owner := Some(t), pc := if kind == Recursive then RestoreCount(saved) else Out)
    case RestoreCount(saved) => v.(count := saved, pc := Out)
    case SignalAdd(all) => v.(sent := v.sent + 1, pc := SignalWake(all, v.sent + 1))
  }

  function Next(kind: Kind, t: Tid, v: View): View
    requires OwnStep(v.pc)
  {
    if IsLockPc(v.pc) then LockNext(kind, t, v)
    else if IsUnlockPc(v.pc) then UnlockNext(kind, t, v)
    else if IsWaitPc(v.pc) then WaitNext(kind, t, v)
    else ReturnNext(kind, t, v)
  }

  predicate InInner(pc: Pc) { pc.LockInner? || pc.UnlockInner? || pc.WaitUnlock? || pc.Relock? }

  /** How the caller continues once its futex operation has moved on to `v.ipc`. */
  function Resume(kind: Kind, v: View): View
    requires InInner(v.pc)
  {
    match v.pc
    case LockInner =>
      if v.ipc == M.Held then (if kind == Normal then v.(depth := 1, pc := Out) else v.(pc := LockStoreOwner))
      else if v.ipc == M.Idle then v.(pc := Out)
      else v
    case UnlockInner => if v.ipc == M.Idle then v.(pc := Out) else v
    case WaitUnlock(at, saved) =>
      if v.ipc != M.Idle then v else v.(pc := if saved == 0 then Out else WaitFutex(at, saved))
    case Relock(saved) => if v.ipc == M.Held then v.(pc := RestoreOwner(saved)) else v
  }

  function First(kind: Kind, call: Call, v: View): View {
    match call
    case Lock(op) => v.(pc := LockOwner(op))
    case Unlock => if kind == Normal then v.(depth := 0, pc := UnlockInner) else v.(pc := UnlockOwner)
    case Wait => v.(pc := WaitSeq)
    case Signal(all) => v.(pc := SignalAdd(all))
  }

  // --------------------------------------------------------- the whole system

  ghost predicate Asleep(s: State, t: Tid) { t in s.pcs && s.pcs[t].WaitAsleep? }

  ghost predicate Enabled(s: State, e: Event)
    requires WellFormed(s)
  {
    match e
    case Begin(t, call) =>
      && t in s.pcs && s.pcs[t] == Out
      // A normal mutex checks nothing: its callers lock it when they do not have it, and unlock
      // it or wait when they do.
      && (s.kind == Normal && call.Lock? ==> s.depth[t] == 0)
      && (s.kind == Normal && (call.Unlock? || call.Wait?) ==> s.depth[t] > 0)
    case Step(t) => t in s.pcs && OwnStep(s.pcs[t])
    case Inner(e) => !e.Begin? && M.Enabled(s.inner, e) && (e.Run? || e.Wake? ==> InInner(s.pcs[e.t]))
    case WakeOne(t, None) => t in s.pcs && s.pcs[t].SignalWake? && !s.pcs[t].all && forall u :: !Asleep(s, u)
    case WakeOne(t, Some(u)) => t in s.pcs && s.pcs[t].SignalWake? && !s.pcs[t].all && Asleep(s, u)
    case WakeAll(t) => t in s.pcs && s.pcs[t].SignalWake? && s.pcs[t].all
    case Disturb(u) => Asleep(s, u)
  }

  function Awaken(pc: Pc): Pc { if pc.WaitAsleep? then WaitAwake(pc.saved) else pc }

  ghost function Apply(s: State, e: Event): State
    requires WellFormed(s) && Enabled(s, e)
  {
    match e
    case Begin(t, call) => WriteBack(s, t, First(s.kind, call, ViewOf(s, t)))
    case Step(t) => WriteBack(s, t, Next(s.kind, t, ViewOf(s, t)))
    case Inner(e) =>
      var s1 := s.(inner := M.Apply(s.inner, e));
      if e.Disturb? then s1 else WriteBack(s1, e.t, Resume(s.kind, ViewOf(s1, e.t)))
    case WakeOne(t, None) => s.(pcs := s.pcs[t := Out])
    case WakeOne(t, Some(u)) => s.(pcs := s.pcs[t := Out][u := Awaken(s.pcs[u])])
    case WakeAll(t) =>
      var i := s.pcs[t].index;
      s.(pcs := (map u | u in s.pcs :: Awaken(s.pcs[u]))[t := Out], done := if s.done < i then i else s.done)
    case Disturb(u) => s.(pcs := s.pcs[u := Awaken(s.pcs[u])])
  }

  /** The recursion counter is at its maximum and a thread is about to add one. */
  ghost predicate Overflows(s: State, e: Event) {
    e.Step? && e.t in s.pcs && s.pcs[e.t].LockBump? && s.count == U32 - 1
  }

  /** The thread whose counter overflows in this step, if one does. */
  ghost function Wraps(s: State, e: Event): set<Tid> { if Overflows(s, e) then {e.t} else {} }

  ghost predicate IsRun(s: State, es: seq<Event>)
    decreases |es|
  {
    WellFormed(s) && (es == [] || (Enabled(s, es[0]) && IsRun(Apply(s, es[0]), es[1..])))
  }

  ghost function Final(s: State, es: seq<Event>): State
    requires IsRun(s, es)
    decreases |es|
  {
    if es == [] then s else Final(Apply(s, es[0]), es[1..])
  }

  /** The threads that nest a recursive lock 2^32 deep in the course of a run. */
  ghost function Wrapped(s: State, es: seq<Event>): set<Tid>
    requires IsRun(s, es)
    decreases |es|
  {
    if es == [] then {} else Wraps(s, es[0]) + Wrapped(Apply(s, es[0]), es[1..])
  }

  ghost predicate Init(s: State) {
    && WellFormed(s) && M.Init(s.inner)
    && s.owner == None && s.count == 0 && s.sent == 0 && s.done == 0
    && (forall t :: t in s.pcs ==> s.pcs[t] == Out && s.depth[t] == 0)
  }

  // ------------------------------------------------------------ the invariant

  predicate Acquiring(ipc: M.Pc) { ipc != M.Idle && ipc != M.Held && ipc != M.WakeDue }

  /** Inside the blocking acquisition, which has no way out without the lock. */
  predicate Locking(ipc: M.Pc) {
    ipc == M.LockFast || ipc.SpinLoad? || ipc.SpinCas? || ipc == M.LockSwap || ipc == M.LockWait || ipc == M.LockAsleep
  }

  predicate Releasing(ipc: M.Pc) { ipc == M.Held || ipc == M.WakeDue }

  predicate Mine(t: Tid, v: View) { v.owner == Some(t) }

  // A thread that has once nested 2^32 locks of a recursive mutex has lost count; what is said of its depth
  // and of the counter is said of `exact` threads only.

  predicate Counted(exact: bool, kind: Kind) { exact || kind != Recursive }

  predicate NoDepth(exact: bool, kind: Kind, v: View) { Counted(exact, kind) ==> v.depth == 0 }

  /** The thread owns the lock at its depth and every field says so. */
  predicate Owned(exact: bool, kind: Kind, t: Tid, v: View) {
    && v.ipc == M.Held
    && (kind != Normal ==> Mine(t, v))
    && (Counted(exact, kind) ==> 0 < v.depth)
    && (kind != Recursive ==> v.depth == 1)
    && (exact && kind == Recursive ==> v.count == v.depth < U32)
  }

  predicate NotOwner(kind: Kind, t: Tid, v: View) { kind != Normal ==> !Mine(t, v) }

  /** The thread has nothing to do with the lock. */
  predicate Free(exact: bool, kind: Kind, t: Tid, v: View) {
    v.ipc == M.Idle && NotOwner(kind, t, v) && NoDepth(exact, kind, v)
  }

  /** What holds between two calls of `t`. */
  predicate AtRest(exact: bool, kind: Kind, t: Tid, v: View) { Free(exact, kind, t, v) || Owned(exact, kind, t, v) }

  /** The thread carries the depth it comes back to. */
  predicate Saved(exact: bool, kind: Kind, v: View, saved: nat) {
    && (Counted(exact, kind) ==> 0 < saved < U32 && saved == v.depth)
    && (kind != Recursive ==> saved == 1)
  }

  predicate Local(exact: bool, kind: Kind, t: Tid, v: View) {
    match v.pc
    case Out => AtRest(exact, kind, t, v)
    case LockOwner(_) => AtRest(exact, kind, t, v) && (kind == Normal ==> v.depth == 0)
    case LockBump => kind == Recursive && Owned(exact, kind, t, v)
    case LockInner => Acquiring(v.ipc) && NoDepth(exact, kind, v) && NotOwner(kind, t, v)
    case LockStoreOwner => kind != Normal && v.ipc == M.Held && NoDepth(exact, kind, v) && !Mine(t, v)
    case LockStoreCount => kind == Recursive && v.ipc == M.Held && NoDepth(exact, kind, v) && Mine(t, v)
    case UnlockOwner => kind != Normal && AtRest(exact, kind, t, v)
    case UnlockSub => kind == Recursive && Owned(exact, kind, t, v)
    case UnlockClearOwner => kind != Normal && v.ipc == M.Held && NoDepth(exact, kind, v) && Mine(t, v)
    case UnlockClearCount => kind == Recursive && v.ipc == M.Held && NoDepth(exact, kind, v) && !Mine(t, v)
    case UnlockInner => Releasing(v.ipc) && NoDepth(exact, kind, v) && NotOwner(kind, t, v)
    case WaitSeq => AtRest(exact, kind, t, v) && (kind == Normal ==> v.depth > 0)
    case WaitOwner(_) => kind != Normal && AtRest(exact, kind, t, v)
    case WaitSwapCount(_) => kind == Recursive && Owned(exact, kind, t, v)
    case WaitClearOwner(_, saved) => kind != Normal && v.ipc == M.Held && Mine(t, v) && Saved(exact, kind, v, saved)
    case WaitUnlock(_, saved) => Releasing(v.ipc) && NotOwner(kind, t, v) && Saved(exact, kind, v, saved)
    case WaitFutex(_, saved) => v.ipc == M.Idle && NotOwner(kind, t, v) && Saved(exact, kind, v, saved)
    case WaitAsleep(_, saved, _) => v.ipc == M.Idle && NotOwner(kind, t, v) && Saved(exact, kind, v, saved)
    case WaitAwake(saved) => v.ipc == M.Idle && NotOwner(kind, t, v) && Saved(exact, kind, v, saved)
    case Relock(saved) => Locking(v.ipc) && NotOwner(kind, t, v) && Saved(exact, kind, v, saved)
    case RestoreOwner(saved) => v.ipc == M.Held && NotOwner(kind, t, v) && Saved(exact, kind, v, saved)
    case RestoreCount(saved) => kind == Recursive && v.ipc == M.Held && Mine(t, v) && Saved(exact, kind, v, saved)
    case SignalAdd(_) => AtRest(exact, kind, t, v)
    case SignalWake(_, _) => AtRest(exact, kind, t, v)
  }

  /** The thread carries a snapshot of the sequence counter. */
  predicate Snapshot(pc: Pc) {
    pc.WaitOwner? || pc.WaitSwapCount? || pc.WaitClearOwner? || pc.WaitUnlock? || pc.WaitFutex? || pc.WaitAsleep?
  }

  /** Whoever sleeps on the sequence word fell asleep on a value that looked current, and no
      broadcast has been completed since. */
  predicate Recent(done: nat, sent: nat, pc: Pc) {
    && done <= sent
    && (pc.SignalWake? ==> pc.index <= sent)
    && (Snapshot(pc) ==> pc.at <= sent)
    && (pc.WaitAsleep? ==> done <= pc.slept && pc.at <= pc.slept <= sent && pc.slept % U32 == pc.at % U32)
  }

  ghost predicate ThreadOk(exact: set<Tid>, s: State, t: Tid)
    requires WellFormed(s) && t in s.pcs
  {
    Local(t in exact, s.kind, t, ViewOf(s, t)) && Recent(s.done, s.sent, s.pcs[t])
  }

  /** A recorded owner has the futex lock. */
  ghost predicate OwnerHolds(s: State) {
    s.kind != Normal && s.owner.Some? ==> M.Holds(s.inner, s.owner.value)
  }

  ghost predicate Inv(exact: set<Tid>, s: State) {
    && WellFormed(s)
    && M.Inv(s.inner)
    && OwnerHolds(s)
    && (forall t :: t in s.pcs ==> ThreadOk(exact, s, t))
  }

  // ------------------------------------------------------ one thread, by cases

  /** The shared words change only in the hands of the thread that has the futex lock. */
  predicate Discreet(kind: Kind, t: Tid, v: View, v': View) {
    && (v'.owner == v.owner || (v.ipc == M.Held && (v'.owner == None || Mine(t, v'))))
    && (v'.count == v.count || v.ipc == M.Held)
    && v.sent <= v'.sent
    && (v'.ipc == v.ipc || (v.ipc == M.Idle && (v'.ipc == M.LockFast || v'.ipc == M.TimedFast || v'.ipc == M.TryFast)))
    && (v.ipc == M.Held || !Mine(t, v) ==> Mine(t, v') ==> v'.ipc == M.Held)
  }

  lemma LockNextOk(exact: bool, kind: Kind, t: Tid, v: View)
    requires IsLockPc(v.pc) && Local(exact, kind, t, v)
    requires exact && v.pc.LockBump? ==> v.count != U32 - 1
    ensures Local(exact, kind, t, LockNext(kind, t, v)) && Discreet(kind, t, v, LockNext(kind, t, v))
  {}

  lemma UnlockNextOk(exact: bool, kind: Kind, t: Tid, v: View)
    requires IsUnlockPc(v.pc) && Local(exact, kind, t, v)
    ensures Local(exact, kind, t, UnlockNext(kind, t, v)) && Discreet(kind, t, v, UnlockNext(kind, t, v))
  {}

  lemma WaitNextOk(exact: bool, kind: Kind, t: Tid, v: View)
    requires IsWaitPc(v.pc) && Local(exact, kind, t, v)
    ensures Local(exact, kind, t, WaitNext(kind, t, v)) && Discreet(kind, t, v, WaitNext(kind, t, v))
  {}

  lemma ReturnNextOk(exact: bool, kind: Kind, t: Tid, v: View)
    requires IsReturnPc(v.pc) && Local(exact, kind, t, v)
    ensures Local(exact, kind, t, ReturnNext(kind, t, v)) && Discreet(kind, t, v, ReturnNext(kind, t, v))
  {}

  /** What is known of an exact thread holds of it in any case. */
  lemma LocalWeaker(kind: Kind, t: Tid, v: View)
    requires Local(true, kind, t, v)
    ensures Local(false, kind, t, v)
  {}

  lemma NextRecent(kind: Kind, t: Tid, v: View, done: nat)
    requires OwnStep(v.pc) && Recent(done, v.sent, v.pc)
    ensures Recent(done, Next(kind, t, v).sent, Next(kind, t, v).pc)
  {}

  /** What another thread relies on does not include the parts a discreet step changes. */
  lemma LocalStable(exact: bool, kind: Kind, u: Tid, v: View, w: View)
    requires Local(exact, kind, u, v)
    requires w.pc == v.pc && w.ipc == v.ipc && w.depth == v.depth
    requires kind != Normal ==> (Mine(u, v) <==> Mine(u, w))
    requires v.count == w.count || v.ipc != M.Held
    ensures Local(exact, kind, u, w)
  {}

  // ------------------------------------------------------------ all the threads

  /** Another thread's part of the invariant does not see a discreet step of thread t. */
  lemma OthersKept(exact: set<Tid>, s: State, t: Tid, v: View, u: Tid)
    requires Inv(exact, s) && t in s.pcs && u in s.pcs && u != t && Discreet(s.kind, t, ViewOf(s, t), v)
    requires M.Inv(WriteBack(s, t, v).inner)
    ensures ThreadOk(exact, WriteBack(s, t, v), u)
  {
    hide Local;
    assert ThreadOk(exact, s, u);
    if s.inner.pc[t] == M.Held { assert M.Holds(s.inner, t); }
    if s.inner.pc[u] == M.Held { assert M.Holds(s.inner, u); }
    LocalStable(u in exact, s.kind, u, ViewOf(s, u), ViewOf(WriteBack(s, t, v), u));
  }

  lemma OwnerKept(exact: set<Tid>, s: State, t: Tid, v: View)
    requires Inv(exact, s) && t in s.pcs && Discreet(s.kind, t, ViewOf(s, t), v)
    requires M.Inv(WriteBack(s, t, v).inner)
    ensures OwnerHolds(WriteBack(s, t, v))
  {
    hide Local, Recent;
    assert ThreadOk(exact, s, t);
    if s.inner.pc[t] == M.Held { assert M.Holds(s.inner, t); }
  }

  lemma WriteBackOk(exact: set<Tid>, s: State, t: Tid, v: View)
    requires Inv(exact, s) && t in s.pcs
    requires Local(t in exact, s.kind, t, v) && Recent(s.done, v.sent, v.pc) && Discreet(s.kind, t, ViewOf(s, t), v)
    requires M.Inv(WriteBack(s, t, v).inner)
    ensures Inv(exact, WriteBack(s, t, v))
  {
    hide Local, Recent, OwnerHolds, Discreet;
    var s' := WriteBack(s, t, v);
    OwnerKept(exact, s, t, v);
    forall u | u in s'.pcs
      ensures ThreadOk(exact, s', u)
    {
      if u == t {
        assert ViewOf(s', t) == v;
      } else {
        OthersKept(exact, s, t, v, u);
      }
    }
  }

  lemma FirstOk(exact: bool, kind: Kind, t: Tid, call: Call, v: View)
    requires v.pc == Out && Local(exact, kind, t, v)
    requires kind == Normal && call.Lock? ==> v.depth == 0
    requires kind == Normal && (call.Unlock? || call.Wait?) ==> v.depth > 0
    ensures var w := First(kind, call, v);
            && Local(exact, kind, t, w) && Discreet(kind, t, v, w) && w.ipc == v.ipc
            && w.sent == v.sent && !w.pc.SignalWake? && !Snapshot(w.pc) && !w.pc.WaitAsleep?
  {
    match call
    case Lock(_) =>
    case Unlock =>
    case Wait =>
    case Signal(_) =>
  }

  lemma BeginKeepsInv(exact: set<Tid>, s: State, t: Tid, call: Call)
    requires Inv(exact, s) && Enabled(s, Begin(t, call))
    ensures Inv(exact, Apply(s, Begin(t, call)))
  {
    hide Local, Discreet, First;
    assert ThreadOk(exact, s, t);
    FirstOk(t in exact, s.kind, t, call, ViewOf(s, t));
    var v := First(s.kind, call, ViewOf(s, t));
    assert s.inner.pc[t := v.ipc] == s.inner.pc;
    WriteBackOk(exact, s, t, v);
  }

  lemma InvWeaker(exact: set<Tid>, fewer: set<Tid>, s: State)
    requires Inv(exact, s) && fewer <= exact
    ensures Inv(fewer, s)
  {
    hide Local, Recent, OwnerHolds;
    forall t | t in s.pcs ensures ThreadOk(fewer, s, t) {
      assert ThreadOk(exact, s, t);
      if t in exact { LocalWeaker(s.kind, t, ViewOf(s, t)); }
    }
  }

  lemma StepKeepsInv(exact: set<Tid>, s: State, t: Tid)
    requires Inv(exact, s) && Enabled(s, Step(t)) && (Overflows(s, Step(t)) ==> t !in exact)
    ensures Inv(exact, Apply(s, Step(t)))
  {
    var v := ViewOf(s, t);
    assert ThreadOk(exact, s, t);
    if IsLockPc(v.pc) { LockNextOk(t in exact, s.kind, t, v); }
    else if IsUnlockPc(v.pc) { UnlockNextOk(t in exact, s.kind, t, v); }
    else if IsWaitPc(v.pc) { WaitNextOk(t in exact, s.kind, t, v); }
    else { ReturnNextOk(t in exact, s.kind, t, v); }
    NextRecent(s.kind, t, v, s.done);
    var v' := Next(s.kind, t, v);
    EntryKeepsMutexInv(s.inner, t, v'.ipc);
    WriteBackOk(exact, s, t, v');
  }

  /** Entering the futex acquisition, or not touching it, keeps the mutex invariant. */
  lemma EntryKeepsMutexInv(m: M.State, t: Tid, ipc: M.Pc)
    requires M.Inv(m) && t in m.pc
    requires ipc == m.pc[t] || (m.pc[t] == M.Idle && (ipc == M.LockFast || ipc == M.TimedFast || ipc == M.TryFast))
    ensures M.Inv(m.(pc := m.pc[t := ipc]))
  {
    if ipc == m.pc[t] {
      assert m.pc[t := ipc] == m.pc;
    } else {
      var op := if ipc == M.LockFast then M.Lock else if ipc == M.TimedFast then M.LockTimeout else M.TryLock;
      M.InvStep(m, M.Begin(t, op));
    }
  }

  /** The futex operation of the caller moved on: the caller's own position follows it. */
  lemma ResumeOk(exact: bool, kind: Kind, t: Tid, v: View, ipc: M.Pc)
    requires InInner(v.pc) && Local(exact, kind, t, v)
    requires Acquiring(v.ipc) ==> ipc != M.WakeDue
    requires Locking(v.ipc) ==> Locking(ipc) || ipc == M.Held
    requires v.ipc == M.Held ==> ipc == M.WakeDue || ipc == M.Idle
    requires v.ipc == M.WakeDue ==> ipc == M.Idle
    ensures Local(exact, kind, t, Resume(kind, v.(ipc := ipc)))
    ensures var v' := Resume(kind, v.(ipc := ipc));
            v'.ipc == ipc && v'.owner == v.owner && v'.count == v.count && v'.sent == v.sent
  {}

  /** A sleeper on the futex word that comes back keeps what it relied on. */
  lemma AwakenedOk(exact: bool, kind: Kind, u: Tid, v: View, timedOut: bool)
    requires Local(exact, kind, u, v) && M.Sleeping(v.ipc)
    ensures Local(exact, kind, u, v.(ipc := M.Awakened(v.ipc, timedOut)))
  {}

  /** So does a sleeper on the sequence word, and a thread that has issued its wake. */
  lemma WokenOk(exact: bool, kind: Kind, u: Tid, v: View)
    requires Local(exact, kind, u, v)
    ensures Local(exact, kind, u, v.(pc := Awaken(v.pc)))
    ensures v.pc.SignalWake? ==> Local(exact, kind, u, v.(pc := Out))
  {}

  /** A futex operation that leaves the rest of the system alone, followed by its caller. */
  ghost predicate InnerMove(i: M.Pc, i': M.Pc) {
    && (Acquiring(i) ==> i' != M.WakeDue)
    && (Locking(i) ==> Locking(i') || i' == M.Held)
    && (i == M.Held ==> i' == M.WakeDue || i' == M.Idle)
    && (i == M.WakeDue ==> i' == M.Idle)
  }

  ghost predicate SameOrAwakened(i: M.Pc, i': M.Pc) {
    i' == i || (M.Sleeping(i) && i' == M.Awakened(i, false))
  }

  lemma InnerMovedThread(exact: set<Tid>, s: State, s1: State, t: Tid, u: Tid)
    requires Inv(exact, s) && t in s.pcs && InInner(s.pcs[t]) && u in s.pcs
    requires s1 == s.(inner := s1.inner) && s1.inner.pc.Keys == s.inner.pc.Keys
    requires u != t ==> SameOrAwakened(s.inner.pc[u], s1.inner.pc[u])
    requires InnerMove(s.inner.pc[t], s1.inner.pc[t])
    ensures var s' := WriteBack(s1, t, Resume(s.kind, ViewOf(s1, t))); WellFormed(s') && ThreadOk(exact, s', u)
  {
    hide Local;
    var v := ViewOf(s, u);
    assert ThreadOk(exact, s, u);
    var s' := WriteBack(s1, t, Resume(s.kind, ViewOf(s1, t)));
    assert ViewOf(s1, u) == v.(ipc := s1.inner.pc[u]);
    if u == t {
      ResumeOk(t in exact, s.kind, t, v, s1.inner.pc[t]);
      assert ViewOf(s', t) == Resume(s.kind, ViewOf(s1, t));
    } else {
      assert t in s.pcs && ThreadOk(exact, s, t);
      ResumeOk(t in exact, s.kind, t, ViewOf(s, t), s1.inner.pc[t]);
      assert ViewOf(s1, t) == ViewOf(s, t).(ipc := s1.inner.pc[t]);
      assert ViewOf(s', u) == v.(ipc := s1.inner.pc[u]);
      if s1.inner.pc[u] != s.inner.pc[u] { AwakenedOk(u in exact, s.kind, u, v, false); }
      else { assert ViewOf(s', u) == v; }
    }
  }

  /** Only a thread that is not recorded as owner is ever inside a futex operation. */
  lemma InnerNotOwner(exact: bool, kind: Kind, t: Tid, v: View)
    requires Local(exact, kind, t, v) && InInner(v.pc)
    ensures NotOwner(kind, t, v)
  {}

  lemma InnerMoved(exact: set<Tid>, s: State, m: M.State, t: Tid)
    requires Inv(exact, s) && t in s.pcs && InInner(s.pcs[t])
    requires M.Inv(m) && m.pc.Keys == s.inner.pc.Keys
    requires forall u :: u in s.pcs && u != t ==> SameOrAwakened(s.inner.pc[u], m.pc[u])
    requires InnerMove(s.inner.pc[t], m.pc[t])
    ensures var s1 := s.(inner := m); Inv(exact, WriteBack(s1, t, Resume(s.kind, ViewOf(s1, t))))
  {
    hide Local;
    var s1 := s.(inner := m);
    assert ThreadOk(exact, s, t);
    InnerNotOwner(t in exact, s.kind, t, ViewOf(s, t));
    ResumeOk(t in exact, s.kind, t, ViewOf(s, t), m.pc[t]);
    assert ViewOf(s1, t) == ViewOf(s, t).(ipc := m.pc[t]);
    var v' := Resume(s.kind, ViewOf(s1, t));
    var s' := WriteBack(s1, t, v');
    assert m.pc[t := v'.ipc] == m.pc;
    assert s'.inner == m;
    forall u | u in s'.pcs ensures ThreadOk(exact, s', u) { InnerMovedThread(exact, s, s1, t, u); }
    if s.kind != Normal && s.owner.Some? {
      assert M.Holds(s.inner, s.owner.value);
      assert SameOrAwakened(s.inner.pc[s.owner.value], m.pc[s.owner.value]);
      assert M.Holds(m, s.owner.value);
    }
  }

  lemma InnerRunKeepsInv(exact: set<Tid>, s: State, t: Tid, luck: bool)
    requires Inv(exact, s) && Enabled(s, Inner(M.Run(t, luck)))
    ensures Inv(exact, Apply(s, Inner(M.Run(t, luck))))
  {
    hide Local;
    var m := M.Apply(s.inner, M.Run(t, luck));
    M.InvStep(s.inner, M.Run(t, luck));
    assert InnerMove(s.inner.pc[t], m.pc[t]);
    InnerMoved(exact, s, m, t);
  }

  lemma InnerWakeKeepsInv(exact: set<Tid>, s: State, t: Tid, woken: Option<Tid>)
    requires Inv(exact, s) && Enabled(s, Inner(M.Wake(t, woken)))
    ensures Inv(exact, Apply(s, Inner(M.Wake(t, woken))))
  {
    hide Local, ThreadOk;
    var m := M.Apply(s.inner, M.Wake(t, woken));
    M.InvStep(s.inner, M.Wake(t, woken));
    WakeMoves(s.inner, t, woken);
    InnerMoved(exact, s, m, t);
  }

  lemma WakeMoves(m: M.State, t: Tid, woken: Option<Tid>)
    requires M.Inv(m) && M.Enabled(m, M.Wake(t, woken))
    ensures var m' := M.Apply(m, M.Wake(t, woken));
            && m'.pc.Keys == m.pc.Keys && InnerMove(m.pc[t], m'.pc[t])
            && forall u :: u in m.pc && u != t ==> SameOrAwakened(m.pc[u], m'.pc[u])
  {}

  lemma InnerDisturbKeepsInv(exact: set<Tid>, s: State, u: Tid, timedOut: bool)
    requires Inv(exact, s) && Enabled(s, Inner(M.Disturb(u, timedOut)))
    ensures Inv(exact, Apply(s, Inner(M.Disturb(u, timedOut))))
  {
    hide Local;
    var e := M.Disturb(u, timedOut);
    M.InvStep(s.inner, e);
    var s' := Apply(s, Inner(e));
    forall w | w in s'.pcs
      ensures ThreadOk(exact, s', w)
    {
      assert ThreadOk(exact, s, w);
      if w == u {
        AwakenedOk(u in exact, s.kind, u, ViewOf(s, u), timedOut);
        assert ViewOf(s', u) == ViewOf(s, u).(ipc := M.Awakened(s.inner.pc[u], timedOut));
      } else {
        assert ViewOf(s', w) == ViewOf(s, w);
      }
    }
    if s.kind != Normal && s.owner.Some? { assert M.Holds(s.inner, s.owner.value); }
  }

  predicate IsWake(e: Event) { e.WakeOne? || e.WakeAll? || e.Disturb? }

  lemma WakeFrame(s: State, e: Event)
    requires WellFormed(s) && Enabled(s, e) && IsWake(e)
    ensures var s' := Apply(s, e);
            && s'.pcs.Keys == s.pcs.Keys && s'.inner == s.inner && s'.owner == s.owner && s'.count == s.count
            && s'.kind == s.kind && s'.depth == s.depth && s'.sent == s.sent
            && (s'.done == s.done || (e.WakeAll? && s.pcs[e.t].SignalWake? && s.done <= s'.done <= s.pcs[e.t].index))
  {}

  /** A wake on the sequence word changes the place of a sleeper or of the caller, and nothing else. */
  lemma WakeEffect(s: State, e: Event, u: Tid)
    requires WellFormed(s) && Enabled(s, e) && IsWake(e) && u in s.pcs
    ensures var s' := Apply(s, e);
            && u in s'.pcs
            && (s'.pcs[u] == s.pcs[u] || s'.pcs[u] == Awaken(s.pcs[u]) || (s.pcs[u].SignalWake? && s'.pcs[u] == Out))
            && (s'.done != s.done ==> !s'.pcs[u].WaitAsleep?)
  {}

  lemma WakeKeepsInv(exact: set<Tid>, s: State, e: Event)
    requires Inv(exact, s) && Enabled(s, e) && IsWake(e)
    ensures Inv(exact, Apply(s, e))
  {
    hide Local, Apply;
    var s' := Apply(s, e);
    if e.WakeAll? { assert ThreadOk(exact, s, e.t); }
    WakeFrame(s, e);
    forall u | u in s.pcs
      ensures ThreadOk(exact, s', u)
    {
      assert ThreadOk(exact, s, u);
      WakeEffect(s, e, u);
      WokenOk(u in exact, s.kind, u, ViewOf(s, u));
      assert ViewOf(s', u) == ViewOf(s, u).(pc := s'.pcs[u]);
    }
  }

  /** Every step keeps the invariants; only a thread whose counter overflows in it is no longer exact. */
  lemma InvStep(exact: set<Tid>, s: State, e: Event)
    requires Inv(exact, s) && Enabled(s, e)
    ensures Inv(exact - Wraps(s, e), Apply(s, e))
  {
    InvWeaker(exact, exact - Wraps(s, e), s);
    hide Local, Apply;
    var left := exact - Wraps(s, e);
    match e
    case Begin(t, call) => BeginKeepsInv(left, s, t, call);
    case Step(t) => StepKeepsInv(left, s, t);
    case Inner(Run(t, luck)) => InnerRunKeepsInv(left, s, t, luck);
    case Inner(Wake(t, woken)) => InnerWakeKeepsInv(left, s, t, woken);
    case Inner(Disturb(u, timedOut)) => InnerDisturbKeepsInv(left, s, u, timedOut);
    case _ => WakeKeepsInv(left, s, e);
  }

  /** Whoever overflows the counter, having been exact, owns the mutex 2^32 times with a counter of zero. */
  lemma OverflowBreaks(exact: set<Tid>, s: State, t: Tid)
    requires Inv(exact, s) && t in exact && Enabled(s, Step(t)) && Overflows(s, Step(t))
    ensures var s' := Apply(s, Step(t));
            && WellFormed(s') && t in s'.pcs && s'.pcs[t] == Out && M.Holds(s'.inner, t)
            && s'.owner == Some(t) && s'.count == 0 && s'.depth[t] == U32
    ensures !Inv(exact, Apply(s, Step(t)))
  {
    assert ThreadOk(exact, s, t);
    var s' := Apply(s, Step(t));
    assert ViewOf(s', t).count == 0 && ViewOf(s', t).depth == U32;
    assert !ThreadOk(exact, s', t);
  }

  /** One step keeps a set of threads exact if and only if the counter does not overflow for one of them. */
  lemma InvStepIff(exact: set<Tid>, s: State, e: Event)
    requires Inv(exact, s) && Enabled(s, e)
    ensures Inv(exact, Apply(s, e)) <==> exact !! Wraps(s, e)
  {
    hide Inv, Apply, Enabled;
    if exact !! Wraps(s, e) {
      assert exact - Wraps(s, e) == exact;
      InvStep(exact, s, e);
    } else {
      OverflowBreaks(exact, s, e.t);
    }
  }

  /** So it is over whole runs. */
  lemma {:induction false} InvRun(exact: set<Tid>, s: State, es: seq<Event>)
    requires Inv(exact, s) && IsRun(s, es)
    ensures Inv(exact - Wrapped(s, es), Final(s, es))
    decreases |es|
  {
    hide Inv, Apply, Enabled, Wraps;
    if es == [] {
      assert exact - Wrapped(s, es) == exact;
    } else {
      var s', left := Apply(s, es[0]), exact - Wraps(s, es[0]);
      InvStep(exact, s, es[0]);
      InvRun(left, s', es[1..]);
      assert left - Wrapped(s', es[1..]) == exact - Wrapped(s, es);
    }
  }

  lemma InitInv(exact: set<Tid>, s: State)
    requires Init(s)
    ensures Inv(exact, s)
  {
    forall t | t in s.pcs ensures ThreadOk(exact, s, t) {}
  }

  // ------------------------------------------------------------ ownership

  /** After every run, overflows included: a recorded owner has the lock, and between calls of a recursive or
      error-checking mutex a thread has the lock exactly if it is the recorded owner. */
  lemma OwnerIsHolder(s: State, es: seq<Event>, t: Tid)
    requires Init(s) && IsRun(s, es) && t in Final(s, es).pcs
    ensures var f := Final(s, es);
            && WellFormed(f)
            && (f.kind != Normal && f.owner == Some(t) ==> M.Holds(f.inner, t))
            && (f.kind != Normal && f.pcs[t] == Out ==> (M.Holds(f.inner, t) <==> f.owner == Some(t)))
  {
    InitInv({}, s);
    InvRun({}, s, es);
    assert ThreadOk({} - Wrapped(s, es), Final(s, es), t);
  }

  /** And the caller's own count of its locks agrees with them, and with the counter of a recursive mutex,
      unless that counter has overflowed for this very thread. */
  lemma OwnershipIsExact(s: State, es: seq<Event>, t: Tid)
    requires Init(s) && IsRun(s, es) && t in Final(s, es).pcs
    requires Final(s, es).kind == Recursive ==> t !in Wrapped(s, es)
    ensures var f := Final(s, es);
            && WellFormed(f)
            && (f.pcs[t] == Out ==>
                  && (M.Holds(f.inner, t) <==> f.depth[t] > 0)
                  && (f.kind != Normal ==> (f.owner == Some(t) <==> f.depth[t] > 0))
                  && (f.kind == Recursive && f.depth[t] > 0 ==> f.count == f.depth[t]))
  {
    InitInv({t}, s);
    InvRun({t}, s, es);
    assert ThreadOk({t} - Wrapped(s, es), Final(s, es), t);
  }

  /** Inside wait_typed. */
  predicate Waiting(pc: Pc) {
    pc.WaitSeq? || Snapshot(pc) || pc.WaitAwake? || pc.Relock? || pc.RestoreOwner? || pc.RestoreCount?
  }

  /** Between the release and the reacquisition the caller has neither the lock nor its name on it. */
  lemma WaitReleases(exact: set<Tid>, s: State, t: Tid)
    requires Inv(exact, s) && t in s.pcs
    requires s.pcs[t].WaitFutex? || s.pcs[t].WaitAsleep? || s.pcs[t].WaitAwake?
    ensures !M.Holds(s.inner, t) && (s.kind != Normal ==> s.owner != Some(t))
    ensures Counted(t in exact, s.kind) ==> s.pcs[t].saved == s.depth[t] > 0
  {
    assert ThreadOk(exact, s, t);
  }

  lemma WaitKeepsDepth(exact: set<Tid>, s: State, e: Event, t: Tid)
    requires Inv(exact, s) && Enabled(s, e) && t in s.pcs && Waiting(s.pcs[t])
    ensures var s' := Apply(s, e);
            t in s'.pcs && t in s'.depth && s'.depth[t] == s.depth[t] && (Waiting(s'.pcs[t]) || s'.pcs[t] == Out)
    ensures t !in Wraps(s, e)
  {
    if e.Inner? { InnerKeepsDepth(exact, s, e, t); } else { OuterKeepsDepth(exact, s, e, t); }
  }

  lemma InnerKeepsDepth(exact: set<Tid>, s: State, e: Event, t: Tid)
    requires Inv(exact, s) && e.Inner? && Enabled(s, e) && t in s.pcs && Waiting(s.pcs[t])
    ensures var s' := Apply(s, e);
            t in s'.pcs && t in s'.depth && s'.depth[t] == s.depth[t] && (Waiting(s'.pcs[t]) || s'.pcs[t] == Out)
  {
    assert ThreadOk(exact, s, t);
  }

  lemma OuterKeepsDepth(exact: set<Tid>, s: State, e: Event, t: Tid)
    requires Inv(exact, s) && !e.Inner? && Enabled(s, e) && t in s.pcs && Waiting(s.pcs[t])
    ensures var s' := Apply(s, e);
            t in s'.pcs && t in s'.depth && s'.depth[t] == s.depth[t] && (Waiting(s'.pcs[t]) || s'.pcs[t] == Out)
  {
    hide Local, Next;
    match e
    case Begin(u, call) =>
    case Step(u) => if u == t { NextKeepsDepth(s.kind, t, ViewOf(s, t)); }
    case _ =>
  }

  lemma NextKeepsDepth(kind: Kind, t: Tid, v: View)
    requires Waiting(v.pc) && OwnStep(v.pc)
    ensures var w := Next(kind, t, v); w.depth == v.depth && (Waiting(w.pc) || w.pc == Out)
  {}

  /** The thread does not leave the wait before the last step. */
  ghost predicate StaysWaiting(s: State, es: seq<Event>, t: Tid)
    requires IsRun(s, es)
    decreases |es|
  {
    es == [] || (t in s.pcs && Waiting(s.pcs[t]) && StaysWaiting(Apply(s, es[0]), es[1..], t))
  }

  /** Whatever the other threads do meanwhile, overflows included, a wait that an exact thread started at
      depth d ends at depth d: the caller owns the lock, and on a recursive mutex the counter is d again. */
  lemma {:induction false} WaitRoundTrip(exact: set<Tid>, s: State, es: seq<Event>, t: Tid)
    requires Inv(exact, s) && IsRun(s, es) && StaysWaiting(s, es, t)
    requires t in s.pcs && Waiting(s.pcs[t]) && t in exact
    ensures t !in Wrapped(s, es) && Inv(exact - Wrapped(s, es), Final(s, es))
    ensures var f := Final(s, es);
            && WellFormed(f) && t in s.depth && t in f.pcs && f.depth[t] == s.depth[t]
            && (f.pcs[t] == Out && f.depth[t] > 0 ==> Owned(true, f.kind, t, ViewOf(f, t)))
    decreases |es|
  {
    hide Apply, Enabled, Local, Inv, Owned, Waiting;
    InvRun(exact, s, es);
    if es == [] {
      RestOwns(exact, s, t);
    } else {
      var s', left := Apply(s, es[0]), exact - Wraps(s, es[0]);
      WaitKeepsDepth(exact, s, es[0], t);
      InvStep(exact, s, es[0]);
      if s'.pcs[t] == Out {
        OutIsNotWaiting(s', es[1..], t);
        RestOwns(left, s', t);
      } else {
        WaitRoundTrip(left, s', es[1..], t);
      }
    }
  }

  lemma OutIsNotWaiting(s: State, es: seq<Event>, t: Tid)
    requires IsRun(s, es) && StaysWaiting(s, es, t) && t in s.pcs && s.pcs[t] == Out
    ensures es == []
  {
    hide Apply, Enabled;
  }

  lemma RestOwns(exact: set<Tid>, s: State, t: Tid)
    requires Inv(exact, s) && t in exact && t in s.pcs
    ensures WellFormed(s)
    ensures s.pcs[t] == Out && s.depth[t] > 0 ==> Owned(true, s.kind, t, ViewOf(s, t))
  {
    assert ThreadOk(exact, s, t);
  }

  // ------------------------------------------------------------ broadcast

  lemma {:induction false} DoneGrows(s: State, es: seq<Event>)
    requires IsRun(s, es)
    ensures s.done <= Final(s, es).done
    decreases |es|
  {
    if es != [] {
      DoneGrows(Apply(s, es[0]), es[1..]);
    }
  }

  /** Once a broadcast has issued its wake, a thread whose snapshot is older sleeps only if at least
      2^32 signals went by between its snapshot and its falling asleep. */
  lemma BroadcastReaches(s: State, b: Tid, es: seq<Event>, t: Tid)
    requires Inv({}, s) && Enabled(s, WakeAll(b)) && IsRun(Apply(s, WakeAll(b)), es)
    requires Asleep(Final(Apply(s, WakeAll(b)), es), t)
    ensures var p := Final(Apply(s, WakeAll(b)), es).pcs[t];
            p.at < s.pcs[b].index ==> p.slept - p.at >= U32
  {
    var s' := Apply(s, WakeAll(b));
    InvStep({}, s, WakeAll(b));
    assert {} - Wraps(s, WakeAll(b)) == {};
    InvRun({}, s', es);
    DoneGrows(s', es);
    var f := Final(s', es);
    assert ThreadOk({} - Wrapped(s', es), f, t);
    var p := f.pcs[t];
    if p.at < s.pcs[b].index {
      assert p.at < p.slept;
      CongruentApart(p.at, p.slept);
    }
  }

  lemma CongruentApart(a: nat, b: nat)
    requires a < b && a % U32 == b % U32
    ensures b - a >= U32
  {
    assert b - a == U32 * (b / U32 - a / U32);
    assert b / U32 > a / U32;
  }

  // -------------------------------------------------- where the counters wrap

  lemma {:induction false} RunConcat(s: State, a: seq<Event>, b: seq<Event>)
    requires IsRun(s, a) && IsRun(Final(s, a), b)
    ensures IsRun(s, a + b) && Final(s, a + b) == Final(Final(s, a), b)
    decreases |a|
  {
    hide Apply;
    if a == [] {
      assert a + b == b;
    } else {
      assert (a + b)[0] == a[0] && (a + b)[1..] == a[1..] + b;
      RunConcat(Apply(s, a[0]), a[1..], b);
    }
  }

  ghost predicate Reaches(s: State, f: State) { exists es :: IsRun(s, es) && Final(s, es) == f }

  ghost predicate Takes(s: State, e: Event, f: State) {
    WellFormed(s) && WellFormed(f) && Enabled(s, e) && Apply(s, e) == f
  }

  lemma ReachesSelf(s: State)
    requires WellFormed(s)
    ensures Reaches(s, s)
  {
    assert IsRun(s, []) && Final(s, []) == s;
  }

  lemma ReachesTrans(s: State, m: State, f: State)
    requires Reaches(s, m) && Reaches(m, f)
    ensures Reaches(s, f)
  {
    hide Apply, Enabled;
    var a :| IsRun(s, a) && Final(s, a) == m;
    var b :| IsRun(m, b) && Final(m, b) == f;
    RunConcat(s, a, b);
  }

  lemma Then(s: State, m: State, e: Event, f: State)
    requires Reaches(s, m) && Takes(m, e, f)
    ensures Reaches(s, f)
  {
    hide Apply, Enabled;
    assert [e][0] == e && [e][1..] == [];
    assert IsRun(f, []) && Final(f, []) == f;
    assert IsRun(m, [e]) && Final(m, [e]) == Final(Apply(m, e), []);
    ReachesTrans(s, m, f);
  }

  lemma BeginTakes(s: State, t: Tid, call: Call, f: State)
    requires WellFormed(s) && Enabled(s, Begin(t, call))
    requires f == WriteBack(s, t, First(s.kind, call, ViewOf(s, t)))
    ensures Takes(s, Begin(t, call), f)
  {}

  lemma StepTakes(s: State, t: Tid, f: State)
    requires WellFormed(s) && t in s.pcs && OwnStep(s.pcs[t])
    requires f == WriteBack(s, t, Next(s.kind, t, ViewOf(s, t)))
    ensures Takes(s, Step(t), f)
  {}

  lemma RunTakes(s: State, t: Tid, m: M.State, f: State)
    requires WellFormed(s) && t in s.pcs && InInner(s.pcs[t])
    requires M.Enabled(s.inner, M.Run(t, true)) && m == M.Apply(s.inner, M.Run(t, true))
    requires var s1 := s.(inner := m); WellFormed(s1) && f == WriteBack(s1, t, Resume(s.kind, ViewOf(s1, t)))
    ensures Takes(s, Inner(M.Run(t, true)), f)
  {}

  /** One thread has locked a recursive mutex n times. */
  function Nested(n: nat): State {
    State(Recursive, M.State(if n == 0 then 0 else 1, map[0 := if n == 0 then M.Idle else M.Held]),
          if n == 0 then None else Some(0), n % U32, 0, 0, map[0 := Out], map[0 := n])
  }

  lemma LockAgain(n: nat)
    requires 0 < n
    ensures Reaches(Nested(n), Nested(n + 1))
  {
    hide Reaches, Apply, Enabled;
    var s := Nested(n);
    var s1, s2 := s.(pcs := map[0 := LockOwner(M.Lock)]), s.(pcs := map[0 := LockBump]);
    ReachesSelf(s);
    BeginTakes(s, 0, Lock(M.Lock), s1);
    Then(s, s, Begin(0, Lock(M.Lock)), s1);
    StepTakes(s1, 0, s2);
    Then(s, s1, Step(0), s2);
    StepTakes(s2, 0, Nested(n + 1));
    Then(s, s2, Step(0), Nested(n + 1));
  }

  lemma LockFirstTakes(s: State, f: State)
    requires s == Nested(0).(pcs := map[0 := LockInner], inner := M.State(0, map[0 := M.LockFast]))
    requires f == Nested(0).(pcs := map[0 := LockStoreOwner], inner := M.State(1, map[0 := M.Held]))
    ensures Takes(s, Inner(M.Run(0, true)), f)
  {
    RunTakes(s, 0, f.inner, f);
  }

  /** The inner lock is taken, owner and count are not yet written. */
  function Taken(): State {
    Nested(0).(pcs := map[0 := LockStoreOwner], inner := M.State(1, map[0 := M.Held]))
  }

  lemma TakeFirst()
    ensures Reaches(Nested(0), Taken())
  {
    hide Reaches, Apply, Enabled;
    var s := Nested(0);
    var s1 := s.(pcs := map[0 := LockOwner(M.Lock)]);
    var s2 := s.(pcs := map[0 := LockInner], inner := M.State(0, map[0 := M.LockFast]));
    ReachesSelf(s);
    BeginTakes(s, 0, Lock(M.Lock), s1);
    Then(s, s, Begin(0, Lock(M.Lock)), s1);
    StepTakes(s1, 0, s2);
    Then(s, s1, Step(0), s2);
    LockFirstTakes(s2, Taken());
    Then(s, s2, Inner(M.Run(0, true)), Taken());
  }

  lemma RecordFirst()
    ensures Reaches(Taken(), Nested(1))
  {
    hide Reaches, Apply, Enabled;
    var s := Taken();
    var s1 := s.(pcs := map[0 := LockStoreCount], owner := Some(0));
    ReachesSelf(s);
    StepTakes(s, 0, s1);
    Then(s, s, Step(0), s1);
    StepTakes(s1, 0, Nested(1));
    Then(s, s1, Step(0), Nested(1));
  }

  lemma LockFirst()
    ensures Reaches(Nested(0), Nested(1))
  {
    hide *;
    TakeFirst();
    RecordFirst();
    ReachesTrans(Nested(0), Taken(), Nested(1));
  }

  /** From a fresh recursive mutex, n nested locks are possible for every n; the counter then equals
      the depth exactly when n is below 2^32. */
  lemma CounterEqualsDepthIff(n: nat)
    ensures Init(Nested(0)) && Reaches(Nested(0), Nested(n))
    ensures Nested(n).count == Nested(n).depth[0] <==> n < U32
  {
    hide Reaches;
    NestedReachable(n);
  }

  lemma {:induction false} NestedReachable(n: nat)
    ensures Reaches(Nested(0), Nested(n))
  {
    hide *;
    if n == 0 {
      NestedStart();
    } else if n == 1 {
      LockFirst();
    } else {
      NestedReachable(n - 1);
      LockAgain(n - 1);
      ReachesTrans(Nested(0), Nested(n - 1), Nested(n));
    }
  }

  lemma NestedStart()
    ensures Reaches(Nested(0), Nested(0))
  {
    hide Reaches;
    ReachesSelf(Nested(0));
  }

  /** Thread 0 is about to sleep on its snapshot 0 of the sequence word; thread 1 has broadcast n times. */
  function Lapped(n: nat): State {
    State(Normal, M.State(0, map[0 := M.Idle, 1 := M.Idle]), None, 0, n, n,
          map[0 := WaitFutex(0, 1), 1 := Out], map[0 := 1, 1 := 0])
  }

  lemma BroadcastOnce(n: nat)
    ensures Reaches(Lapped(n), Lapped(n + 1))
  {
    hide Reaches, Enabled;
    var s := Lapped(n);
    var s1 := s.(pcs := map[0 := WaitFutex(0, 1), 1 := SignalAdd(true)]);
    var s2 := s.(pcs := map[0 := WaitFutex(0, 1), 1 := SignalWake(true, n + 1)], sent := n + 1);
    ReachesSelf(s);
    BeginTakes(s, 1, Signal(true), s1);
    Then(s, s, Begin(1, Signal(true)), s1);
    StepTakes(s1, 1, s2);
    Then(s, s1, Step(1), s2);
    BroadcastTakes(s2, n);
    Then(s, s2, WakeAll(1), Lapped(n + 1));
  }

  lemma BroadcastTakes(s: State, n: nat)
    requires s == Lapped(n).(pcs := map[0 := WaitFutex(0, 1), 1 := SignalWake(true, n + 1)], sent := n + 1)
    ensures Takes(s, WakeAll(1), Lapped(n + 1))
  {
    assert (map u | u in s.pcs :: Awaken(s.pcs[u]))[1 := Out] == Lapped(n + 1).pcs;
  }

  /** A fresh normal mutex and condition variable used by threads 0 and 1. */
  function Fresh(): State {
    State(Normal, M.State(0, map[0 := M.Idle, 1 := M.Idle]), None, 0, 0, 0, map[0 := Out, 1 := Out], map[0 := 0, 1 := 0])
  }

  /** Thread 0 has the normal mutex. */
  function LockedByZero(): State {
    Fresh().(inner := M.State(1, map[0 := M.Held, 1 := M.Idle]), depth := map[0 := 1, 1 := 0])
  }

  lemma LockByZeroTakes(s: State)
    requires s == Fresh().(pcs := map[0 := LockInner, 1 := Out], inner := M.State(0, map[0 := M.LockFast, 1 := M.Idle]))
    ensures Takes(s, Inner(M.Run(0, true)), LockedByZero())
  {
    RunTakes(s, 0, LockedByZero().inner, LockedByZero());
  }

  lemma LockByZero()
    ensures Reaches(Fresh(), LockedByZero())
  {
    hide Reaches, Apply, Enabled;
    var s := Fresh();
    var s1 := s.(pcs := map[0 := LockOwner(M.Lock), 1 := Out]);
    var s2 := s.(pcs := map[0 := LockInner, 1 := Out], inner := M.State(0, map[0 := M.LockFast, 1 := M.Idle]));
    ReachesSelf(s);
    BeginTakes(s, 0, Lock(M.Lock), s1);
    Then(s, s, Begin(0, Lock(M.Lock)), s1);
    StepTakes(s1, 0, s2);
    Then(s, s1, Step(0), s2);
    LockByZeroTakes(s2);
    Then(s, s2, Inner(M.Run(0, true)), LockedByZero());
  }

  lemma ZeroReleases()
    ensures M.Enabled(LockedByZero().inner, M.Run(0, true))
    ensures M.Apply(LockedByZero().inner, M.Run(0, true)) == Lapped(0).inner
  {}

  lemma StartWaitTakes(s: State)
    requires s == LockedByZero().(pcs := map[0 := WaitUnlock(0, 1), 1 := Out])
    ensures Takes(s, Inner(M.Run(0, true)), Lapped(0))
  {
    ZeroReleases();
    hide M.Apply, M.Enabled;
    RunTakes(s, 0, Lapped(0).inner, Lapped(0));
  }

  lemma TakesSnapshot(s1: State, s2: State)
    requires s1 == LockedByZero().(pcs := map[0 := WaitSeq, 1 := Out])
    requires s2 == LockedByZero().(pcs := map[0 := WaitUnlock(0, 1), 1 := Out])
    ensures Takes(s1, Step(0), s2)
  {
    hide Apply, Enabled;
    StepTakes(s1, 0, s2);
  }

  /** Up to the release: the snapshot is taken. */
  lemma EnterWait(s1: State, s2: State)
    requires s1 == LockedByZero().(pcs := map[0 := WaitSeq, 1 := Out])
    requires s2 == LockedByZero().(pcs := map[0 := WaitUnlock(0, 1), 1 := Out])
    ensures Takes(LockedByZero(), Begin(0, Wait), s1) && Takes(s1, Step(0), s2)
  {
    hide Apply;
    BeginTakes(LockedByZero(), 0, Wait, s1);
    TakesSnapshot(s1, s2);
  }

  lemma StartWait()
    ensures Reaches(LockedByZero(), Lapped(0))
  {
    var s := LockedByZero();
    var s1, s2 := s.(pcs := map[0 := WaitSeq, 1 := Out]), s.(pcs := map[0 := WaitUnlock(0, 1), 1 := Out]);
    ReachesSelf(s);
    EnterWait(s1, s2);
    StartWaitTakes(s2);
    hide *;
    Then(s, s, Begin(0, Wait), s1);
    Then(s, s1, Step(0), s2);
    Then(s, s2, Inner(M.Run(0, true)), Lapped(0));
  }

  /** The bound in `BroadcastReaches` is exact: after n broadcasts the thread with the old snapshot
      falls asleep if and only if n is a multiple of 2^32; at 2^32 it sleeps through all of them. */
  lemma SleepsThroughIff(n: nat)
    ensures Init(Fresh()) && Reaches(Fresh(), Lapped(n))
    ensures Enabled(Lapped(n), Step(0))
    ensures Asleep(Apply(Lapped(n), Step(0)), 0) <==> n % U32 == 0
  {
    LappedReachable(n);
    hide Reaches, Apply;
    LappedWaits(n);
  }

  lemma LappedWaits(n: nat)
    ensures Enabled(Lapped(n), Step(0))
    ensures Asleep(Apply(Lapped(n), Step(0)), 0) <==> n % U32 == 0
  {}

  lemma {:induction false} LappedReachable(n: nat)
    ensures Reaches(Fresh(), Lapped(n))
  {
    hide *;
    if n == 0 {
      LockByZero();
      StartWait();
      ReachesTrans(Fresh(), LockedByZero(), Lapped(0));
    } else {
      LappedReachable(n - 1);
      BroadcastOnce(n - 1);
      ReachesTrans(Fresh(), Lapped(n - 1), Lapped(n));
    }
  }
}

/** Many threads spawning and reaping workers at the same time: each step is one atomic operation on a
    descriptor's state word or one locked operation of the slot allocator. */
module WorkerPool {
  import opened Common

  /** A thread's record: its state word and the slots recorded for its objects and frames. */
  datatype Desc = Desc(state: DescState, objects: set<nat>, stack: set<nat>, tls: set<nat>) {
    function All(): set<nat> { objects + stack + tls }
    predicate Apart() { objects !! stack && objects + stack !! tls }
    /** Names no frames from an earlier use. */
    predicate Clean() { stack == {} && tls == {} }
  }

  /** What a thread is doing: spawning a worker, undoing a failed spawn, or reaping. */
  datatype Work = Idle | Spawn(i: nat, stage: nat) | Undo(i: nat, step: nat) | Reap(i: nat, step: nat)

  datatype Event =
    | Claim(t: nat, i: nat)
    | Take(t: nat, run: set<nat>)
    | Refused(t: nat)
    | Start(t: nat)
    | Fail(t: nat)
    | Release(t: nat)
    | Return(t: nat)
    | Exit(i: nat)
    | TryReap(t: nat, i: nat)
    | OtherTake(run: set<nat>)
    | OtherGive(run: set<nat>)

  /** Slots in use, those of them that other clients hold, the descriptors, what each thread does and,
      as history, which thread has claimed which descriptor. */
  datatype State = State(live: set<nat>, others: set<nat>, descs: seq<Desc>, work: map<nat, Work>, claimer: map<nat, nat>)

  datatype Local = Local(d: Desc, w: Work, live: set<nat>)

  // ------------------------------------------------------------ one descriptor and the thread at it

  predicate CanExec(v: Local, e: Event) {
    match e
    case Claim(t, i) => v.d.state == Unused
    case Take(t, run) => v.w.Spawn? && v.w.stage < 3 && run !! v.live
    case Refused(t) => v.w.Spawn? && v.w.stage == 0
    case Start(t) => v.w.Spawn? && v.w.stage == 3
    case Fail(t) => v.w.Spawn? && 0 < v.w.stage
    case Release(t) => (v.w.Undo? || v.w.Reap?) && v.w.step < 3
    case Return(t) => (v.w.Undo? || v.w.Reap?) && v.w.step == 3
    case Exit(i) => v.w == Idle && v.d.state == Running
    case TryReap(t, i) => v.d.state == Exited
    case OtherTake(run) => false
    case OtherGive(run) => false
  }

  function Part(d: Desc, step: nat): set<nat> {
    if step == 0 then d.objects else if step == 1 then d.stack else d.tls
  }

  function Next(w: Work): Work
    requires w.Undo? || w.Reap?
  {
    if w.Undo? then Undo(w.i, w.step + 1) else Reap(w.i, w.step + 1)
  }

  function Exec(v: Local, e: Event): Local
    requires CanExec(v, e)
  {
    match e
    case Claim(t, i) => Local(v.d.(state := Running), Spawn(i, 0), v.live)
    case Take(t, run) =>
      var d := if v.w.stage == 0 then v.d.(objects := run) else if v.w.stage == 1 then v.d.(stack := run) else v.d.(tls := run);
      Local(d, Spawn(v.w.i, v.w.stage + 1), v.live + run)
    case Refused(t) => Local(v.d.(state := Unused), Idle, v.live)
    case Start(t) => v.(w := Idle)
    case Fail(t) => v.(w := Undo(v.w.i, 0))
    case Release(t) => v.(w := Next(v.w), live := v.live - Part(v.d, v.w.step))
    case Return(t) => Local(if v.w.Undo? then v.d.(state := Unused) else v.d.(state := Unused, stack := {}, tls := {}), Idle, v.live)
    case Exit(i) => v.(d := v.d.(state := Exited))
    case TryReap(t, i) => Local(v.d.(state := Reaping), Reap(i, 0), v.live)
  }

  /** The slots that a descriptor holds while the given work is done on it. */
  function Held(d: Desc, w: Work): set<nat> {
    match w
    case Idle => if d.state == Unused then {} else d.All()
    case Spawn(_, stage) => if stage == 0 then {} else d.All()
    case Undo(_, step) => Left(d, step)
    case Reap(_, step) => Left(d, step)
  }

  function Left(d: Desc, step: nat): set<nat> {
    if step == 0 then d.All() else if step == 1 then d.stack + d.tls else if step == 2 then d.tls else {}
  }

  predicate DescOk(d: Desc, w: Work) {
    match w
    case Idle => d.state != Reaping && (d.state != Unused ==> d.Apart())
    case Spawn(_, stage) =>
      && d.state == Running && stage <= 3 && (stage <= 1 ==> d.Clean()) && (stage == 2 ==> d.tls == {})
      && (0 < stage ==> d.Apart())
    case Undo(_, step) => d.state == Running && step <= 3 && d.Apart()
    case Reap(_, step) => d.state == Reaping && step <= 3 && d.Apart()
  }

  /** A claim of a descriptor that names no frames from an earlier use. */
  predicate CarefulHere(d: Desc, e: Event) { e.Claim? ==> d.Clean() }

  /** A step of one descriptor takes only free slots and gives back only what the descriptor holds. */
  lemma ExecKeepsHeld(v: Local, e: Event)
    requires DescOk(v.d, v.w) && CanExec(v, e) && CarefulHere(v.d, e) && Held(v.d, v.w) <= v.live
    ensures var v' := Exec(v, e); DescOk(v'.d, v'.w) && v'.live == (v.live - Held(v.d, v.w)) + Held(v'.d, v'.w)
    ensures var v' := Exec(v, e); (Held(v'.d, v'.w) - Held(v.d, v.w)) !! v.live
  {}

  /** The state word goes UNUSED, RUNNING, EXITED, REAPING, UNUSED, or back from RUNNING to UNUSED. */
  predicate Follows(a: DescState, b: DescState) {
    || a == b
    || (a == Unused && b == Running)
    || (a == Running && b == Unused)
    || (a == Running && b == Exited)
    || (a == Exited && b == Reaping)
    || (a == Reaping && b == Unused)
  }

  /** The state word says what is being done with the descriptor. */
  predicate StateOk(d: Desc, w: Work) {
    match w
    case Idle => d.state != Reaping
    case Spawn(_, _) => d.state == Running
    case Undo(_, _) => d.state == Running
    case Reap(_, _) => d.state == Reaping
  }

  lemma ExecFollows(v: Local, e: Event)
    requires StateOk(v.d, v.w) && CanExec(v, e)
    ensures StateOk(Exec(v, e).d, Exec(v, e).w) && Follows(v.d.state, Exec(v, e).d.state)
  {}

  // ------------------------------------------------------------ the whole pool

  function WorkAt(s: State, i: nat): Work {
    if i in s.claimer && s.claimer[i] in s.work then s.work[s.claimer[i]] else Idle
  }

  function View(s: State, i: nat): Local
    requires i < |s.descs|
  {
    Local(s.descs[i], WorkAt(s, i), s.live)
  }

  /** The descriptor a step is about. */
  function Site(s: State, e: Event): nat {
    match e
    case Claim(t, i) => i
    case TryReap(t, i) => i
    case Exit(i) => i
    case OtherTake(_) => |s.descs|
    case OtherGive(_) => |s.descs|
    case _ => if e.t in s.work && s.work[e.t] != Idle then s.work[e.t].i else |s.descs|
  }

  /** A thread claims or reaps only when it does nothing else. */
  predicate ThreadReady(s: State, e: Event) { e.Claim? || e.TryReap? ==> e.t in s.work && s.work[e.t] == Idle }

  predicate Enabled(s: State, e: Event) {
    match e
    case OtherTake(run) => run !! s.live
    case OtherGive(run) => run <= s.others
    case _ => ThreadReady(s, e) && Site(s, e) < |s.descs| && CanExec(View(s, Site(s, e)), e)
  }

  function Apply(s: State, e: Event): State
    requires Enabled(s, e)
  {
    match e
    case OtherTake(run) => s.(live := s.live + run, others := s.others + run)
    case OtherGive(run) => s.(live := s.live - run, others := s.others - run)
    case Exit(i) => s.(descs := s.descs[i := Exec(View(s, i), e).d])
    case _ => Put(s, Site(s, e), e.t, Exec(View(s, Site(s, e)), e))
  }

  function Put(s: State, i: nat, t: nat, v: Local): State
    requires i < |s.descs|
  {
    State(v.live, s.others, s.descs[i := v.d], s.work[t := v.w],
          if v.w == Idle then s.claimer - {i} else s.claimer[i := t])
  }

  /** Any run at all. */
  ghost predicate IsAnyRun(s: State, es: seq<Event>)
    decreases |es|
  {
    es == [] || (Enabled(s, es[0]) && IsAnyRun(Apply(s, es[0]), es[1..]))
  }

  ghost function FinalAny(s: State, es: seq<Event>): State
    requires IsAnyRun(s, es)
    decreases |es|
  {
    if es == [] then s else FinalAny(Apply(s, es[0]), es[1..])
  }

  predicate Careful(s: State, e: Event) { e.Claim? && e.i < |s.descs| ==> s.descs[e.i].Clean() }

  /** A run in which no claimed descriptor names frames from an earlier use. */
  ghost predicate IsRun(s: State, es: seq<Event>)
    decreases |es|
  {
    es == [] || (Enabled(s, es[0]) && Careful(s, es[0]) && IsRun(Apply(s, es[0]), es[1..]))
  }

  ghost function Final(s: State, es: seq<Event>): State
    requires IsRun(s, es)
    decreases |es|
  {
    if es == [] then s else Final(Apply(s, es[0]), es[1..])
  }

  /** All descriptors unused and cleared, all threads idle. */
  ghost predicate Init(s: State) {
    && s.live == s.others && s.claimer == map[]
    && (forall i :: 0 <= i < |s.descs| ==> s.descs[i].state == Unused)
    && (forall t :: t in s.work ==> s.work[t] == Idle)
  }

  // ------------------------------------------------------------ the invariant

  function HeldAt(s: State, i: nat): set<nat>
    requires i < |s.descs|
  {
    Held(s.descs[i], WorkAt(s, i))
  }

  /** The history variable says which thread works on which descriptor. */
  ghost predicate Linked(s: State) {
    && (forall i :: i in s.claimer ==> i < |s.descs| && s.claimer[i] in s.work && s.work[s.claimer[i]] != Idle && s.work[s.claimer[i]].i == i)
    && (forall t :: t in s.work && s.work[t] != Idle ==> s.work[t].i in s.claimer && s.claimer[s.work[t].i] == t)
  }

  /** Each descriptor's state word fits the work that is done on it. */
  ghost predicate Ordered(s: State) {
    Linked(s) && forall i :: 0 <= i < |s.descs| ==> StateOk(s.descs[i], WorkAt(s, i))
  }

  ghost predicate Separate(s: State) {
    && (forall i :: 0 <= i < |s.descs| ==> DescOk(s.descs[i], WorkAt(s, i)))
    && (forall i :: 0 <= i < |s.descs| ==> HeldAt(s, i) <= s.live && HeldAt(s, i) !! s.others)
    && (forall i, j :: 0 <= i < j < |s.descs| ==> HeldAt(s, i) !! HeldAt(s, j))
    && s.others <= s.live
  }

  predicate Owned(s: State, x: nat) { x in s.others || exists i :: 0 <= i < |s.descs| && x in HeldAt(s, i) }

  /** Every slot in use is held by another client or by a descriptor. */
  ghost predicate NoLeak(s: State) { forall x :: x in s.live ==> Owned(s, x) }

  ghost predicate Inv(s: State) { Linked(s) && Separate(s) && NoLeak(s) }

  lemma InvOrdered(s: State)
    requires Inv(s)
    ensures Ordered(s)
  {
    forall i | 0 <= i < |s.descs| ensures StateOk(s.descs[i], WorkAt(s, i)) { assert DescOk(s.descs[i], WorkAt(s, i)); }
  }

  lemma InitInv(s: State)
    requires Init(s)
    ensures Inv(s)
  {}

  lemma PutLinked(s: State, i: nat, t: nat, v: Local)
    requires Linked(s) && i < |s.descs| && t in s.work
    requires if s.work[t] == Idle then i !in s.claimer else s.work[t].i == i
    requires v.w != Idle ==> v.w.i == i
    ensures Linked(Put(s, i, t, v))
    ensures forall j :: 0 <= j < |s.descs| ==> WorkAt(Put(s, i, t, v), j) == if j == i then v.w else WorkAt(s, j)
  {}

  /** Every step, careful or not, keeps to the order of the states. */
  lemma OrderStep(s: State, e: Event)
    requires Ordered(s) && Enabled(s, e)
    ensures Ordered(Apply(s, e)) && |Apply(s, e).descs| == |s.descs|
    ensures forall i :: 0 <= i < |s.descs| ==> Follows(s.descs[i].state, Apply(s, e).descs[i].state)
  {
    var s' := Apply(s, e);
    if e.OtherTake? || e.OtherGive? {
      assert forall i :: 0 <= i < |s.descs| ==> WorkAt(s', i) == WorkAt(s, i);
    } else {
      var i := Site(s, e);
      ExecFollows(View(s, i), e);
      if !e.Exit? {
        SiteIsOwn(s, e);
        PutLinked(s, i, e.t, Exec(View(s, i), e));
      }
      hide Exec, CanExec, StateOk, Linked;
      forall j | 0 <= j < |s.descs| ensures StateOk(s'.descs[j], WorkAt(s', j)) {}
    }
  }

  lemma {:induction false} OrderRun(s: State, es: seq<Event>)
    requires Ordered(s) && IsAnyRun(s, es)
    ensures Ordered(FinalAny(s, es)) && |FinalAny(s, es).descs| == |s.descs|
    decreases |es|
  {
    hide Ordered, Apply, Enabled;
    if es != [] {
      OrderStep(s, es[0]);
      OrderRun(Apply(s, es[0]), es[1..]);
    }
  }

  lemma InitOrdered(s: State)
    requires Init(s)
    ensures Ordered(s)
  {}

  /** Only descriptor i changes, by taking free slots and giving back its own. */
  lemma Reowned(s: State, s': State, i: nat)
    requires Separate(s) && NoLeak(s) && i < |s.descs| == |s'.descs| && s'.others == s.others
    requires forall j :: 0 <= j < |s.descs| && j != i ==> s'.descs[j] == s.descs[j] && WorkAt(s', j) == WorkAt(s, j)
    requires DescOk(s'.descs[i], WorkAt(s', i))
    requires s'.live == (s.live - HeldAt(s, i)) + HeldAt(s', i) && (HeldAt(s', i) - HeldAt(s, i)) !! s.live
    ensures Separate(s') && NoLeak(s')
  {
    hide Held, DescOk, WorkAt;
    assert forall j :: 0 <= j < |s.descs| && j != i ==> HeldAt(s', j) == HeldAt(s, j);
    forall j | 0 <= j < |s.descs| && j != i ensures HeldAt(s, j) !! HeldAt(s, i) {}
    forall x | x in s'.live ensures Owned(s', x) {
      if x !in HeldAt(s', i) {
        assert Owned(s, x);
      }
    }
  }

  lemma {:induction false} InvStep(s: State, e: Event)
    requires Inv(s) && Enabled(s, e) && Careful(s, e)
    ensures Inv(Apply(s, e))
  {
    var s' := Apply(s, e);
    if e.OtherTake? || e.OtherGive? {
      OtherStep(s, e);
    } else {
      var i := Site(s, e);
      assert HeldAt(s, i) <= s.live;
      ExecKeepsHeld(View(s, i), e);
      if !e.Exit? {
        InvOrdered(s);
        SiteIsOwn(s, e);
        PutLinked(s, i, e.t, Exec(View(s, i), e));
      }
      hide Exec, CanExec, Held, DescOk, Linked;
      Reowned(s, s', i);
    }
  }

  lemma OtherStep(s: State, e: Event)
    requires Inv(s) && Enabled(s, e) && (e.OtherTake? || e.OtherGive?)
    ensures Inv(Apply(s, e)) && Apply(s, e).descs == s.descs
  {
    hide Held, DescOk;
    var s' := Apply(s, e);
    forall i | 0 <= i < |s.descs| ensures WorkAt(s', i) == WorkAt(s, i) && HeldAt(s', i) == HeldAt(s, i) {}
    forall x | x in s'.live ensures Owned(s', x) {
      if x in s.live {
        assert Owned(s, x);
      }
    }
  }

  /** A thread at work steps on its own descriptor; one that claims finds nobody there. */
  lemma SiteIsOwn(s: State, e: Event)
    requires Ordered(s) && Enabled(s, e) && !e.OtherTake? && !e.OtherGive? && !e.Exit?
    ensures var i := Site(s, e);
            && e.t in s.work
            && (if s.work[e.t] == Idle then i !in s.claimer else s.work[e.t].i == i)
            && (Exec(View(s, i), e).w != Idle ==> Exec(View(s, i), e).w.i == i)
  {}

  lemma {:induction false} InvRun(s: State, es: seq<Event>)
    requires Inv(s) && IsRun(s, es)
    ensures Inv(Final(s, es))
    decreases |es|
  {
    if es != [] {
      InvStep(s, es[0]);
      InvRun(Apply(s, es[0]), es[1..]);
    }
  }

  // ------------------------------------------------------------ the theorems

  /** In every run two threads never work on the same descriptor: one claimer, one reaper. */
  lemma OneWorkerPerDescriptor(s: State, es: seq<Event>, t: nat, u: nat)
    requires Init(s) && IsAnyRun(s, es)
    requires var f := FinalAny(s, es); t in f.work && u in f.work && f.work[t] != Idle && f.work[u] != Idle && f.work[t].i == f.work[u].i
    ensures t == u
  {
    InitOrdered(s);
    OrderRun(s, es);
  }

  /** In every run the state word of a descriptor goes through its states in order, one step at a time, and
      always says what is being done: reaping exactly while somebody reaps, running while somebody spawns. */
  lemma StatesInOrder(s: State, es: seq<Event>, e: Event, i: nat)
    requires Init(s) && IsAnyRun(s, es) && Enabled(FinalAny(s, es), e) && i < |s.descs|
    ensures var f := FinalAny(s, es);
            var f' := Apply(f, e);
            && |f.descs| == |f'.descs| == |s.descs|
            && Follows(f.descs[i].state, f'.descs[i].state) && StateOk(f'.descs[i], WorkAt(f', i))
            && (f'.descs[i].state == Reaping <==> WorkAt(f', i).Reap?)
  {
    hide Apply, Enabled;
    InitOrdered(s);
    OrderRun(s, es);
    OrderStep(FinalAny(s, es), e);
  }

  /** In every state that a run with careful claims leads to, the slots in use are exactly those of the
      other clients and those the descriptors hold, and nothing is held twice. */
  lemma SlotsAreAccountedFor(s: State, es: seq<Event>, x: nat)
    requires Init(s) && IsRun(s, es)
    ensures var f := Final(s, es); x in f.live <==> Owned(f, x)
    ensures var f := Final(s, es); forall i :: 0 <= i < |f.descs| && x in HeldAt(f, i) ==> x !in f.others
    ensures var f := Final(s, es); forall i, j :: 0 <= i < j < |f.descs| && x in HeldAt(f, i) ==> x !in HeldAt(f, j)
  {
    InitInv(s);
    InvRun(s, es);
  }

  /** Whenever such a run has every descriptor back to unused, no slot is left behind and none was taken from
      anybody else. */
  lemma SlotsAreConserved(s: State, es: seq<Event>)
    requires Init(s) && IsRun(s, es)
    requires forall i :: 0 <= i < |Final(s, es).descs| ==> Final(s, es).descs[i].state == Unused
    ensures Final(s, es).live == Final(s, es).others
  {
    InitInv(s);
    InvRun(s, es);
    var f := Final(s, es);
    forall x | x in f.live ensures x in f.others {
      assert Owned(f, x);
      forall i | 0 <= i < |f.descs| ensures HeldAt(f, i) == {} { assert DescOk(f.descs[i], WorkAt(f, i)); }
    }
  }

  // ------------------------------------------------------------ when every claim is careful

  /** A spawn fails after it has recorded frames. */
  predicate LateFailure(s: State, e: Event) { e.Fail? && e.t in s.work && s.work[e.t].Spawn? && s.work[e.t].stage > 1 }

  ghost predicate NoLateFailure(s: State, es: seq<Event>)
    requires IsAnyRun(s, es)
    decreases |es|
  {
    es == [] || (!LateFailure(s, es[0]) && NoLateFailure(Apply(s, es[0]), es[1..]))
  }

  /** No unused descriptor, and none that a failed spawn is being undone on, names frames. */
  predicate TidyHere(d: Desc, w: Work) { d.state == Unused || w.Undo? ==> d.Clean() }

  ghost predicate Tidy(s: State) { forall i :: 0 <= i < |s.descs| ==> TidyHere(s.descs[i], WorkAt(s, i)) }

  lemma ExecKeepsTidy(v: Local, e: Event)
    requires DescOk(v.d, v.w) && CanExec(v, e) && TidyHere(v.d, v.w) && (e.Fail? ==> v.w.stage <= 1)
    ensures TidyHere(Exec(v, e).d, Exec(v, e).w)
  {}

  lemma TidyStep(s: State, e: Event)
    requires Inv(s) && Tidy(s) && Enabled(s, e) && !LateFailure(s, e)
    ensures Careful(s, e) && Tidy(Apply(s, e))
  {
    InvOrdered(s);
    hide Separate, NoLeak;
    var s' := Apply(s, e);
    if e.OtherTake? || e.OtherGive? {
      assert forall i :: 0 <= i < |s.descs| ==> WorkAt(s', i) == WorkAt(s, i);
    } else {
      var i := Site(s, e);
      TidySite(s, e);
      ExecKeepsTidy(View(s, i), e);
      if !e.Exit? {
        assert Ordered(s);
        SiteIsOwn(s, e);
        PutLinked(s, i, e.t, Exec(View(s, i), e));
      }
      hide Exec, CanExec, TidyHere, Linked;
      forall j | 0 <= j < |s.descs| ensures TidyHere(s'.descs[j], WorkAt(s', j)) {}
    }
  }

  lemma TidySite(s: State, e: Event)
    requires Inv(s) && Enabled(s, e) && !LateFailure(s, e) && !e.OtherTake? && !e.OtherGive?
    ensures var i := Site(s, e); DescOk(s.descs[i], WorkAt(s, i)) && (e.Fail? ==> WorkAt(s, i).stage <= 1)
  {}

  /** If no spawn fails after it has recorded frames, every claim is careful, so that everything above
      holds of the run. */
  lemma {:induction false} CarefulUnlessLateFailure(s: State, es: seq<Event>)
    requires Inv(s) && Tidy(s) && IsAnyRun(s, es) && NoLateFailure(s, es)
    ensures IsRun(s, es)
    decreases |es|
  {
    if es != [] {
      TidyStep(s, es[0]);
      InvStep(s, es[0]);
      CarefulUnlessLateFailure(Apply(s, es[0]), es[1..]);
    }
  }

  /** From a zeroed pool: with no such failure, whatever else happens, slots are conserved. */
  lemma ConservedUnlessLateFailure(s: State, es: seq<Event>)
    requires Init(s) && (forall i :: 0 <= i < |s.descs| ==> s.descs[i].Clean()) && IsAnyRun(s, es) && NoLateFailure(s, es)
    ensures IsRun(s, es)
    ensures (forall i :: 0 <= i < |Final(s, es).descs| ==> Final(s, es).descs[i].state == Unused) ==> Final(s, es).live == Final(s, es).others
  {
    InitInv(s);
    CarefulUnlessLateFailure(s, es);
    if forall i :: 0 <= i < |Final(s, es).descs| ==> Final(s, es).descs[i].state == Unused { SlotsAreConserved(s, es); }
  }

  // ------------------------------------------------------------ a run with a late failure

  predicate Leads(s: State, e: Event, s': State) { Enabled(s, e) && Apply(s, e) == s' }

  /** The run goes on to the given state. */
  ghost predicate Arrives(s: State, es: seq<Event>, f: State) { IsAnyRun(s, es) && FinalAny(s, es) == f }

  lemma {:induction false} ThenLeads(s: State, es: seq<Event>, m: State, e: Event, f: State)
    requires Arrives(s, es, m) && Leads(m, e, f)
    ensures Arrives(s, es + [e], f)
    decreases |es|
  {
    hide Apply, Enabled;
    if es == [] {
      assert es + [e] == [e] && [e][1..] == [];
      assert Arrives(f, [], f);
    } else {
      ThenLeads(Apply(s, es[0]), es[1..], m, e, f);
      assert (es + [e])[1..] == es[1..] + [e];
    }
  }

  /** A pool of one descriptor, used by thread 0. */
  function Lone(d: Desc, w: Work, live: set<nat>, others: set<nat>): State {
    State(live, others, [d], map[0 := w], if w == Idle then map[] else map[0 := 0])
  }

  function Zeroed(): State { Lone(Desc(Unused, {}, {}, {}), Idle, {}, {}) }

  /** The descriptor names slot 1 for its objects and slot 2 for its stack. */
  function Named(w: Work, live: set<nat>, others: set<nat>): State {
    Lone(Desc(if w == Idle then Unused else Running, {1}, {2}, {}), w, live, others)
  }

  lemma SpawnTwoParts()
    ensures Leads(Zeroed(), Claim(0, 0), Lone(Desc(Running, {}, {}, {}), Spawn(0, 0), {}, {}))
    ensures Leads(Lone(Desc(Running, {}, {}, {}), Spawn(0, 0), {}, {}), Take(0, {1}), Lone(Desc(Running, {1}, {}, {}), Spawn(0, 1), {1}, {}))
    ensures Leads(Lone(Desc(Running, {1}, {}, {}), Spawn(0, 1), {1}, {}), Take(0, {2}), Named(Spawn(0, 2), {1, 2}, {}))
  {}

  lemma UndoBoth()
    ensures Leads(Named(Spawn(0, 2), {1, 2}, {}), Fail(0), Named(Undo(0, 0), {1, 2}, {}))
    ensures Leads(Named(Undo(0, 0), {1, 2}, {}), Release(0), Named(Undo(0, 1), {2}, {}))
    ensures Leads(Named(Undo(0, 1), {2}, {}), Release(0), Named(Undo(0, 2), {}, {}))
  {}

  lemma ComesBack()
    ensures Leads(Named(Undo(0, 2), {}, {}), Release(0), Named(Undo(0, 3), {}, {}))
    ensures Leads(Named(Undo(0, 3), {}, {}), Return(0), Named(Idle, {}, {}))
    ensures Leads(Named(Idle, {}, {}), OtherTake({2}), Named(Idle, {2}, {2}))
  {}

  lemma ClaimsStale()
    ensures Leads(Named(Idle, {2}, {2}), Claim(0, 0), Named(Spawn(0, 0), {2}, {2}))
    ensures Leads(Named(Spawn(0, 0), {2}, {2}), Take(0, {1}), Named(Spawn(0, 1), {1, 2}, {2}))
  {}

  lemma UndoStale()
    ensures Leads(Named(Spawn(0, 1), {1, 2}, {2}), Fail(0), Named(Undo(0, 0), {1, 2}, {2}))
    ensures Leads(Named(Undo(0, 0), {1, 2}, {2}), Release(0), Named(Undo(0, 1), {2}, {2}))
    ensures Leads(Named(Undo(0, 1), {2}, {2}), Release(0), Named(Undo(0, 2), {}, {2}))
  {}

  /** A spawn fails with a stack recorded and is undone; the record keeps the stack's slot, which another
      client is then given. */
  lemma StaleRecord() returns (es: seq<Event>)
    ensures Arrives(Zeroed(), es, Named(Idle, {2}, {2}))
  {
    SpawnTwoParts();
    UndoBoth();
    ComesBack();
    assert Arrives(Zeroed(), [], Zeroed());
    hide *;
    es := [];
    ThenLeads(Zeroed(), es, Zeroed(), Claim(0, 0), Lone(Desc(Running, {}, {}, {}), Spawn(0, 0), {}, {}));
    es := es + [Claim(0, 0)];
    ThenLeads(Zeroed(), es, Lone(Desc(Running, {}, {}, {}), Spawn(0, 0), {}, {}), Take(0, {1}), Lone(Desc(Running, {1}, {}, {}), Spawn(0, 1), {1}, {}));
    es := es + [Take(0, {1})];
    ThenLeads(Zeroed(), es, Lone(Desc(Running, {1}, {}, {}), Spawn(0, 1), {1}, {}), Take(0, {2}), Named(Spawn(0, 2), {1, 2}, {}));
    es := es + [Take(0, {2})];
    ThenLeads(Zeroed(), es, Named(Spawn(0, 2), {1, 2}, {}), Fail(0), Named(Undo(0, 0), {1, 2}, {}));
    es := es + [Fail(0)];
    ThenLeads(Zeroed(), es, Named(Undo(0, 0), {1, 2}, {}), Release(0), Named(Undo(0, 1), {2}, {}));
    es := es + [Release(0)];
    ThenLeads(Zeroed(), es, Named(Undo(0, 1), {2}, {}), Release(0), Named(Undo(0, 2), {}, {}));
    es := es + [Release(0)];
    ThenLeads(Zeroed(), es, Named(Undo(0, 2), {}, {}), Release(0), Named(Undo(0, 3), {}, {}));
    es := es + [Release(0)];
    ThenLeads(Zeroed(), es, Named(Undo(0, 3), {}, {}), Return(0), Named(Idle, {}, {}));
    es := es + [Return(0)];
    ThenLeads(Zeroed(), es, Named(Idle, {}, {}), OtherTake({2}), Named(Idle, {2}, {2}));
    es := es + [OtherTake({2})];
  }

  lemma ForeignSlotFreed()
    ensures Init(Zeroed()) && Zeroed().descs[0].Clean()
    ensures var f := Named(Undo(0, 2), {}, {2}); 2 in f.others && 2 !in f.live && !Inv(f)
  {}

  /** A run from a zeroed pool that breaks ownership: if the next spawn on that record fails before it has
      a stack, undoing it frees slot 2 from under its holder. */
  lemma StaleRecordFreesForeignSlot() returns (es: seq<Event>, f: State)
    ensures Init(Zeroed()) && Zeroed().descs[0].Clean()
    ensures Arrives(Zeroed(), es, f) && 2 in f.others && 2 !in f.live && !Inv(f)
  {
    es := StaleRecord();
    ClaimsStale();
    UndoStale();
    f := Named(Undo(0, 2), {}, {2});
    ForeignSlotFreed();
    hide *;
    ThenLeads(Zeroed(), es, Named(Idle, {2}, {2}), Claim(0, 0), Named(Spawn(0, 0), {2}, {2}));
    es := es + [Claim(0, 0)];
    ThenLeads(Zeroed(), es, Named(Spawn(0, 0), {2}, {2}), Take(0, {1}), Named(Spawn(0, 1), {1, 2}, {2}));
    es := es + [Take(0, {1})];
    ThenLeads(Zeroed(), es, Named(Spawn(0, 1), {1, 2}, {2}), Fail(0), Named(Undo(0, 0), {1, 2}, {2}));
    es := es + [Fail(0)];
    ThenLeads(Zeroed(), es, Named(Undo(0, 0), {1, 2}, {2}), Release(0), Named(Undo(0, 1), {2}, {2}));
    es := es + [Release(0)];
    ThenLeads(Zeroed(), es, Named(Undo(0, 1), {2}, {2}), Release(0), f);
    es := es + [Release(0)];
  }

  // ------------------------------------------------------------ the life of a worker

  /** Thread t, which does nothing else, may work on descriptor i, which nobody else works on. */
  predicate Ready(s: State, i: nat, t: nat) { i < |s.descs| && i !in s.claimer && t in s.work && s.work[t] == Idle }

  /** The event is one of thread t at descriptor i. */
  predicate Concerns(e: Event, i: nat, t: nat, w: Work) {
    match e
    case Claim(u, j) => u == t && j == i && w == Idle
    case TryReap(u, j) => u == t && j == i && w == Idle
    case Exit(j) => j == i && w == Idle
    case OtherTake(_) => false
    case OtherGive(_) => false
    case _ => e.t == t && w != Idle && w.i == i
  }

  lemma SameState(s: State, i: nat, t: nat)
    requires Ready(s, i, t)
    ensures Put(s, i, t, Local(s.descs[i], Idle, s.live)) == s
  {
    assert s.descs[i := s.descs[i]] == s.descs && s.work[t := Idle] == s.work && s.claimer - {i} == s.claimer;
  }

  /** What it does to the pool is what it does there. */
  lemma StepThere(s: State, i: nat, t: nat, v: Local, e: Event)
    requires Ready(s, i, t) && CanExec(v, e) && Concerns(e, i, t, v.w) && (Exec(v, e).w != Idle ==> Exec(v, e).w.i == i)
    ensures Leads(Put(s, i, t, v), e, Put(s, i, t, Exec(v, e)))
  {
    var m, v' := Put(s, i, t, v), Exec(v, e);
    assert View(m, i) == v && Site(m, e) == i && ThreadReady(m, e);
    hide Exec, CanExec;
    assert m.descs[i := v'.d] == s.descs[i := v'.d] && m.work[t := v'.w] == s.work[t := v'.w];
    assert m.claimer - {i} == s.claimer - {i} && m.claimer[i := t] == s.claimer[i := t];
    if e.Exit? { ExitKeepsWork(v, e); }
  }

  lemma ExitKeepsWork(v: Local, e: Event)
    requires e.Exit? && CanExec(v, e)
    ensures Exec(v, e).w == v.w && Exec(v, e).live == v.live
  {}

  lemma GoesOn(s: State, i: nat, t: nat, es: seq<Event>, v: Local, e: Event, v': Local)
    requires Ready(s, i, t) && Arrives(s, es, Put(s, i, t, v))
    requires CanExec(v, e) && Concerns(e, i, t, v.w) && Exec(v, e) == v' && (v'.w != Idle ==> v'.w.i == i)
    ensures Arrives(s, es + [e], Put(s, i, t, v'))
  {
    StepThere(s, i, t, v, e);
    hide *;
    ThenLeads(s, es, Put(s, i, t, v), e, Put(s, i, t, v'));
  }

  /** Whatever the pool looks like, an unused descriptor that names no frames becomes a running worker: its claimer
      takes three runs of free slots and starts it, and the slots are then in use by it. */
  lemma SpawnCompletes(s: State, i: nat, t: nat, objects: set<nat>, stack: set<nat>, tls: set<nat>) returns (es: seq<Event>)
    requires Ready(s, i, t) && s.descs[i].state == Unused && s.descs[i].Clean()
    requires objects !! s.live && stack !! s.live + objects && tls !! s.live + objects + stack
    ensures es == [Claim(t, i), Take(t, objects), Take(t, stack), Take(t, tls), Start(t)]
    ensures Arrives(s, es, Put(s, i, t, Local(Desc(Running, objects, stack, tls), Idle, s.live + objects + stack + tls)))
  {
    SameState(s, i, t);
    var d := s.descs[i];
    var v0 := Local(d, Idle, s.live);
    var v1 := Local(d.(state := Running), Spawn(i, 0), s.live);
    var v2 := Local(Desc(Running, objects, {}, {}), Spawn(i, 1), s.live + objects);
    var v3 := Local(Desc(Running, objects, stack, {}), Spawn(i, 2), s.live + objects + stack);
    var v4 := Local(Desc(Running, objects, stack, tls), Spawn(i, 3), s.live + objects + stack + tls);
    var v5 := v4.(w := Idle);
    assert CanExec(v0, Claim(t, i)) && Exec(v0, Claim(t, i)) == v1;
    assert CanExec(v1, Take(t, objects)) && Exec(v1, Take(t, objects)) == v2;
    assert CanExec(v2, Take(t, stack)) && Exec(v2, Take(t, stack)) == v3;
    assert CanExec(v3, Take(t, tls)) && Exec(v3, Take(t, tls)) == v4;
    assert CanExec(v4, Start(t)) && Exec(v4, Start(t)) == v5;
    assert Arrives(s, [], s);
    hide CanExec, Exec, Arrives, Put;
    GoesOn(s, i, t, [], v0, Claim(t, i), v1);
    GoesOn(s, i, t, [] + [Claim(t, i)], v1, Take(t, objects), v2);
    GoesOn(s, i, t, [] + [Claim(t, i)] + [Take(t, objects)], v2, Take(t, stack), v3);
    GoesOn(s, i, t, [] + [Claim(t, i)] + [Take(t, objects)] + [Take(t, stack)], v3, Take(t, tls), v4);
    GoesOn(s, i, t, [] + [Claim(t, i)] + [Take(t, objects)] + [Take(t, stack)] + [Take(t, tls)], v4, Start(t), v5);
    es := [Claim(t, i), Take(t, objects), Take(t, stack), Take(t, tls), Start(t)];
    assert es == [] + [Claim(t, i)] + [Take(t, objects)] + [Take(t, stack)] + [Take(t, tls)] + [Start(t)];
  }

  /** A running worker that exits is reaped: the slots that its descriptor names are free again, and it is an unused
      one that names no frames. */
  lemma ReapCompletes(s: State, i: nat, t: nat) returns (es: seq<Event>)
    requires Ready(s, i, t) && s.descs[i].state == Running
    ensures es == [Exit(i), TryReap(t, i), Release(t), Release(t), Release(t), Return(t)]
    ensures Arrives(s, es, Put(s, i, t, Local(Desc(Unused, s.descs[i].objects, {}, {}), Idle, s.live - s.descs[i].All())))
  {
    SameState(s, i, t);
    var d := s.descs[i];
    var r := d.(state := Reaping);
    var v0 := Local(d, Idle, s.live);
    var v1 := Local(d.(state := Exited), Idle, s.live);
    var v2 := Local(r, Reap(i, 0), s.live);
    var v3 := Local(r, Reap(i, 1), s.live - d.objects);
    var v4 := Local(r, Reap(i, 2), s.live - d.objects - d.stack);
    var v5 := Local(r, Reap(i, 3), s.live - d.objects - d.stack - d.tls);
    var v6 := Local(Desc(Unused, d.objects, {}, {}), Idle, s.live - d.objects - d.stack - d.tls);
    assert CanExec(v0, Exit(i)) && Exec(v0, Exit(i)) == v1;
    assert CanExec(v1, TryReap(t, i)) && Exec(v1, TryReap(t, i)) == v2;
    assert CanExec(v2, Release(t)) && Exec(v2, Release(t)) == v3;
    assert CanExec(v3, Release(t)) && Exec(v3, Release(t)) == v4;
    assert CanExec(v4, Release(t)) && Exec(v4, Release(t)) == v5;
    assert CanExec(v5, Return(t)) && Exec(v5, Return(t)) == v6;
    assert v6.live == s.live - d.All();
    assert Arrives(s, [], s);
    hide CanExec, Exec, Arrives, Put, Desc.All;
    GoesOn(s, i, t, [], v0, Exit(i), v1);
    GoesOn(s, i, t, [] + [Exit(i)], v1, TryReap(t, i), v2);
    GoesOn(s, i, t, [] + [Exit(i)] + [TryReap(t, i)], v2, Release(t), v3);
    GoesOn(s, i, t, [] + [Exit(i)] + [TryReap(t, i)] + [Release(t)], v3, Release(t), v4);
    GoesOn(s, i, t, [] + [Exit(i)] + [TryReap(t, i)] + [Release(t)] + [Release(t)], v4, Release(t), v5);
    GoesOn(s, i, t, [] + [Exit(i)] + [TryReap(t, i)] + [Release(t)] + [Release(t)] + [Release(t)], v5, Return(t), v6);
    es := [Exit(i), TryReap(t, i), Release(t), Release(t), Release(t), Return(t)];
    assert es == [] + [Exit(i)] + [TryReap(t, i)] + [Release(t)] + [Release(t)] + [Release(t)] + [Return(t)];
  }

  /** A spawn that gets no slots gives the descriptor back at once. */
  lemma RefusedComesBack(s: State, i: nat, t: nat) returns (es: seq<Event>)
    requires Ready(s, i, t) && s.descs[i].state == Unused
    ensures es == [Claim(t, i), Refused(t)] && Arrives(s, es, s)
  {
    SameState(s, i, t);
    var d := s.descs[i];
    var v0, v1 := Local(d, Idle, s.live), Local(d.(state := Running), Spawn(i, 0), s.live);
    assert CanExec(v0, Claim(t, i)) && Exec(v0, Claim(t, i)) == v1;
    assert CanExec(v1, Refused(t)) && Exec(v1, Refused(t)) == v0;
    assert Arrives(s, [], s);
    hide CanExec, Exec, Arrives, Put;
    GoesOn(s, i, t, [], v0, Claim(t, i), v1);
    GoesOn(s, i, t, [] + [Claim(t, i)], v1, Refused(t), v0);
    es := [Claim(t, i), Refused(t)];
    assert es == [] + [Claim(t, i)] + [Refused(t)];
  }

  /** Another client that takes free slots and gives them back leaves the pool as it was. */
  lemma OthersPassThrough(s: State, run: set<nat>)
    requires s.others <= s.live && run !! s.live
    ensures Arrives(s, [OtherTake(run), OtherGive(run)], s)
  {
    var m := s.(live := s.live + run, others := s.others + run);
    assert m.live - run == s.live && m.others - run == s.others;
    assert Leads(s, OtherTake(run), m) && Leads(m, OtherGive(run), s) && Arrives(s, [], s);
    hide Leads, Arrives;
    ThenLeads(s, [], s, OtherTake(run), m);
    ThenLeads(s, [] + [OtherTake(run)], m, OtherGive(run), s);
    assert [OtherTake(run), OtherGive(run)] == [] + [OtherTake(run)] + [OtherGive(run)];
  }
}

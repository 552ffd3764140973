/** Several threads calling the slot allocator.  The lock covers one section at a time: a scan of the
    segments, one round of the wait for an expansion, a free.  Between two sections of a blocking call
    anybody else may run. */
module SlotCallers {
  import opened Common
  import S = Segment
  import P = SlotPool
  import H = SlotHistory
  import A = SlotAlloc

  type Tid = nat

  /** What a blocking call asks for: one slot, or n in a row. */
  datatype Want = Single | Row(n: nat)

  /** The next locked section of a blocking call, and the round of its loop. */
  datatype Pc = Scan(want: Want, round: nat) | Drive(want: Want, round: nat)

  datatype Answer = Got(slot: nat) | Refused | LoopEnded

  /** How often a blocking call scans at most. */
  const ROUNDS: nat := A.MAX_SEGMENTS + 2

  /** Which call a thread is in, and the segments and the length of the history at its last scan. */
  datatype Note = Note(call: nat, seen: seq<S.Segment>, from: nat)

  datatype Event =
    | Begin(t: Tid, want: Want)
    | Section(t: Tid, reply: A.Reply)
    | Free(slot: nat)
    | FreeRange(base: nat, n: nat)
    | Async(reply: A.Reply)
    | NoExpand

  predicate PlausibleEvent(e: Event) { e.Section? || e.Async? ==> A.PlausibleReply(e.reply) }

  // ------------------------------------------------------------ between a scan and a refusal

  ghost predicate FreedSince(log: seq<H.Event>, from: nat, x: nat) {
    exists i :: from <= i < |log| && log[i] == H.Free(x)
  }

  lemma {:induction false} KeptUnlessFreed(log: seq<H.Event>, from: nat, x: nat)
    requires from <= |log| && x in H.Replay(log[..from])
    ensures x in H.Replay(log) || FreedSince(log, from, x)
    decreases |log|
  {
    if from == |log| {
      assert log[..from] == log;
    } else {
      var m := |log| - 1;
      assert log[..m][..from] == log[..from];
      KeptUnlessFreed(log[..m], from, x);
      if FreedSince(log[..m], from, x) {
        var i :| from <= i < m && log[..m][i] == H.Free(x);
        assert log[i] == H.Free(x);
      }
    }
  }

  /** The segments have nothing to offer. */
  ghost predicate Lacks(segs: seq<S.Segment>, want: Want)
    requires P.AllOk(segs)
  {
    match want
    case Single => P.Live(segs) == P.Universe(segs)
    case Row(n) => !P.HasWindow(segs, n)
  }

  /** The note describes a scan that found nothing. */
  ghost predicate Scanned(segs: seq<S.Segment>, log: seq<H.Event>, note: Note, want: Want) {
    && P.AllOk(note.seen) && P.Disjoint(note.seen) && P.Extends(note.seen, segs) && Lacks(note.seen, want)
    && note.from <= |log| && H.Replay(log[..note.from]) == P.Live(note.seen)
  }

  lemma ScannedStays(segs: seq<S.Segment>, log: seq<H.Event>, segs': seq<S.Segment>, log': seq<H.Event>, note: Note, want: Want)
    requires Scanned(segs, log, note, want) && P.Extends(segs, segs') && log <= log'
    ensures Scanned(segs', log', note, want)
  {
    hide Lacks, P.Live, P.Disjoint, H.Replay;
    assert log'[..note.from] == log[..note.from];
  }

  /** The slots that were freed or added since the scan. */
  ghost function Opened(segs: seq<S.Segment>, log: seq<H.Event>, note: Note): set<nat> {
    set x | x in P.Universe(segs) && (FreedSince(log, note.from, x) || x !in P.Universe(note.seen))
  }

  /** Such slots would serve the call now. */
  ghost predicate Reopened(segs: seq<S.Segment>, log: seq<H.Event>, note: Note, want: Want)
    requires P.AllOk(segs)
  {
    match want
    case Single => exists x :: x in Opened(segs, log, note) && x !in P.Live(segs)
    case Row(n) => exists k: nat, x: nat :: P.Window(segs, k, x, n) && !(S.Range(x, x + n) !! Opened(segs, log, note))
  }

  lemma LacksSingleIff(segs: seq<S.Segment>, log: seq<H.Event>, note: Note)
    requires P.AllOk(segs) && H.Replay(log) == P.Live(segs) && Scanned(segs, log, note, Single)
    ensures Lacks(segs, Single) <==> !Reopened(segs, log, note, Single)
  {
    hide P.Live, P.Universe, P.Disjoint, H.Replay, FreedSince;
    P.LiveInUniverse(segs);
    forall x | x in P.Universe(segs) && x !in P.Live(segs)
      ensures x in Opened(segs, log, note)
    {
      if x in P.Universe(note.seen) { KeptUnlessFreed(log, note.from, x); }
    }
  }

  /** A window that no opened slot is part of was there at the scan. */
  lemma OldWindow(segs: seq<S.Segment>, log: seq<H.Event>, note: Note, k: nat, x: nat, n: nat)
    requires P.AllOk(segs) && P.Disjoint(segs) && H.Replay(log) == P.Live(segs) && 0 < n
    requires P.AllOk(note.seen) && P.Extends(note.seen, segs)
    requires note.from <= |log| && H.Replay(log[..note.from]) == P.Live(note.seen)
    requires P.Window(segs, k, x, n) && S.Range(x, x + n) !! Opened(segs, log, note)
    ensures P.Window(note.seen, k, x, n)
  {
    hide P.Live, P.Universe, H.Replay, FreedSince;
    P.InUniverse(segs, x);
    P.InUniverse(note.seen, x);
    assert x in S.Range(x, x + n) && x in P.Slots(segs[k]);
    if j :| 0 <= j < |note.seen| && x in P.Slots(note.seen[j]) {
      assert x in P.Slots(segs[j]);
    }
    forall y | y in S.Range(x, x + n)
      ensures y !in P.Live(note.seen)
    {
      assert y in P.Slots(segs[k]);
      P.InUniverse(segs, y);
      if y in P.Live(note.seen) { KeptUnlessFreed(log, note.from, y); }
    }
  }

  lemma LacksRowIff(segs: seq<S.Segment>, log: seq<H.Event>, note: Note, n: nat)
    requires P.AllOk(segs) && P.Disjoint(segs) && H.Replay(log) == P.Live(segs) && Scanned(segs, log, note, Row(n)) && 0 < n
    ensures Lacks(segs, Row(n)) <==> !Reopened(segs, log, note, Row(n))
  {
    hide P.Live, P.Universe, P.Disjoint, P.Window, H.Replay, Opened, S.Range;
    forall k: nat, x: nat | P.Window(segs, k, x, n)
      ensures !(S.Range(x, x + n) !! Opened(segs, log, note))
    {
      if S.Range(x, x + n) !! Opened(segs, log, note) { OldWindow(segs, log, note, k, x, n); }
    }
  }

  /** If nobody frees a slot and no segment is added, nothing is opened. */
  lemma NothingOpened(segs: seq<S.Segment>, log: seq<H.Event>, note: Note)
    requires P.Extends(note.seen, segs) && |note.seen| == |segs| && forall i :: note.from <= i < |log| ==> !log[i].Free?
    ensures Opened(segs, log, note) == {}
  {
    hide P.Universe;
    forall x | x in P.Universe(segs)
      ensures x in P.Universe(note.seen)
    {
      P.InUniverse(segs, x);
      P.InUniverse(note.seen, x);
      var k :| 0 <= k < |segs| && x in P.Slots(segs[k]);
      assert x in P.Slots(note.seen[k]);
    }
  }

  // ------------------------------------------------------------ the callers

  /** How many expansions the given call completed. */
  function Rounds(doneBy: seq<nat>, call: nat): nat { multiset(doneBy)[call] }

  class Callers {
    const alloc: A.SlotAllocator
    /** The threads that are inside a blocking call. */
    var pcs: map<Tid, Pc>
    ghost var notes: map<Tid, Note>
    /** How many blocking calls there were; they are numbered from 1. */
    ghost var calls: nat
    /** The call that completed each expansion, 0 for a call that never waits. */
    ghost var doneBy: seq<nat>

    /** The extra rounds of a call are the expansions that it completed itself. */
    ghost predicate CallOk(t: Tid)
      requires t in pcs && t in notes
      reads this, alloc
    {
      && alloc.initialized && pcs[t].want != Row(0)
      && 0 < notes[t].call <= calls && pcs[t].round == Rounds(doneBy, notes[t].call)
      && (pcs[t].Drive? ==> Scanned(alloc.segments, alloc.log, notes[t], pcs[t].want))
    }

    ghost predicate CallsOk()
      reads this, alloc
    {
      && (forall k :: 0 <= k < |doneBy| ==> doneBy[k] <= calls)
      && pcs.Keys == notes.Keys && (forall t :: t in pcs ==> CallOk(t))
      && (forall t, u :: t in notes && u in notes && t != u ==> notes[t].call != notes[u].call)
    }

    ghost predicate Valid()
      reads this, alloc
    {
      alloc.Valid() && |doneBy| == alloc.expansions && CallsOk()
    }

    /** Nobody is inside a call.  The expansions there are were completed earlier. */
    constructor (alloc: A.SlotAllocator)
      requires alloc.Valid()
      ensures Valid() && this.alloc == alloc && pcs == map[] && calls == 0
    {
      this.alloc, pcs, notes, calls, doneBy := alloc, map[], map[], 0, seq(alloc.expansions, _ => 0);
    }

    /** What is known of the calls is not touched by what happens to the allocator. */
    twostate lemma CallsKept()
      requires old(CallsOk()) && unchanged(this) && alloc.Grew()
      ensures CallsOk()
    {
      hide Scanned, P.Extends;
      forall t | t in pcs ensures CallOk(t) {
        assert old(CallOk(t));
        if pcs[t].Drive? {
          ScannedStays(old(alloc.segments), old(alloc.log), alloc.segments, alloc.log, notes[t], pcs[t].want);
        }
      }
    }

    /** A blocking call begins; without a pool, or for no slots, it ends at once. */
    method Begin(t: Tid, want: Want) returns (entered: bool)
      requires Valid() && t !in pcs
      modifies this
      ensures Valid() && doneBy == old(doneBy)
      ensures entered <==> alloc.initialized && want != Row(0)
      ensures pcs == if entered then old(pcs)[t := Scan(want, 0)] else old(pcs)
      ensures entered ==> calls == old(calls) + 1 && notes == old(notes)[t := Note(calls, [], 0)]
      ensures !entered ==> unchanged(this)
    {
      hide A.SlotAllocator.Valid, Scanned, Rounds;
      NoRoundsYet(doneBy, calls);
      entered := alloc.initialized && want != Row(0);
      if entered {
        calls := calls + 1;
        pcs := pcs[t := Scan(want, 0)];
        notes := notes[t := Note(calls, [], 0)];
        forall u | u in pcs && u != t ensures CallOk(u) { assert old(CallOk(u)); }
      }
    }

    /** The thread's call has ended, and nothing else has changed for the callers. */
    twostate predicate Left(t: Tid)
      reads this
    {
      pcs == old(pcs) - {t} && notes == old(notes) - {t} && calls == old(calls)
    }

    /** One locked scan for what is wanted. */
    method ScanFor(want: Want) returns (slot: Option<nat>)
      requires alloc.Valid() && want != Row(0)
      modifies alloc
      ensures alloc.Valid() && alloc.Grew() && alloc.Universe() == old(alloc.Universe()) && alloc.expansions == old(alloc.expansions)
      ensures slot.None? <==> old(Lacks(alloc.segments, want))
      ensures slot.None? ==> unchanged(alloc)
      ensures slot.Some? ==> TookSlots(slot.value, Size(want))
    {
      hide A.SlotAllocator.ProtocolOk, A.TookFrom, P.Live, P.Universe, P.Disjoint, P.HasWindow, S.Range, H.Fair, H.Replay, H.AllocAll;
      match want {
        case Single =>
          slot := alloc.AllocFast();
          if slot.Some? { S.RangeSnoc(slot.value, slot.value); }
        case Row(n) =>
          slot := alloc.AllocRunFast(n);
      }
    }

    twostate predicate TookSlots(slot: nat, n: nat)
      requires old(alloc.Valid()) && alloc.Valid()
      reads alloc
    {
      var slots := S.Range(slot, slot + n);
      slots <= alloc.Universe() && slots !! old(alloc.InUse()) && alloc.InUse() == old(alloc.InUse()) + slots
    }

    /** The locked scan of a call.  What it finds nothing of is not there at that moment. */
    method ScanSection(t: Tid) returns (answer: Option<Answer>)
      requires Valid() && t in pcs && pcs[t].Scan?
      modifies this, alloc
      ensures Valid() && doneBy == old(doneBy) && alloc.Universe() == old(alloc.Universe())
      ensures answer.Some? ==> answer.value.Got? && Left(t) && TookSlots(answer.value.slot, Size(old(pcs[t].want)))
      ensures answer.None? <==> old(Lacks(alloc.segments, pcs[t].want))
      ensures answer.None? ==> unchanged(alloc) && pcs == old(pcs)[t := Drive(old(pcs[t].want), old(pcs[t].round))]
      ensures answer.None? ==> notes == old(notes)[t := Note(old(notes[t].call), alloc.segments, |alloc.log|)]
    {
      hide Scanned, A.SlotAllocator.Valid, A.SlotAllocator.Universe, A.SlotAllocator.InUse, TookSlots, Lacks;
      assert CallOk(t);
      var slot := ScanFor(pcs[t].want);
      CallsKept();
      hide CallsOk, CallOk, A.SlotAllocator.Grew;
      if slot.Some? {
        Leave(t);
        answer := Some(Got(slot.value));
      } else {
        Wait(t);
        answer := None;
      }
    }

    /** The call has scanned and found nothing, and goes on to wait for an expansion. */
    method Wait(t: Tid)
      requires CallsOk() && alloc.Valid() && t in pcs && pcs[t].Scan? && Lacks(alloc.segments, pcs[t].want)
      modifies this`pcs, this`notes
      ensures CallsOk() && pcs == old(pcs)[t := Drive(old(pcs[t].want), old(pcs[t].round))]
      ensures notes == old(notes)[t := Note(old(notes[t].call), alloc.segments, |alloc.log|)]
    {
      hide Scanned, A.SlotAllocator.Valid;
      assert CallOk(t);
      ScannedNow(alloc, notes[t].call, pcs[t].want);
      pcs := pcs[t := Drive(pcs[t].want, pcs[t].round)];
      notes := notes[t := Note(notes[t].call, alloc.segments, |alloc.log|)];
      forall u | u in pcs && u != t ensures CallOk(u) { assert old(CallOk(u)); }
    }

    /** The call ends. */
    method Leave(t: Tid)
      requires CallsOk()
      modifies this`pcs, this`notes
      ensures CallsOk() && Left(t)
    {
      hide Scanned;
      pcs, notes := pcs - {t}, notes - {t};
    }

    /** The call has completed an expansion and goes on to its next round, if there is one. */
    method NextRound(t: Tid) returns (answer: Option<Answer>)
      requires CallsOk() && alloc.Valid() && |doneBy| + 1 == alloc.expansions && t in pcs && pcs[t].Drive?
      modifies this`pcs, this`doneBy
      ensures Valid() && answer.None? && doneBy == old(doneBy) + [notes[t].call]
      ensures pcs == old(pcs)[t := Scan(old(pcs[t].want), old(pcs[t].round) + 1)]
    {
      hide Scanned, A.SlotAllocator.Valid, Rounds;
      assert CallOk(t);
      ghost var call := notes[t].call;
      doneBy := doneBy + [call];
      OneMore(old(doneBy), call);
      RoundsBounded(doneBy, call, alloc);
      var more := pcs[t].round + 1 < ROUNDS;
      pcs := if more then pcs[t := Scan(pcs[t].want, pcs[t].round + 1)] else pcs - {t};
      answer := if more then None else Some(LoopEnded);
      forall u | u in pcs && u != t ensures CallOk(u) { assert old(CallOk(u)); }
    }

    /** What a refusal says: at the last scan there was nothing, now there may be no further expansion, and
        now there is nothing exactly if nothing that would do was freed or added in between. */
    ghost predicate RefusalMeans(note: Note, want: Want)
      requires alloc.Valid()
      reads alloc
    {
      && P.AllOk(note.seen) && Lacks(note.seen, want) && !alloc.MayExpand()
      && (Lacks(alloc.segments, want) <==> !Reopened(alloc.segments, alloc.log, note, want))
    }

    /** One locked round of the wait of a call.  The bound on the call's loop is never reached: each of its
        rounds but the first is paid for by an expansion that it completed, and there are at most eight. */
    method DriveSection(t: Tid, reply: A.Reply) returns (answer: Option<Answer>)
      requires Valid() && t in pcs && pcs[t].Drive? && A.PlausibleReply(reply)
      modifies this, alloc
      ensures Valid()
      ensures answer.Some? ==> answer.value == Refused && Left(t) && RefusalMeans(old(notes[t]), old(pcs[t].want))
      ensures !old(alloc.MayExpand()) ==> answer.Some?
      ensures doneBy != old(doneBy) <==>
                reply.probeOk && old(alloc.expand == A.Requested && alloc.MayExpand() && |alloc.segments| < A.MAX_SEGMENTS)
      ensures answer.None? ==> notes == old(notes) && t in pcs
      ensures doneBy != old(doneBy) ==>
                && pcs == old(pcs)[t := Scan(old(pcs[t].want), old(pcs[t].round) + 1)]
                && alloc.Expanded() && doneBy == old(doneBy) + [notes[t].call]
      ensures doneBy == old(doneBy) ==> unchanged(alloc`segments, alloc`log) && (answer.None? ==> pcs == old(pcs))
      ensures answer.Some? ==> doneBy == old(doneBy)
    {
      hide Scanned, A.SlotAllocator.Valid, A.SlotAllocator.Universe, A.SlotAllocator.InUse, RefusalMeans;
      assert CallOk(t);
      var p := alloc.DriveStep(reply);
      CallsKept();
      assert CallOk(t);
      hide CallsOk, CallOk;
      match p
      case Completed =>
        answer := NextRound(t);
      case Pending =>
        answer := None;
      case Broken =>
        Refusal(t, pcs[t].want);
        Leave(t);
        answer := Some(Refused);
    }

    lemma Refusal(t: Tid, want: Want)
      requires alloc.Valid() && t in notes && want != Row(0) && !alloc.MayExpand()
      requires Scanned(alloc.segments, alloc.log, notes[t], want)
      ensures RefusalMeans(notes[t], want)
    {
      hide P.Live, P.Universe, P.Disjoint, H.Replay, Reopened, A.SlotAllocator.ProtocolOk;
      match want
      case Single => LacksSingleIff(alloc.segments, alloc.log, notes[t]);
      case Row(n) => LacksRowIff(alloc.segments, alloc.log, notes[t], n);
    }

    /** Anybody frees a slot, or a range of them, in one locked section. */
    method FreeSection(base: nat, n: nat)
      requires Valid()
      modifies alloc
      ensures Valid() && alloc.Universe() == old(alloc.Universe()) && alloc.InUse() == old(alloc.InUse()) - S.Range(base, base + n)
      ensures alloc.expansions == old(alloc.expansions)
    {
      hide Scanned, A.SlotAllocator.Valid, A.SlotAllocator.Universe, A.SlotAllocator.InUse;
      alloc.FreeRange(base, n);
      CallsKept();
    }

    /** Anybody allocates without waiting. */
    method AsyncSection(reply: A.Reply) returns (r: A.SlotResult)
      requires Valid() && A.PlausibleReply(reply)
      modifies this`doneBy, alloc
      ensures Valid()
      ensures r == A.AsyncResult(old(alloc.InUse() == alloc.Universe()), old(alloc.MayExpand()), old(alloc.expand), old(|alloc.segments|), reply, r.Slot())
    {
      hide Scanned, A.SlotAllocator.Valid, A.SlotAllocator.Universe, A.SlotAllocator.InUse;
      r := alloc.AllocAsync(reply);
      CallsKept();
      if |doneBy| < alloc.expansions {
        label before:
        doneBy := doneBy + [0];
        forall u | u in pcs ensures CallOk(u) { assert old@before(CallOk(u)); }
      }
    }

    method NoExpandSection() returns (slot: Option<nat>)
      requires Valid()
      modifies alloc
      ensures Valid() && alloc.expansions == old(alloc.expansions)
      ensures slot.None? <==> old(alloc.InUse() == alloc.Universe())
      ensures slot.Some? ==> TookSlots(slot.value, 1)
    {
      hide Scanned, A.SlotAllocator.Valid;
      slot := ScanFor(Single);
      CallsKept();
    }

    /** Any sequence of sections of any number of threads.  Events of threads that are not there to take
        them do nothing. */
    method Run(es: seq<Event>) returns (answers: seq<Answer>)
      requires Valid() && forall i :: 0 <= i < |es| ==> PlausibleEvent(es[i])
      modifies this, alloc
      ensures Valid() && LoopEnded !in answers
      ensures P.Disjoint(alloc.segments) && alloc.expansions <= A.MAX_EXPANSIONS && |alloc.segments| <= A.MAX_SEGMENTS
      ensures alloc.expand == A.Requested ==> alloc.expansions < A.MAX_EXPANSIONS && alloc.ntfn != 0 && alloc.initialized
      ensures alloc.expand == A.Failed ==> alloc.initial > A.MAX_SEGMENTS - A.MAX_EXPANSIONS
      ensures H.Fair(alloc.log) && H.Replay(alloc.log) == alloc.InUse()
    {
      hide Valid;
      answers := [];
      var i := 0;
      while i < |es|
        invariant i <= |es| && Valid() && LoopEnded !in answers
      {
        var answer := Take(es[i]);
        if answer.Some? { answers := answers + [answer.value]; }
        i := i + 1;
      }
      Everywhere();
    }

    lemma Everywhere()
      requires Valid()
      ensures alloc.Valid() && P.Disjoint(alloc.segments) && H.Fair(alloc.log) && H.Replay(alloc.log) == alloc.InUse()
      ensures alloc.expansions <= A.MAX_EXPANSIONS && |alloc.segments| <= A.MAX_SEGMENTS
      ensures alloc.expand == A.Requested ==> alloc.expansions < A.MAX_EXPANSIONS && alloc.ntfn != 0 && alloc.initialized
      ensures alloc.expand == A.Failed ==> alloc.initial > A.MAX_SEGMENTS - A.MAX_EXPANSIONS
    {
      alloc.ProtocolSafety();
    }

    method Take(e: Event) returns (answer: Option<Answer>)
      requires Valid() && PlausibleEvent(e)
      modifies this, alloc
      ensures Valid() && answer != Some(LoopEnded)
    {
      hide CallOk, A.SlotAllocator.Valid;
      answer := None;
      match e
      case Begin(t, want) =>
        if t !in pcs { var _ := Begin(t, want); }
      case Section(t, reply) =>
        if t in pcs {
          if pcs[t].Scan? { answer := ScanSection(t); } else { answer := DriveSection(t, reply); }
        }
      case Free(slot) => FreeSection(slot, 1);
      case FreeRange(base, n) => FreeSection(base, n);
      case Async(reply) => var _ := AsyncSection(reply);
      case NoExpand => var _ := NoExpandSection();
    }
  }

  function Size(want: Want): nat { if want.Single? then 1 else want.n }

  lemma ScannedNow(alloc: A.SlotAllocator, call: nat, want: Want)
    requires alloc.Valid() && Lacks(alloc.segments, want)
    ensures Scanned(alloc.segments, alloc.log, Note(call, alloc.segments, |alloc.log|), want)
  {
    hide P.Live, P.Disjoint, H.Replay, Lacks, A.SlotAllocator.ProtocolOk;
    assert alloc.log[..|alloc.log|] == alloc.log;
  }

  lemma RoundsBounded(doneBy: seq<nat>, call: nat, alloc: A.SlotAllocator)
    requires alloc.Valid() && |doneBy| == alloc.expansions
    ensures Rounds(doneBy, call) <= A.MAX_EXPANSIONS < ROUNDS
  {
    hide A.SlotAllocator.PoolOk;
    CountAtMost(doneBy, call);
  }

  lemma NoRoundsYet(doneBy: seq<nat>, calls: nat)
    requires forall k :: 0 <= k < |doneBy| ==> doneBy[k] <= calls
    ensures Rounds(doneBy, calls + 1) == 0
  {
    assert calls + 1 !in doneBy;
  }

  lemma OneMore(s: seq<nat>, x: nat)
    ensures Rounds(s + [x], x) == Rounds(s, x) + 1
    ensures forall y :: y != x ==> Rounds(s + [x], y) == Rounds(s, y)
  {}

  lemma {:induction false} CountAtMost(s: seq<nat>, x: nat)
    ensures Rounds(s, x) <= |s|
  {
    if s != [] {
      assert s == s[..|s| - 1] + [s[|s| - 1]];
      CountAtMost(s[..|s| - 1], x);
    }
  }

  /** Any run, from a startup pool that keeps out of the expansions' slots. */
  method RunFromStart(base: nat, count: nat, ntfn: nat, es: seq<Event>) returns (c: Callers, answers: seq<Answer>)
    requires (ntfn == 0 || A.Clear(base, base + count)) && forall i :: 0 <= i < |es| ==> PlausibleEvent(es[i])
    ensures c.Valid() && LoopEnded !in answers && P.Disjoint(c.alloc.segments) && H.Fair(c.alloc.log)
  {
    hide A.SlotAllocator.Valid, Callers.CallsOk;
    var a := new A.SlotAllocator(base, count, ntfn);
    c := new Callers(a);
    answers := c.Run(es);
  }

  // ------------------------------------------------------------ refused although there is room

  /** An allocator with seven expansions, every slot taken, and the last expansion asked for. */
  method BeforeTheLast(base: nat, count: nat, ntfn: nat) returns (a: A.SlotAllocator)
    requires ntfn != 0 && A.Clear(base, base + count) && 0 < count <= 8 * S.MAX_SLOTS
    ensures fresh(a) && a.Valid() && a.expansions == 7 && a.InUse() == a.Universe() && a.expand == A.Requested
    ensures a.MayExpand() && |a.segments| < A.MAX_SEGMENTS
  {
    a := new A.SlotAllocator(base, count, ntfn);
    hide A.SlotAllocator.Valid, A.SlotAllocator.Universe, A.SlotAllocator.InUse, S.Range, A.Clear;
    var r := A.Exhausted;
    while !(r.WouldBlock? && a.expansions == 7)
      invariant fresh(a) && a.Valid() && a.initialized && a.ntfn != 0 && a.initial <= 8 && a.expansions <= 7
      invariant a.expand == A.Requested <==> r.WouldBlock?
      invariant r.WouldBlock? ==> a.InUse() == a.Universe()
      decreases 7 - a.expansions, a.Universe() - a.InUse(), a.expand == A.Idle
    {
      a.ProtocolSafety();
      r := a.AllocAsync(A.Reply(None, true));
      a.ProtocolSafety();
    }
    a.ProtocolSafety();
  }

  lemma LacksSingle(alloc: A.SlotAllocator)
    requires alloc.Valid()
    ensures Lacks(alloc.segments, Single) <==> alloc.InUse() == alloc.Universe()
  {
    hide P.Live, P.Universe, P.Disjoint, H.Fair, H.Replay;
  }

  /** A thread asks for one slot and finds every slot taken. */
  method ScanInVain(c: Callers, t: Tid) returns (answer: Option<Answer>)
    requires c.Valid() && t !in c.pcs && c.alloc.initialized && c.alloc.InUse() == c.alloc.Universe()
    modifies c, c.alloc
    ensures c.Valid() && unchanged(c.alloc) && answer == None && c.pcs == old(c.pcs)[t := Drive(Single, 0)]
  {
    hide Callers.CallsOk, A.SlotAllocator.Valid, A.SlotAllocator.Universe, A.SlotAllocator.InUse;
    var _ := c.Begin(t, Single);
    LacksSingle(c.alloc);
    answer := c.ScanSection(t);
  }

  /** Two callers find every slot taken.  One of them completes the last expansion; the other is refused
      with all of its 1024 slots free. */
  method LateCaller(base: nat, count: nat, ntfn: nat) returns (c: Callers, scans: seq<Option<Answer>>, waits: seq<Option<Answer>>)
    requires ntfn != 0 && A.Clear(base, base + count) && 0 < count <= 8 * S.MAX_SLOTS
    ensures c.Valid() && scans == [None, None] && waits == [None, Some(Refused)]
    ensures c.alloc.Universe() - c.alloc.InUse() == A.ExpansionSlots(7)
  {
    hide Callers.CallsOk, A.SlotAllocator.Valid, A.SlotAllocator.Universe, A.SlotAllocator.InUse, A.ExpansionSlots, Callers.RefusalMeans;
    var a := BeforeTheLast(base, count, ntfn);
    c := new Callers(a);
    var s0 := ScanInVain(c, 0);
    var s1 := ScanInVain(c, 1);
    var w0, w1 := LastExpansion(c);
    scans, waits := [s0, s1], [w0, w1];
  }

  method LastExpansion(c: Callers) returns (w0: Option<Answer>, w1: Option<Answer>)
    requires c.Valid() && 0 in c.pcs && 1 in c.pcs && c.pcs[0].Drive? && c.pcs[1].Drive?
    requires c.alloc.expansions == 7 && c.alloc.expand == A.Requested && |c.alloc.segments| < A.MAX_SEGMENTS
    requires c.alloc.MayExpand() && c.alloc.InUse() == c.alloc.Universe()
    modifies c, c.alloc
    ensures c.Valid() && w0 == None && w1 == Some(Refused)
    ensures c.alloc.Universe() - c.alloc.InUse() == A.ExpansionSlots(7)
  {
    hide Callers.CallsOk, A.SlotAllocator.Valid, A.ExpansionSlots, Callers.RefusalMeans, P.Live, P.Universe;
    w0 := c.DriveSection(0, A.Reply(None, true));
    w1 := c.DriveSection(1, A.Reply(None, true));
  }

  /** A caller that finds every slot taken is refused although a slot has been freed since. */
  method LateFree(base: nat, count: nat) returns (c: Callers, scan: Option<Answer>, wait: Option<Answer>)
    requires 0 < count <= A.MAX_SEGMENTS * S.MAX_SLOTS
    ensures c.Valid() && scan == None && wait == Some(Refused)
    ensures c.alloc.Universe() - c.alloc.InUse() == {base}
  {
    var a := AllTaken(base, count);
    hide Callers.CallsOk, A.SlotAllocator.Valid, A.SlotAllocator.Universe, A.SlotAllocator.InUse, Callers.RefusalMeans;
    c := new Callers(a);
    scan := ScanInVain(c, 0);
    wait := FreeMeanwhile(c, base);
  }

  method FreeMeanwhile(c: Callers, slot: nat) returns (wait: Option<Answer>)
    requires c.Valid() && 0 in c.pcs && c.pcs[0].Drive? && c.alloc.ntfn == 0
    requires c.alloc.InUse() == c.alloc.Universe() && slot in c.alloc.Universe()
    modifies c, c.alloc
    ensures c.Valid() && wait == Some(Refused) && c.alloc.Universe() - c.alloc.InUse() == {slot}
  {
    hide Callers.CallsOk, A.SlotAllocator.Valid, Callers.RefusalMeans, P.Live, P.Universe;
    c.FreeSection(slot, 1);
    assert S.Range(slot, slot + 1) == {slot};
    hide S.Range;
    wait := c.DriveSection(0, A.Reply(None, false));
  }

  /** An allocator without expansions, every slot taken. */
  method AllTaken(base: nat, count: nat) returns (a: A.SlotAllocator)
    requires 0 < count <= A.MAX_SEGMENTS * S.MAX_SLOTS
    ensures fresh(a) && a.Valid() && a.initialized && a.ntfn == 0 && a.InUse() == a.Universe() && base in a.Universe()
  {
    a := new A.SlotAllocator(base, count, 0);
    assert base in S.Range(base, base + count);
    hide A.SlotAllocator.Valid, A.SlotAllocator.Universe, A.SlotAllocator.InUse, S.Range;
    var slot := Some(0);
    while slot.Some?
      invariant fresh(a) && a.Valid() && base in a.Universe()
      invariant slot.None? ==> a.InUse() == a.Universe()
      decreases a.Universe() - a.InUse(), slot.Some?
    {
      slot := a.AllocFast();
    }
  }
}

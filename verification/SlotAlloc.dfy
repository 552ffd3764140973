/** The history of a slot allocator, as its callers see it. */
module SlotHistory {
  import S = Segment

  datatype Event = Alloc(slot: nat) | Free(slot: nat)

  function After(before: set<nat>, e: Event): set<nat> {
    if e.Alloc? then before + {e.slot} else before - {e.slot}
  }

  /** The slots in use after a history. */
  function Replay(log: seq<Event>): set<nat> {
    if log == [] then {} else After(Replay(log[..|log| - 1]), log[|log| - 1])
  }

  /** Nobody is given a slot that is in use. */
  ghost predicate Fair(log: seq<Event>) {
    forall i :: 0 <= i < |log| && log[i].Alloc? ==> log[i].slot !in Replay(log[..i])
  }

  lemma Snoc(log: seq<Event>, e: Event)
    ensures Replay(log + [e]) == After(Replay(log), e)
    ensures Fair(log) && (e.Alloc? ==> e.slot !in Replay(log)) ==> Fair(log + [e])
  {
    assert (log + [e])[..|log|] == log;
    forall i | 0 <= i < |log| ensures (log + [e])[..i] == log[..i] {}
  }

  /** A slot that was handed out and not freed since is still in use. */
  lemma {:induction false} StaysInUse(log: seq<Event>, i: nat, j: nat)
    requires i < j <= |log| && log[i].Alloc?
    requires forall k :: i < k < j ==> log[k] != Free(log[i].slot)
    ensures log[i].slot in Replay(log[..j])
    decreases j
  {
    assert log[..j][..j - 1] == log[..j - 1];
    if i < j - 1 {
      StaysInUse(log, i, j - 1);
    }
  }

  /** Between two times the same slot is handed out, it is freed. */
  lemma NeverTwice(log: seq<Event>, i: nat, j: nat)
    requires Fair(log) && i < j < |log| && log[i].Alloc? && log[j] == log[i]
    ensures exists k :: i < k < j && log[k] == Free(log[i].slot)
  {
    if forall k :: i < k < j ==> log[k] != Free(log[i].slot) {
      StaysInUse(log, i, j);
    }
  }

  function AllocAll(base: nat, n: nat): seq<Event> { seq(n, i requires 0 <= i => Alloc(base + i)) }

  /** The n slots from `base` on are handed out one after the other. */
  lemma {:induction false} AppendRun(log: seq<Event>, base: nat, n: nat)
    requires Fair(log) && S.Range(base, base + n) !! Replay(log)
    ensures Fair(log + AllocAll(base, n))
    ensures Replay(log + AllocAll(base, n)) == Replay(log) + S.Range(base, base + n)
  {
    hide Fair, Replay, S.Range;
    if n == 0 {
      assert log + AllocAll(base, n) == log;
      assert S.Range(base, base + n) == {};
    } else {
      var m := n - 1;
      S.RangeSnoc(base, base + m);
      AppendRun(log, base, m);
      var e := Alloc(base + m);
      assert log + AllocAll(base, n) == (log + AllocAll(base, m)) + [e] by { AllocOneMore(base, m); }
      hide AllocAll;
      Snoc(log + AllocAll(base, m), e);
    }
  }

  lemma AllocOneMore(base: nat, m: nat)
    ensures AllocAll(base, m + 1) == AllocAll(base, m) + [Alloc(base + m)]
  {}
}

/** The per-process allocator of capability slots: segments, single and contiguous allocation, free,
    and the protocol that adds segments at run time.  Answers of the kernel (whether a probe of the
    next sub-CNode succeeds, what the root CNode's size is) are parameters. */
module SlotAlloc {
  import opened Common
  import S = Segment
  import P = SlotPool
  import H = SlotHistory

  const MAX_SEGMENTS: nat := 16
  const EXPAND_BITS: nat := 10
  const EXPAND_SLOTS: nat := 1024
  const EXPAND_BASE: nat := 1008
  const MAX_EXPANSIONS: nat := 8

  datatype ExpandState = Idle | Requested | Failed

  datatype Progress = Completed | Pending | Broken

  datatype SlotResult = Got(slot: nat) | WouldBlock | Exhausted {
    function Slot(): nat { if Got? then slot else 0 }
  }

  /** What the kernel answers: the size of the root CNode, if it can be had, and whether a capability
      could be copied to the first slot of the next expansion. */
  datatype Reply = Reply(rootBits: Option<nat>, probeOk: bool)

  /** A CNode has fewer than 2^64 slots. */
  predicate PlausibleReply(reply: Reply) { reply.rootBits.Some? ==> reply.rootBits.value < 64 }

  predicate Plausible(replies: seq<Reply>) { forall i :: 0 <= i < |replies| ==> PlausibleReply(replies[i]) }

  /** No probe from the given answer on succeeds. */
  predicate NoProbe(replies: seq<Reply>, from: nat) { forall i :: from <= i < |replies| ==> !replies[i].probeOk }

  /** The size of the root CNode as far as it is known after an answer: it is asked for until there is one. */
  function Learnt(bits: nat, reply: Reply): nat { if bits == 0 && reply.rootBits.Some? then reply.rootBits.value else bits }

  /** What an allocation that never waits answers, given whether every slot is taken. */
  function AsyncResult(full: bool, mayExpand: bool, expand: ExpandState, segments: nat, reply: Reply, slot: nat): SlotResult {
    if !full then Got(slot)
    else if !mayExpand then Exhausted
    else if expand == Idle || !reply.probeOk then WouldBlock
    else if segments >= MAX_SEGMENTS then Exhausted
    else Got(slot)
  }

  /** Where the k-th expansion lies: the sub-CNode below root slot EXPAND_BASE + k. */
  function ExpansionStart(k: nat): nat { (EXPAND_BASE + k) * EXPAND_SLOTS }

  ghost function ExpansionSlots(k: nat): set<nat> { S.Range(ExpansionStart(k), ExpansionStart(k) + EXPAND_SLOTS) }

  /** The first `initial` segments are the startup pool, the others the expansions in order. */
  ghost predicate Placed(segs: seq<S.Segment>, initial: nat, expansions: nat) {
    && |segs| == initial + expansions
    && (forall k :: initial <= k < |segs| ==> segs[k].base == ExpansionStart(k - initial) && segs[k].count == EXPAND_SLOTS)
  }

  ghost predicate Within(segs: seq<S.Segment>, initial: nat, lo: nat, hi: nat) {
    forall k :: 0 <= k < initial && k < |segs| ==> lo <= segs[k].base && segs[k].base + segs[k].count <= hi
  }

  /** The startup pool lo..hi keeps out of the slots that the eight expansions will have. */
  predicate Clear(lo: nat, hi: nat) { hi <= lo || hi <= ExpansionStart(0) || ExpansionStart(MAX_EXPANSIONS) <= lo }

  /** That is exactly what makes every expansion disjoint from the startup pool. */
  lemma ClearIff(lo: nat, hi: nat)
    ensures Clear(lo, hi) <==> forall k :: 0 <= k < MAX_EXPANSIONS ==> S.Range(lo, hi) !! ExpansionSlots(k)
  {
    hide S.Range;
    if !Clear(lo, hi) {
      var x := if lo < ExpansionStart(0) then ExpansionStart(0) else lo;
      var k := (x - ExpansionStart(0)) / EXPAND_SLOTS;
      assert x in S.Range(lo, hi) && x in ExpansionSlots(k);
    }
  }

  lemma ReplaceStaysPlaced(segs: seq<S.Segment>, k: nat, seg: S.Segment, initial: nat, expansions: nat, lo: nat, hi: nat)
    requires k < |segs| && seg.base == segs[k].base && seg.count == segs[k].count
    requires Placed(segs, initial, expansions) && Within(segs, initial, lo, hi)
    ensures Placed(segs[k := seg], initial, expansions) && Within(segs[k := seg], initial, lo, hi)
  {}

  /** An expansion overlaps neither the startup pool nor an earlier expansion. */
  lemma ExpansionIsApart(segs: seq<S.Segment>, initial: nat, expansions: nat, lo: nat, hi: nat)
    requires Placed(segs, initial, expansions) && Within(segs, initial, lo, hi) && Clear(lo, hi) && expansions < MAX_EXPANSIONS
    ensures forall k :: 0 <= k < |segs| ==> P.Slots(segs[k]) !! ExpansionSlots(expansions)
  {
    hide S.Range;
    forall k | 0 <= k < |segs| ensures P.Slots(segs[k]) !! ExpansionSlots(expansions) {
      assert segs[k].base + segs[k].count <= ExpansionStart(expansions) || ExpansionStart(MAX_EXPANSIONS) <= segs[k].base || segs[k].count == 0;
    }
  }

  /** Registering the next expansion: a disjoint segment of free slots. */
  lemma ExpandPool(segs: seq<S.Segment>, initial: nat, expansions: nat, lo: nat, hi: nat)
    requires P.AllOk(segs) && P.Disjoint(segs)
    requires Placed(segs, initial, expansions) && Within(segs, initial, lo, hi) && Clear(lo, hi) && expansions < MAX_EXPANSIONS
    ensures var segs' := segs + [S.Fresh(ExpansionStart(expansions), EXPAND_SLOTS)];
            && P.AllOk(segs') && P.Disjoint(segs') && Placed(segs', initial, expansions + 1) && Within(segs', initial, lo, hi)
            && P.Universe(segs') == P.Universe(segs) + ExpansionSlots(expansions)
            && P.Live(segs') == P.Live(segs)
    ensures ExpansionSlots(expansions) !! P.Universe(segs)
  {
    hide S.Used, S.Range, P.Universe, P.Live, P.Disjoint;
    var seg := S.Fresh(ExpansionStart(expansions), EXPAND_SLOTS);
    ExpansionIsApart(segs, initial, expansions, lo, hi);
    P.Append(segs, seg);
    P.LiveOfInSlots(seg);
    assert P.LiveOf(seg) == {};
    forall x | x in P.Universe(segs) ensures x !in ExpansionSlots(expansions) { P.InUniverse(segs, x); }
  }

  /** A segment nothing was taken from has room for any run that is no longer than it. */
  lemma FreshHasWindow(segs: seq<S.Segment>, n: nat)
    requires P.AllOk(segs) && P.Disjoint(segs) && segs != []
    requires S.Used(segs[|segs| - 1]) == {} && n <= segs[|segs| - 1].count
    ensures P.HasWindow(segs, n)
  {
    hide S.Used, S.Range, P.Live, P.Disjoint;
    P.WindowIff(segs, |segs| - 1, 0, n);
  }

  /** A segment that is too short for a run does not help with it. */
  lemma ShortHasNoWindow(segs: seq<S.Segment>, seg: S.Segment, n: nat)
    requires P.AllOk(segs) && P.Disjoint(segs) && P.AllOk(segs + [seg]) && P.Disjoint(segs + [seg]) && seg.count < n
    ensures P.HasWindow(segs + [seg], n) <==> P.HasWindow(segs, n)
  {
    hide S.Used, S.Range, P.Live, P.Disjoint, P.HasWindow;
    P.NoWindowIff(segs, n);
    P.NoWindowIff(segs + [seg], n);
    forall k | 0 <= k < |segs| ensures (segs + [seg])[k] == segs[k] {}
    assert (segs + [seg])[|segs|] == seg;
  }

  /** Disjoint segments that cover exactly the slots lo..hi, none of them in use. */
  ghost predicate FreshCover(segs: seq<S.Segment>, lo: nat, hi: nat) {
    && P.AllOk(segs) && P.Disjoint(segs) && P.Universe(segs) == S.Range(lo, hi) && P.Live(segs) == {}
    && lo <= hi && Within(segs, |segs|, lo, hi)
  }

  lemma NothingCovered(lo: nat)
    ensures FreshCover([], lo, lo)
  {}

  lemma ExtendCover(segs: seq<S.Segment>, lo: nat, hi: nat, n: nat)
    requires FreshCover(segs, lo, hi) && n <= S.MAX_SLOTS
    ensures FreshCover(segs + [S.Fresh(hi, n)], lo, hi + n)
  {
    hide S.Used, S.Range, P.Universe, P.Live, P.Disjoint;
    var seg := S.Fresh(hi, n);
    forall k | 0 <= k < |segs| ensures P.Slots(segs[k]) !! P.Slots(seg) {}
    P.Append(segs, seg);
    assert S.Range(lo, hi) + S.Range(hi, hi + n) == S.Range(lo, hi + n);
    P.LiveOfInSlots(seg);
    assert P.LiveOf(seg) == {};
  }

  class SlotAllocator {
    var segments: seq<S.Segment>
    var active: nat
    const initialized: bool
    const ntfn: nat
    var expand: ExpandState
    var rootBits: nat
    var depth: nat
    var expansions: nat
    /** How many segments the startup pool has. */
    ghost const initial: nat
    /** The slots of the startup pool are among lo..hi. */
    ghost const lo: nat
    ghost const hi: nat
    /** Every slot handed out and taken back so far. */
    ghost var log: seq<H.Event>

    ghost predicate PoolOk()
      reads this
    {
      && |segments| <= MAX_SEGMENTS && P.AllOk(segments) && P.Disjoint(segments)
      && (segments == [] || active < |segments|)
      && (!initialized ==> segments == [])
      && H.Fair(log) && H.Replay(log) == P.Live(segments)
    }

    ghost predicate ProtocolOk()
      reads this
    {
      && Placed(segments, initial, expansions)
      && Within(segments, initial, lo, hi)
      && (ntfn != 0 && initialized ==> Clear(lo, hi))
      && expansions <= MAX_EXPANSIONS
      && (expansions > 0 || expand != Idle ==> ntfn != 0 && initialized)
      && (expand == Requested ==> expansions < MAX_EXPANSIONS)
      && (expand == Failed ==> initial > MAX_SEGMENTS - MAX_EXPANSIONS)
      && rootBits < 64
      && (depth != 0 ==> rootBits > 0 && expansions > 0 && depth == rootBits + EXPAND_BITS)
    }

    ghost predicate Valid()
      reads this
    {
      PoolOk() && ProtocolOk()
    }

    /** The slots the allocator manages. */
    ghost function Universe(): set<nat>
      reads this
    {
      P.Universe(segments)
    }

    /** The slots that are handed out. */
    ghost function InUse(): set<nat>
      requires Valid()
      reads this
    {
      P.Live(segments)
    }

    /** Splits a range of slots into segments of at most 4096; `rest` slots do not fit into 16. */
    static method Chunk(base: nat, count: nat) returns (segs: seq<S.Segment>, rest: nat)
      ensures rest <= count && |segs| <= MAX_SEGMENTS && FreshCover(segs, base, base + (count - rest))
      ensures rest == 0 <==> count <= MAX_SEGMENTS * S.MAX_SLOTS
      ensures rest == 0 ==> |segs| == (count + S.MAX_SLOTS - 1) / S.MAX_SLOTS
    {
      hide FreshCover;
      segs, rest := [], count;
      var next := base;
      NothingCovered(base);
      while rest != 0 && |segs| < MAX_SEGMENTS
        invariant |segs| <= MAX_SEGMENTS && rest <= count && next == base + (count - rest)
        invariant FreshCover(segs, base, next)
        invariant rest != 0 ==> next == base + |segs| * S.MAX_SLOTS
        invariant rest == 0 ==> |segs| == (count + S.MAX_SLOTS - 1) / S.MAX_SLOTS
      {
        var chunk := if rest < S.MAX_SLOTS then rest else S.MAX_SLOTS;
        ExtendCover(segs, base, next, chunk);
        segs := segs + [S.Fresh(next, chunk)];
        next := next + chunk;
        rest := rest - chunk;
      }
    }

    /** What every operation keeps: the history is only added to, and segments are neither moved nor
        taken away. */
    twostate predicate Grew()
      reads this
    {
      old(log) <= log && P.Extends(old(segments), segments) && old(expansions) <= expansions
    }

    /** The startup pool.  It is sound exactly if it keeps out of the expansions' slots, or if there will
        be none; nobody checks that. */
    constructor (base: nat, count: nat, ntfn: nat)
      ensures Valid() <==> (ntfn != 0 && initialized ==> Clear(base, base + count))
      ensures PoolOk() && P.Live(segments) == {} && log == []
      ensures initialized <==> count <= MAX_SEGMENTS * S.MAX_SLOTS && (count != 0 || base != 0)
      ensures Universe() == if initialized then S.Range(base, base + count) else {}
      ensures initialized ==> initial == |segments| == if count == 0 then 1 else (count + S.MAX_SLOTS - 1) / S.MAX_SLOTS
      ensures lo == base && hi == base + count && this.ntfn == ntfn && expand == Idle && expansions == 0 && rootBits == 0 && depth == 0
    {
      hide Clear, S.Fresh, P.Universe, P.Live, P.Disjoint;
      var segs, rest := Chunk(base, count);
      NothingCovered(base);
      if count == 0 && base != 0 {
        ExtendCover([], base, base, 0);
        segs := [] + [S.Fresh(base, 0)];
      }
      var good := rest == 0 && (count != 0 || base != 0);
      if !good {
        segs := [];
      }
      segments, active, initialized := segs, 0, good;
      this.ntfn, expand, rootBits, depth, expansions := ntfn, Idle, 0, 0, 0;
      initial, lo, hi, log := |segs|, base, base + count, [];
    }

    /** Allocates one slot from the segments there are, starting at the active one. */
    method AllocFast() returns (slot: Option<nat>)
      requires Valid()
      modifies this`segments, this`active, this`log
      ensures Valid() && Universe() == old(Universe())
      ensures Grew()
      ensures slot.None? <==> old(InUse() == Universe())
      ensures slot.None? ==> unchanged(this)
      ensures slot.Some? ==> slot.value in Universe() && slot.value !in old(InUse()) && InUse() == old(InUse()) + {slot.value}
      ensures slot.Some? ==> log == old(log) + [H.Alloc(slot.value)]
      ensures slot.Some? ==> TookFrom(old(segments), segments, old(active), active, slot.value, 1)
    {
      P.FullIff(segments);
      assert segments == [] ==> P.AllFull(segments);
      hide S.Used, P.Universe, P.Live, P.Disjoint, P.AllFull, H.Fair, H.Replay, Placed, Within, FoundIn, TookFrom;
      if !initialized || |segments| == 0 {
        return None;
      }
      var idx, seg;
      idx, seg, slot := FindSingle(segments, active);
      if slot.Some? {
        hide *;
        Commit(idx, seg, slot.value, 1);
        OneRun(slot.value);
      }
    }

    lemma OneRun(x: nat)
      ensures S.Range(x, x + 1) == {x} && H.AllocAll(x, 1) == [H.Alloc(x)]
    {}

    /** Records that the n slots from x on have been taken in segment idx. */
    method Commit(idx: nat, seg: S.Segment, x: nat, n: nat)
      requires Valid() && active < |segments| && FoundIn(segments, active, idx, seg, x, n)
      modifies this`segments, this`active, this`log
      ensures Valid() && Grew() && Universe() == old(Universe()) && log == old(log) + H.AllocAll(x, n)
      ensures TookFrom(old(segments), segments, old(active), active, x, n)
      ensures var run := S.Range(x, x + n);
              run <= Universe() && run !! old(InUse()) && InUse() == old(InUse()) + run
    {
      hide S.Used, S.Range, S.FreeRun, S.NoRun, S.NoRunBefore, S.FoundFrom, P.Universe, P.Live, P.Disjoint;
      hide H.Fair, H.Replay, H.AllocAll, Placed, Within;
      ReplaceStaysPlaced(segments, idx, seg, initial, expansions, lo, hi);
      P.PoolTake(segments, idx, seg, x - seg.base, n);
      H.AppendRun(log, x, n);
      segments, active, log := segments[idx := seg], idx, log + H.AllocAll(x, n);
    }

    /** Allocates n slots in a row from the segments there are; the run never spans two segments. */
    method AllocRunFast(n: nat) returns (slot: Option<nat>)
      requires Valid()
      modifies this`segments, this`active, this`log
      ensures Valid() && Universe() == old(Universe())
      ensures Grew()
      ensures slot.None? <==> n == 0 || old(!P.HasWindow(segments, n))
      ensures slot.None? ==> unchanged(this)
      ensures slot.Some? ==> var run := S.Range(slot.value, slot.value + n);
                             run <= Universe() && run !! old(InUse()) && InUse() == old(InUse()) + run
      ensures slot.Some? ==> log == old(log) + H.AllocAll(slot.value, n)
      ensures slot.Some? ==> TookFrom(old(segments), segments, old(active), active, slot.value, n)
    {
      hide S.Used, S.Range, P.Universe, P.Live, P.Disjoint, P.HasWindow, H.Fair, H.Replay, H.AllocAll, Placed, Within, FoundIn, TookFrom;
      P.NoWindowIff(segments, n);
      if !initialized || n == 0 || |segments| == 0 {
        return None;
      }
      var idx, seg;
      idx, seg, slot := FindContiguous(segments, active, n);
      if slot.Some? {
        Commit(idx, seg, slot.value, n);
      }
    }

    /** Takes a slot back.  Refused exactly when the slot is not in use. */
    method Free(slot: nat) returns (ok: bool, ghost owner: nat)
      requires Valid()
      modifies this`segments, this`active, this`log
      ensures Valid() && Universe() == old(Universe())
      ensures Grew()
      ensures ok <==> slot in old(InUse())
      ensures !ok ==> unchanged(this)
      ensures InUse() == old(InUse()) - {slot}
      ensures ok ==> log == old(log) + [H.Free(slot)]
      ensures ok ==> owner < |segments| && segments == old(segments)[owner := segments[owner]]
      ensures ok ==> slot in P.Slots(segments[owner]) && active == if owner < old(active) then owner else old(active)
    {
      hide S.Used, S.Range, P.Universe, P.Live, P.Disjoint, H.Fair, H.Replay;
      var idx := FindOwner(segments, slot);
      if idx == |segments| {
        P.NotLive(segments, slot);
        return false, idx;
      }
      var i := slot - segments[idx].base;
      var seg;
      seg, ok := S.Free(segments[idx], i);
      owner := idx;
      P.UsedWhenLive(segments, idx, i);
      if ok {
        P.PoolFree(segments, idx, seg, i);
        H.Snoc(log, H.Free(slot));
        segments, active, log := segments[idx := seg], if idx < active then idx else active, log + [H.Free(slot)];
      }
    }

    /** Takes back those of the n slots from `base` on that are in use. */
    method FreeRange(base: nat, n: nat)
      requires Valid()
      modifies this`segments, this`active, this`log
      ensures Valid() && Universe() == old(Universe())
      ensures Grew()
      ensures InUse() == old(InUse()) - S.Range(base, base + n)
    {
      hide PoolOk, ProtocolOk, P.Universe, P.Live;
      var off := 0;
      while off < n
        invariant off <= n && Valid() && Grew() && Universe() == old(Universe())
        invariant InUse() == old(InUse()) - S.Range(base, base + off)
      {
        var _, _ := Free(base + off);
        off := off + 1;
      }
    }

    /** The number of slots that can still be handed out without an expansion. */
    method Remaining() returns (r: nat)
      requires Valid()
      ensures r == |Universe()| - |InUse()|
    {
      hide S.Used, P.Universe, P.Live, P.Disjoint, Placed, Within, H.Fair, H.Replay;
      P.RemainingIs(segments);
      if !initialized {
        return 0;
      }
      r := 0;
      var i := 0;
      while i < |segments|
        invariant i <= |segments| && P.AllOk(segments[..i])
        invariant r == P.Remaining(segments[..i])
      {
        S.UsedBound(segments[i]);
        assert segments[..i + 1][..i] == segments[..i];
        r := r + if segments[i].used <= segments[i].count then segments[i].count - segments[i].used else 0;
        i := i + 1;
      }
      assert segments[..i] == segments;
    }

    // ------------------------------------------------------------ expansion

    /** Asks the kernel for the size of the root CNode, unless it is known. */
    method EnsureRootBits(reply: Reply)
      requires Valid() && PlausibleReply(reply)
      modifies this`rootBits
      ensures Valid() && InUse() == old(InUse())
      ensures rootBits == Learnt(old(rootBits), reply)
    {
      hide P.Universe, P.Live, P.Disjoint, H.Fair, H.Replay;
      if rootBits == 0 && reply.rootBits.Some? {
        rootBits := reply.rootBits.value;
      }
    }

    /** The state after the next expansion has been registered. */
    twostate predicate Expanded()
      requires old(Valid()) && Valid()
      reads this
    {
      && segments == old(segments) + [S.Fresh(ExpansionStart(old(expansions)), EXPAND_SLOTS)] && active == |old(segments)|
      && Universe() == old(Universe()) + ExpansionSlots(old(expansions))
      && ExpansionSlots(old(expansions)) !! old(Universe())
      && InUse() == old(InUse()) && log == old(log)
      && expansions == old(expansions) + 1 && expand == Idle
      && depth == if rootBits > 0 then rootBits + EXPAND_BITS else old(depth)
    }

    /** Looks whether the sub-CNode that was asked for has appeared, and registers its slots. */
    method Poll(reply: Reply) returns (p: Progress)
      requires Valid() && expand == Requested
      modifies this
      ensures Grew()
      ensures Valid() && unchanged(`rootBits)
      ensures p == if !reply.probeOk then Pending else if |old(segments)| >= MAX_SEGMENTS then Broken else Completed
      ensures p == Pending ==> unchanged(this)
      ensures p == Broken ==> expand == Failed && unchanged(`segments, `active, `depth, `expansions, `log)
      ensures p == Completed ==> Expanded()
    {
      hide S.Used, S.Range, P.Universe, P.Live, P.Disjoint, H.Fair, H.Replay;
      if !reply.probeOk {
        return Pending;
      }
      if |segments| >= MAX_SEGMENTS {
        expand := Failed;
        return Broken;
      }
      ExpandPool(segments, initial, expansions, lo, hi);
      active := |segments|;
      segments := segments + [S.Fresh(ExpansionStart(expansions), EXPAND_SLOTS)];
      expansions, expand := expansions + 1, Idle;
      if rootBits > 0 {
        depth := rootBits + EXPAND_BITS;
      }
      return Completed;
    }

    /** Whether the allocator may ask for another expansion. */
    predicate MayExpand()
      reads this
    {
      initialized && ntfn != 0 && expansions < MAX_EXPANSIONS && expand != Failed
    }

    /** Allocates a slot without ever waiting: with every slot taken, this asks for an expansion or
        looks whether the one that was asked for is there. */
    method AllocAsync(reply: Reply) returns (r: SlotResult)
      requires Valid() && PlausibleReply(reply)
      modifies this
      ensures Valid()
      ensures Grew()
      ensures r == AsyncResult(old(InUse() == Universe()), old(MayExpand()), old(expand), old(|segments|), reply, r.Slot())
      ensures r.Got? <==> old(InUse() != Universe()) || (old(MayExpand() && expand == Requested) && reply.probeOk && |old(segments)| < MAX_SEGMENTS)
      ensures r.WouldBlock? <==> old(InUse() == Universe() && MayExpand()) && (old(expand) == Idle || !reply.probeOk)
      ensures r.Got? ==> r.slot !in old(InUse()) && r.slot in Universe() && InUse() == old(InUse()) + {r.slot}
      ensures r.Got? ==> log == old(log) + [H.Alloc(r.slot)]
      ensures !r.Got? ==> InUse() == old(InUse()) && Universe() == old(Universe()) && log == old(log)
      ensures r.WouldBlock? ==> expand == Requested
      ensures old(InUse() != Universe()) ==> unchanged(`expand, `expansions)
      ensures rootBits == if old(expand) == Idle && expand == Requested then Learnt(old(rootBits), reply) else old(rootBits)
      ensures expansions != old(expansions) ==> expand == Idle
      ensures expansions == old(expansions) ==> Universe() == old(Universe())
      ensures expansions != old(expansions) ==>
                expansions == old(expansions) + 1 && Universe() == old(Universe()) + ExpansionSlots(old(expansions))
    {
      hide S.Used, S.Range, P.Universe, P.Live, P.Disjoint, H.Fair, H.Replay;
      if !initialized {
        P.FullIff(segments);
        return Exhausted;
      }
      var got := AllocFast();
      if got.Some? {
        return Got(got.value);
      }
      match expand
      case Idle =>
        if ntfn == 0 || expansions >= MAX_EXPANSIONS {
          return Exhausted;
        }
        EnsureRootBits(reply);
        expand := Requested;
        return WouldBlock;
      case Requested =>
        var p := Poll(reply);
        match p {
          case Completed =>
            ghost var first := ExpansionStart(old(expansions));
            assert first in ExpansionSlots(old(expansions));
            P.LiveInUniverse(old(segments));
            assert first in Universe() && first !in InUse();
            got := AllocFast();
            return Got(got.value);
          case Pending => return WouldBlock;
          case Broken => return Exhausted;
        }
      case Failed => return Exhausted;
    }

    /** One locked round of the loop that waits for an expansion. */
    method DriveStep(reply: Reply) returns (p: Progress)
      requires Valid() && PlausibleReply(reply)
      modifies this
      ensures Valid()
      ensures Grew()
      ensures p == Completed <==> old(expand) == Requested && reply.probeOk && old(MayExpand()) && |old(segments)| < MAX_SEGMENTS
      ensures p == Completed ==> Expanded()
      ensures p != Completed ==> unchanged(`segments, `active, `depth, `expansions, `log)
      ensures p == Pending ==> old(MayExpand()) && expand == Requested && (old(expand) == Idle || !reply.probeOk)
      ensures p == Broken ==> !MayExpand() && (!old(MayExpand()) || |old(segments)| >= MAX_SEGMENTS)
      ensures !old(MayExpand()) ==> p == Broken && unchanged(`expand)
      ensures old(MayExpand()) ==> rootBits == Learnt(old(rootBits), reply)
    {
      hide S.Used, S.Range, P.Universe, P.Live, P.Disjoint, H.Fair, H.Replay;
      if !initialized || ntfn == 0 || expansions >= MAX_EXPANSIONS {
        return Broken;
      }
      EnsureRootBits(reply);
      match expand
      case Idle =>
        expand := Requested;
        return Pending;
      case Requested =>
        p := Poll(reply);
      case Failed => return Broken;
    }

    /** The answers to a call that waits are enough for an expansion: one may be asked for, there is room for its
        segment, and after the request a probe succeeds. */
    predicate Grants(replies: seq<Reply>)
      reads this
    {
      MayExpand() && |segments| < MAX_SEGMENTS && !NoProbe(replies, if expand == Idle then 1 else 0)
    }

    /** How many more expansions there is room for. */
    function Room(): int
      reads this
    {
      if !initialized || ntfn == 0 || expand == Failed then 0
      else if MAX_EXPANSIONS - expansions < MAX_SEGMENTS - |segments| then MAX_EXPANSIONS - expansions
      else MAX_SEGMENTS - |segments|
    }

    /** Waits for an expansion as long as the kernel's answers last.  The wait ends with the first
        probe that succeeds after the request. */
    method Drive(replies: seq<Reply>) returns (p: Progress, rest: seq<Reply>)
      requires Valid() && Plausible(replies)
      modifies this
      ensures Valid() && Plausible(rest)
      ensures p == Completed ==> Expanded()
      ensures p == Completed <==> old(Grants(replies))
      ensures p != Completed ==> unchanged(`segments, `active, `depth, `expansions, `log)
      ensures p == Broken ==> !MayExpand() && (!old(MayExpand()) || |old(segments)| >= MAX_SEGMENTS)
      ensures p == Pending ==> rest == [] && NoProbe(replies, if old(expand) == Idle then 1 else 0)
      ensures p == Pending ==> if replies == [] then unchanged(`expand) else old(MayExpand()) && expand == Requested
    {
      hide PoolOk, ProtocolOk, P.Universe, P.Live;
      rest := replies;
      ghost var done := 0;
      while |rest| != 0
        invariant Valid() && Plausible(rest)
        invariant unchanged(`segments, `active, `depth, `expansions, `log)
        invariant done <= |replies| && rest == replies[done..]
        invariant if done == 0 then unchanged(`expand) else expand == Requested && old(MayExpand())
        invariant NoProbe(replies[..done], if old(expand) == Idle then 1 else 0)
        decreases |rest|
      {
        var p' := DriveStep(rest[0]);
        rest := rest[1..];
        if p' != Pending {
          return p', rest;
        }
        done := done + 1;
      }
      p := Pending;
      assert replies[..done] == replies;
    }

    /** Allocates one slot, waiting for an expansion when every slot is taken.  The bound on the loop
        is never what ends it: the first expansion brings free slots.  There is no slot exactly if all are taken
        and the answers are not enough; the expansion is then asked for if it may be and there was any answer. */
    method Alloc(replies: seq<Reply>) returns (slot: Option<nat>, p: Progress)
      requires Valid() && Plausible(replies)
      modifies this
      ensures Valid()
      ensures slot.Some? ==> p == Completed && slot.value in Universe() && slot.value !in old(InUse()) && InUse() == old(InUse()) + {slot.value}
      ensures slot.Some? ==> log == old(log) + [H.Alloc(slot.value)]
      ensures slot.None? ==> p != Completed && InUse() == old(InUse()) == Universe()
      ensures slot.Some? <==> old(InUse() != Universe()) || old(Grants(replies))
      ensures expansions == old(expansions) + if old(InUse() == Universe() && Grants(replies)) then 1 else 0
      ensures p == Pending ==> NoProbe(replies, if old(expand) == Idle then 1 else 0) && (replies != [] ==> expand == Requested)
      ensures slot.None? && old(MayExpand()) && |old(segments)| < MAX_SEGMENTS ==> p == Pending
      ensures p == Broken ==> !MayExpand()
    {
      hide PoolOk, ProtocolOk, P.Universe, P.Live, S.Range;
      var rest, round := replies, 0;
      while round < MAX_SEGMENTS + 2
        invariant round <= 1 && Valid() && Plausible(rest) && unchanged(`log)
        invariant InUse() == old(InUse()) && expansions == old(expansions) + round
        invariant round == 0 ==> rest == replies && unchanged(`segments, `expand)
        invariant round == 1 ==> InUse() != Universe() && old(InUse() == Universe() && Grants(replies))
      {
        slot := AllocFast();
        if slot.Some? {
          return slot, Completed;
        }
        p, rest := Drive(rest);
        if p != Completed {
          return;
        }
        assert ExpansionStart(expansions - 1) in ExpansionSlots(expansions - 1);
        round := round + 1;
      }
      assert false;
    }

    /** Allocates n slots in a row, waiting for expansions as long as no segment has room for them.
        Every round adds an expansion, so the bound on the loop is never what ends it. */
    method AllocRun(n: nat, replies: seq<Reply>) returns (slot: Option<nat>, p: Progress)
      requires Valid() && Plausible(replies)
      modifies this
      ensures Valid()
      ensures slot.Some? ==> var run := S.Range(slot.value, slot.value + n);
                             run <= Universe() && run !! old(InUse()) && InUse() == old(InUse()) + run
      ensures slot.Some? ==> 0 < n && initialized && log == old(log) + H.AllocAll(slot.value, n)
      ensures old(Universe()) <= Universe()
      ensures slot.None? ==> InUse() == old(InUse()) && (0 < n && initialized ==> p != Completed && !P.HasWindow(segments, n))
      ensures slot.None? && p == Broken && 0 < n ==> !MayExpand()
      ensures 0 < n && initialized ==>
                (slot.Some? <==> old(P.HasWindow(segments, n)) || (n <= EXPAND_SLOTS && old(Grants(replies))))
      ensures p == Pending && n <= EXPAND_SLOTS ==> NoProbe(replies, if old(expand) == Idle then 1 else 0)
      ensures p == Pending && !old(Grants(replies)) && replies != [] ==> expand == Requested
      ensures slot.None? && 0 < n && initialized && old(MayExpand()) && |old(segments)| < MAX_SEGMENTS && !old(Grants(replies)) ==> p == Pending
      ensures n <= EXPAND_SLOTS ==> expansions <= old(expansions) + 1
      ensures old(P.HasWindow(segments, n)) ==> expansions == old(expansions)
      ensures slot.Some? && n <= EXPAND_SLOTS ==> Room() >= old(Room()) - 1
    {
      hide Placed, Within, P.Disjoint, P.Universe, P.Live, P.HasWindow, S.Range, S.Used, H.AllocAll, H.Fair, H.Replay;
      slot, p := None, Broken;
      if !initialized || n == 0 {
        return;
      }
      var rest, round := replies, 0;
      while round < MAX_SEGMENTS + 2
        invariant Valid() && Plausible(rest) && unchanged(`log)
        invariant InUse() == old(InUse()) && old(Universe()) <= Universe() && expansions == old(expansions) + round
        invariant round == 0 ==> rest == replies && unchanged(`segments, `expand)
        invariant round > 0 ==> old(Grants(replies) && !P.HasWindow(segments, n))
        invariant (expand == Failed ==> old(expand) == Failed) && |segments| == |old(segments)| + round
        invariant n > EXPAND_SLOTS ==> (P.HasWindow(segments, n) <==> old(P.HasWindow(segments, n)))
        invariant round > 0 && n <= EXPAND_SLOTS ==> round == 1 && P.HasWindow(segments, n)
      {
        slot := AllocRunFast(n);
        if slot.Some? {
          return slot, Completed;
        }
        ghost var before, added := segments, S.Fresh(ExpansionStart(expansions), EXPAND_SLOTS);
        p, rest := Drive(rest);
        if p != Completed {
          return;
        }
        round := round + 1;
        if n <= EXPAND_SLOTS { FreshHasWindow(segments, n); } else { ShortHasNoWindow(before, added, n); }
      }
      assert false;
    }

    /** The depth an invocation of the given slot needs: non-zero below an expansion. */
    function InvokeDepth(slot: nat): nat
      reads this
    {
      if depth == 0 then 0 else if slot / EXPAND_SLOTS >= EXPAND_BASE then depth else 0
    }

    /** Once an expansion has completed with the root's size known, the slots of expansions are invoked
        with a depth; and exactly these are, if the startup pool lies below the expansions. */
    lemma DepthExact(slot: nat)
      requires Valid() && depth != 0 && slot in Universe()
      ensures FromExpansion(slot) ==> InvokeDepth(slot) == rootBits + EXPAND_BITS != 0
      ensures !FromExpansion(slot) ==> (InvokeDepth(slot) == 0 <==> slot < ExpansionStart(0))
    {
      hide S.Used, S.Range, P.Universe, P.Live, P.Disjoint, H.Fair, H.Replay;
      P.InUniverse(segments, slot);
    }

    /** The slot belongs to a completed expansion. */
    ghost predicate FromExpansion(slot: nat)
      reads this
    {
      exists k :: initial <= k < |segments| && slot in P.Slots(segments[k])
    }

    /** Every slot there is belongs to the startup pool or to a completed expansion. */
    lemma WhereSlotsAre(slot: nat)
      requires Valid() && slot in Universe()
      ensures lo <= slot < hi || FromExpansion(slot)
      ensures FromExpansion(slot) ==> ntfn != 0 && exists k :: 0 <= k < expansions && slot in ExpansionSlots(k)
    {
      hide S.Used, S.Range, P.Universe, P.Live, P.Disjoint, H.Fair, H.Replay;
      P.InUniverse(segments, slot);
      if FromExpansion(slot) {
        var k :| initial <= k < |segments| && slot in P.Slots(segments[k]);
        assert slot in ExpansionSlots(k - initial);
      }
    }

    /** A request is pending only with fewer than eight expansions, and the protocol has failed only if
        the startup pool has more than eight segments. */
    lemma ProtocolSafety()
      requires Valid()
      ensures expansions <= 8 && |segments| == initial + expansions <= 16
      ensures expand == Requested ==> expansions < 8 && ntfn != 0 && initialized
      ensures expand == Failed ==> initial > MAX_SEGMENTS - MAX_EXPANSIONS
    {}

    lemma SegmentsApart(j: nat, k: nat)
      requires Valid() && j < k < |segments|
      ensures P.Slots(segments[j]) !! P.Slots(segments[k])
    {}

    /** Between two times the same slot is handed out, it is taken back. */
    lemma NeverTwice(i: nat, j: nat)
      requires Valid() && i < j < |log| && log[i].Alloc? && log[j] == log[i]
      ensures exists k :: i < k < j && log[k] == H.Free(log[i].slot)
    {
      H.NeverTwice(log, i, j);
    }
  }

  /** With more than eight segments in the startup pool the protocol does fail, if the kernel grants every
      request: the segment table is full before the eighth expansion. */
  method LargePoolFails(base: nat, count: nat, ntfn: nat) returns (a: SlotAllocator)
    requires (MAX_SEGMENTS - MAX_EXPANSIONS) * S.MAX_SLOTS < count <= MAX_SEGMENTS * S.MAX_SLOTS
    requires ntfn != 0 && Clear(base, base + count)
    ensures a.Valid() && a.expand == Failed && a.expansions < MAX_EXPANSIONS
  {
    hide SlotAllocator.PoolOk, P.Universe, P.Live;
    a := new SlotAllocator(base, count, ntfn);
    while a.expand != Failed
      invariant a.Valid() && a.initialized && a.ntfn != 0 && 8 < a.initial && a.initial + a.expansions == |a.segments| <= MAX_SEGMENTS
      decreases MAX_SEGMENTS - |a.segments|, a.expand == Idle, a.expand == Requested
    {
      var _ := a.DriveStep(Reply(None, true));
      Sixteen(a);
    }
  }

  lemma Sixteen(a: SlotAllocator)
    requires a.Valid()
    ensures |a.segments| == a.initial + a.expansions <= MAX_SEGMENTS
  {}

  /** How many steps round from `start` index k is visited. */
  function Turn(k: nat, start: nat, n: nat): nat
    requires k < n && start < n
  {
    if start <= k then k - start else k + n - start
  }

  lemma TurnIs(k: nat, start: nat, n: nat, off: nat)
    requires k < n && start < n && off < n
    ensures Turn(k, start, n) == off <==> k == (start + off) % n
  {
    if start + off < n { assert (start + off) % n == start + off; }
    else { assert (start + off) % n == start + off - n; }
  }

  /** Going round from `start`, segment idx is the first that has room for n slots in a row; `seg` is
      that segment with the slots from x on taken. */
  ghost predicate FoundIn(segs: seq<S.Segment>, start: nat, idx: nat, seg: S.Segment, x: nat, n: nat)
    requires P.AllOk(segs) && start < |segs|
  {
    && idx < |segs| && S.Ok(seg) && seg.base == segs[idx].base && seg.count == segs[idx].count && seg.base <= x
    && S.TookRun(segs[idx], seg, x - seg.base, n)
    && (forall k :: 0 <= k < |segs| && Turn(k, start, |segs|) < Turn(idx, start, |segs|) ==> S.NoRun(segs[k], n))
  }

  /** The segments before and after such an allocation. */
  ghost predicate TookFrom(before: seq<S.Segment>, after: seq<S.Segment>, start: nat, idx: nat, x: nat, n: nat)
    requires P.AllOk(before)
  {
    && start < |before| == |after| && idx < |after| && after == before[idx := after[idx]]
    && FoundIn(before, start, idx, after[idx], x, n)
  }

  /** Takes one slot from the first segment that has one, going round from `start`. */
  method FindSingle(segs: seq<S.Segment>, start: nat) returns (idx: nat, seg: S.Segment, slot: Option<nat>)
    requires P.AllOk(segs) && start < |segs|
    ensures slot.None? ==> P.AllFull(segs)
    ensures slot.Some? ==> FoundIn(segs, start, idx, seg, slot.value, 1)
  {
    hide S.Used, S.NoRun, S.AllUsed, S.TookRun;
    var n := |segs|;
    var off := 0;
    while off < n
      invariant off <= n
      invariant forall k :: 0 <= k < n && Turn(k, start, n) < off ==> S.NoRun(segs[k], 1)
    {
      idx := (start + off) % n;
      seg, slot := S.AllocSingle(segs[idx]);
      S.SingleIsRun(segs[idx]);
      if slot.Some? {
        S.OneIsRun(segs[idx], seg, slot.value - seg.base);
        TurnIs(idx, start, n, off);
        return;
      }
      forall k | 0 <= k < n ensures Turn(k, start, n) == off <==> k == idx { TurnIs(k, start, n, off); }
      off := off + 1;
    }
    forall k | 0 <= k < n ensures S.AllUsed(segs[k], 0, segs[k].count) { S.SingleIsRun(segs[k]); }
    return start, segs[start], None;
  }

  /** The same for n slots in a row. */
  method FindContiguous(segs: seq<S.Segment>, start: nat, n: nat)
    returns (idx: nat, seg: S.Segment, slot: Option<nat>)
    requires P.AllOk(segs) && start < |segs| && n != 0
    ensures slot.None? <==> forall k :: 0 <= k < |segs| ==> S.NoRun(segs[k], n)
    ensures slot.Some? ==> FoundIn(segs, start, idx, seg, slot.value, n)
  {
    hide S.Used, S.NoRun, S.TookRun;
    var len := |segs|;
    var off := 0;
    while off < len
      invariant off <= len
      invariant forall k :: 0 <= k < len && Turn(k, start, len) < off ==> S.NoRun(segs[k], n)
    {
      idx := (start + off) % len;
      seg, slot := S.AllocContiguous(segs[idx], n);
      if slot.Some? {
        TurnIs(idx, start, len, off);
        return;
      }
      forall k | 0 <= k < len ensures Turn(k, start, len) == off <==> k == idx { TurnIs(k, start, len, off); }
      off := off + 1;
    }
    return start, segs[start], None;
  }

  /** The segment a slot belongs to, or the number of segments if there is none. */
  method FindOwner(segs: seq<S.Segment>, slot: nat) returns (idx: nat)
    ensures idx <= |segs| && (idx < |segs| ==> segs[idx].base <= slot < segs[idx].base + segs[idx].count)
    ensures forall k :: 0 <= k < idx ==> slot !in P.Slots(segs[k])
  {
    hide S.Range;
    idx := 0;
    while idx < |segs|
      invariant idx <= |segs| && forall k :: 0 <= k < idx ==> slot !in P.Slots(segs[k])
    {
      if segs[idx].base <= slot && slot - segs[idx].base < segs[idx].count {
        return;
      }
      idx := idx + 1;
    }
  }
}

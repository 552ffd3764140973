/** Creating and removing a worker thread: what it takes from the slot allocator, from the capability
    space and from the address space, and what it gives back.  Kernel calls are numbered in the order
    in which they are made; which one fails first is a parameter. */
module Worker {
  import opened Common
  import S = Segment
  import P = SlotPool
  import A = SlotAlloc

  const REGION_PAGES: nat := 64
  /** TCB, scheduling context and IPC buffer frame. */
  const OBJECTS: nat := 3
  /** Calls that configure, bind and resume the thread. */
  const START_CALLS: nat := 7

  datatype Outcome = Done | Failed | Waiting

  /** Which slots a spawn had recorded when it ended. */
  datatype Stage = NoSlots | Objects | Stack | All

  /** The addresses of n pages from `base` on. */
  ghost function Pages(base: nat, n: nat): set<nat> {
    if n == 0 then {} else Pages(base, n - 1) + {base + (n - 1) * PAGE}
  }

  /** The n frames from slot `slots` on, mapped one after the other from `va` on. */
  ghost function Frames(va: nat, slots: nat, n: nat): map<nat, nat> {
    if n == 0 then map[] else Frames(va, slots, n - 1)[va + (n - 1) * PAGE := slots + (n - 1)]
  }

  lemma {:induction false} FramesAt(va: nat, slots: nat, n: nat)
    ensures Frames(va, slots, n).Keys == Pages(va, n)
    ensures forall p :: p in Pages(va, n) ==> va <= p < va + n * PAGE
  {
    if 0 < n { FramesAt(va, slots, n - 1); }
  }

  lemma MapSnoc(m: map<nat, nat>, f: map<nat, nat>, x: nat, y: nat)
    ensures (m + f)[x := y] == m + f[x := y]
  {}

  lemma PagesSnoc(base: nat, n: nat)
    ensures Pages(base, n + 1) == Pages(base, n) + {base + n * PAGE}
  {}

  lemma {:induction false} PagesConcat(base: nat, m: nat, n: nat)
    ensures Pages(base, m + n) == Pages(base, m) + Pages(base + m * PAGE, n)
  {
    if 0 < n {
      PagesConcat(base, m, n - 1);
    }
  }

  lemma {:induction false} InPages(base: nat, n: nat, i: nat)
    ensures base + i * PAGE in Pages(base, n) <==> i < n
  {
    if 0 < n { InPages(base, n - 1, i); }
  }

  /** Of two blocks of pages at consecutive regions: when they meet, and when the first one reaches the
      guard page between them. */
  lemma BlocksApartIff(region: nat, m: nat, n: nat)
    requires 0 < n
    ensures Pages(region + PAGE, m) !! Pages(region + REGION_PAGES * PAGE + PAGE, n) <==> m <= REGION_PAGES
    ensures region + REGION_PAGES * PAGE !in Pages(region + PAGE, m) <==> m < REGION_PAGES
  {
    var next := region + REGION_PAGES * PAGE + PAGE;
    FramesAt(region + PAGE, 0, m);
    FramesAt(next, 0, n);
    InPages(region + PAGE, m, REGION_PAGES - 1);
    InPages(region + PAGE, m, REGION_PAGES);
    InPages(next, n, 0);
    assert region + PAGE + REGION_PAGES * PAGE == next;
  }

  lemma FramesSnoc(va: nat, slots: nat, n: nat)
    ensures Frames(va, slots, n + 1) == Frames(va, slots, n)[va + n * PAGE := slots + n]
  {}

  /** The parts of the kernel's state that a spawn touches. */
  class Kernel {
    /** The slots that hold a capability. */
    var caps: set<nat>
    /** The pages that are mapped, and the slot of the frame behind each. */
    var mapped: map<nat, nat>
    /** The calls made so far that may fail. */
    var calls: nat
    const failing: nat
    var nextRegion: nat

    method Call() returns (ok: bool)
      modifies this`calls
      ensures calls == old(calls) + 1 && ok == (old(calls) != failing)
    {
      ok := calls != failing;
      calls := calls + 1;
    }

    /** Makes n calls in turn, up to the first failure. */
    method CallRun(n: nat) returns (ok: bool)
      modifies this`calls
      ensures ok <==> !(old(calls) <= failing < old(calls) + n)
    {
      var p := 0;
      ok := true;
      while p < n && ok
        invariant p <= n
        invariant if ok then calls == old(calls) + p && !(old(calls) <= failing < calls) else old(calls) <= failing < old(calls) + n
      {
        ok := Call();
        p := p + 1;
      }
    }

    /** Nothing is mapped at or above the next region. */
    ghost predicate Clear()
      reads `mapped, `nextRegion
    {
      forall p :: p in mapped ==> p < nextRegion
    }

    /** Makes a capability in each of n slots in turn, up to the first failure. */
    method RetypeRun(base: nat, n: nat) returns (ok: bool)
      modifies this`calls, this`caps
      ensures ok <==> !(old(calls) <= failing < old(calls) + n)
      ensures ok ==> calls == old(calls) + n
      ensures caps == old(caps) + S.Range(base, base + if ok then n else failing - old(calls))
    {
      var p := 0;
      while p < n
        invariant p <= n && calls == old(calls) + p && !(old(calls) <= failing < calls)
        invariant caps == old(caps) + S.Range(base, base + p)
      {
        var done := Call();
        if !done {
          return false;
        }
        caps := caps + {base + p};
        p := p + 1;
      }
      ok := true;
    }

    /** Maps n frames in turn, up to the first failure. */
    method MapRun(va: nat, slots: nat, n: nat) returns (ok: bool)
      modifies this`calls, this`mapped
      ensures ok <==> !(old(calls) <= failing < old(calls) + n)
      ensures ok ==> calls == old(calls) + n
      ensures mapped == old(mapped) + Frames(va, slots, if ok then n else failing - old(calls))
    {
      var p := 0;
      assert mapped == old(mapped) + Frames(va, slots, 0);
      hide Frames, Pages;
      while p < n
        invariant p <= n && calls == old(calls) + p && !(old(calls) <= failing < calls)
        invariant mapped == old(mapped) + Frames(va, slots, p)
      {
        var done := Call();
        if !done {
          return false;
        }
        FramesSnoc(va, slots, p);
        MapSnoc(old(mapped), Frames(va, slots, p), va + p * PAGE, slots + p);
        mapped := mapped[va + p * PAGE := slots + p];
        p := p + 1;
      }
      ok := true;
    }

    method UnmapRun(va: nat, n: nat)
      modifies this`mapped
      ensures mapped == old(mapped) - Pages(va, n)
    {
      var p := 0;
      assert Pages(va, 0) == {};
      while p < n
        invariant p <= n && mapped == old(mapped) - Pages(va, p)
      {
        PagesSnoc(va, p);
        mapped := mapped - {va + p * PAGE};
        p := p + 1;
      }
    }

    method DeleteRun(base: nat, n: nat)
      modifies this`caps
      ensures caps == old(caps) - S.Range(base, base + n)
    {
      var p := 0;
      while p < n
        invariant p <= n && caps == old(caps) - S.Range(base, base + p)
      {
        caps := caps - {base + p};
        p := p + 1;
      }
    }
  }

  ghost function Run(base: nat, n: nat): set<nat> { if base != 0 then S.Range(base, base + n) else {} }

  ghost function Mapping(va: nat, size: nat): set<nat> { if va != 0 && size != 0 then Pages(va, size / PAGE) else {} }

  /** The record of one thread. */
  class Descriptor {
    var state: DescState
    var tcb: nat
    var sc: nat
    var ipc: nat
    var stackVa: nat
    var stackSize: nat
    var ipcVa: nat
    var tlsVa: nat
    var tlsSize: nat
    var stackBase: nat
    var stackCount: nat
    var tlsBase: nat
    var tlsCount: nat

    /** The slots the record names: the three objects, the stack's frames and the TLS frames. */
    ghost function Slots(): set<nat>
      reads `tcb, `stackBase, `stackCount, `tlsBase, `tlsCount
    {
      Run(tcb, OBJECTS) + Run(stackBase, stackCount) + Run(tlsBase, tlsCount)
    }

    /** The pages the record names. */
    ghost function Region(): set<nat>
      reads `stackVa, `stackSize, `ipcVa, `tlsVa, `tlsSize
    {
      Mapping(stackVa, stackSize) + (if ipcVa != 0 then {ipcVa} else {}) + Mapping(tlsVa, tlsSize)
    }

    predicate Shaped()
      reads `tcb, `sc, `ipc
    {
      tcb != 0 ==> sc == tcb + 1 && ipc == tcb + 2
    }

    method Unmap(k: Kernel)
      modifies k`mapped
      ensures k.mapped == old(k.mapped) - Region()
    {
      hide Pages;
      if stackVa != 0 && stackSize != 0 {
        k.UnmapRun(stackVa, stackSize / PAGE);
      }
      if ipcVa != 0 {
        k.mapped := k.mapped - {ipcVa};
      }
      if tlsVa != 0 && tlsSize != 0 {
        k.UnmapRun(tlsVa, tlsSize / PAGE);
      }
    }

    method Delete(k: Kernel)
      requires Shaped()
      modifies k`caps
      ensures k.caps == old(k.caps) - Slots()
    {
      if tcb != 0 {
        k.caps := k.caps - {tcb, sc, ipc};
        assert {tcb, sc, ipc} == S.Range(tcb, tcb + OBJECTS);
      }
      if stackBase != 0 {
        k.DeleteRun(stackBase, stackCount);
      }
      if tlsBase != 0 {
        k.DeleteRun(tlsBase, tlsCount);
      }
    }

    /** Unmaps, deletes and frees everything the record names, whether it is there or not. */
    method Release(alloc: A.SlotAllocator, k: Kernel)
      requires alloc.Valid() && Shaped()
      modifies alloc, k`caps, k`mapped
      ensures alloc.Valid() && alloc.Universe() == old(alloc.Universe())
      ensures alloc.InUse() == old(alloc.InUse()) - Slots()
      ensures k.caps == old(k.caps) - Slots()
      ensures k.mapped == old(k.mapped) - Region()
    {
      hide Region, A.SlotAllocator.Valid, A.SlotAllocator.Universe, A.SlotAllocator.InUse;
      Unmap(k);
      Delete(k);
      hide Run;
      FreeIfAny(alloc, tcb, OBJECTS);
      FreeIfAny(alloc, stackBase, stackCount);
      FreeIfAny(alloc, tlsBase, tlsCount);
    }

    /** What the record still names from an earlier use once a spawn has recorded this much. */
    ghost function Stale(stage: Stage): set<nat>
      reads `stackBase, `stackCount, `tlsBase, `tlsCount
    {
      StaleOf(stage, Run(stackBase, stackCount), Run(tlsBase, tlsCount))
    }

    static ghost function StaleOf(stage: Stage, stack: set<nat>, tls: set<nat>): set<nat> {
      match stage
      case NoSlots => {}
      case Objects => stack + tls
      case Stack => tls
      case All => {}
    }

    lemma StaleNone()
      ensures Stale(NoSlots) == {} && Stale(All) == {}
    {}

    /** Takes slots from the allocator and makes the thread's objects and frames in them. */
    method Acquire(alloc: A.SlotAllocator, k: Kernel, stackPages: nat, tlsPages: nat, replies: seq<seq<A.Reply>>)
      returns (r: Outcome, stage: Stage, ghost mine: set<nat>)
      requires alloc.Valid() && 0 < alloc.lo && Enough(replies)
      modifies alloc, k`caps, k`calls, this`tcb, this`sc, this`ipc, this`stackBase, this`stackCount, this`tlsBase, this`tlsCount
      ensures alloc.Valid() && mine <= alloc.Universe()
      ensures mine !! old(alloc.InUse()) && alloc.InUse() == old(alloc.InUse()) + mine
      ensures old(k.caps) <= k.caps <= old(k.caps) + mine
      ensures stage == NoSlots ==> r != Done && mine == {}
      ensures r == Waiting ==> stage != All && k.caps == old(k.caps) + mine
      ensures stage != NoSlots ==> Shaped() && Slots() == mine + old(Stale(stage))
      ensures r == Done ==> stage == All && k.caps == old(k.caps) + mine && tlsCount == tlsPages
      ensures r == Done ==> Run(tcb, OBJECTS) !! Run(stackBase, stackCount) !! Run(tlsBase, tlsCount)
      ensures stage in {Stack, All} ==> stackBase != 0 && stackCount == stackPages
      ensures old(Ample(alloc, stackPages, tlsPages, replies)) && !(old(k.calls) <= k.failing < old(k.calls) + OBJECTS + stackPages + tlsPages) ==>
                r == Done
      ensures r == Done ==> k.calls == old(k.calls) + OBJECTS + stackPages + tlsPages
      ensures r == Done ==> !(old(k.calls) <= k.failing < old(k.calls) + OBJECTS + stackPages + tlsPages)
    {
      assert A.Plausible(replies[0]) && A.Plausible(replies[1]) && A.Plausible(replies[2]);
      hide A.SlotAllocator.Room, A.SlotAllocator.Valid, A.SlotAllocator.Universe, A.SlotAllocator.InUse, S.Range, Probed, A.Plausible, Run, A.NoProbe, Slots, StaleOf, Enough;
      r, stage := AcquireObjects(alloc, k, replies[0]);
      mine := if stage == NoSlots then {} else Run(tcb, OBJECTS);
      if stage != NoSlots { RecordedNow(stage, mine, {}, Run(stackBase, stackCount), Run(tlsBase, tlsCount)); }
      if r != Done {
        return;
      }
      ghost var more, taken, made := {}, alloc.InUse(), k.caps;
      r, stage, more := AcquireFrames(alloc, k, stackPages, tlsPages, replies[1], replies[2]);
      Joined(old(alloc.InUse()), taken, alloc.InUse(), old(k.caps), made, k.caps, mine, more);
      mine := mine + more;
      RecordedNow(stage, mine, more, old(Run(stackBase, stackCount)), old(Run(tlsBase, tlsCount)));
    }

    /** The thread's three objects. */
    method AcquireObjects(alloc: A.SlotAllocator, k: Kernel, replies: seq<A.Reply>) returns (r: Outcome, stage: Stage)
      requires alloc.Valid() && 0 < alloc.lo && A.Plausible(replies)
      modifies alloc, k`caps, k`calls, this`tcb, this`sc, this`ipc
      ensures alloc.Valid() && old(alloc.Universe()) <= alloc.Universe() && (stage == NoSlots || stage == Objects)
      ensures var objects := if stage == NoSlots then {} else Run(tcb, OBJECTS);
              && objects <= alloc.Universe() && objects !! old(alloc.InUse()) && alloc.InUse() == old(alloc.InUse()) + objects
              && old(k.caps) <= k.caps <= old(k.caps) + objects && (r != Failed ==> k.caps == old(k.caps) + objects)
      ensures if stage == NoSlots then r != Done && unchanged(`tcb, `sc, `ipc) else r != Waiting && tcb != 0 && Shaped()
      ensures old(alloc.Room()) >= 1 && Probed(replies) ==> stage == Objects && alloc.Room() >= old(alloc.Room()) - 1
      ensures stage == Objects ==> (r == Done <==> !(old(k.calls) <= k.failing < old(k.calls) + OBJECTS))
      ensures r == Done ==> k.calls == old(k.calls) + OBJECTS
    {
      hide A.SlotAllocator.Room, A.SlotAllocator.Valid, A.SlotAllocator.Universe, A.SlotAllocator.InUse, S.Range, Probed, Run;
      stage := NoSlots;
      var base;
      r, base := TakeFrames(alloc, k, OBJECTS, replies);
      if base != 0 {
        tcb, sc, ipc := base, base + 1, base + 2;
        stage := Objects;
      }
    }

    /** What the record names after the frames were taken. */
    lemma RecordedNow(stage: Stage, mine: set<nat>, more: set<nat>, stack: set<nat>, tls: set<nat>)
      requires stage != NoSlots && mine == Run(tcb, OBJECTS) + more
      requires stage == Objects ==> more == {} && Run(stackBase, stackCount) == stack && Run(tlsBase, tlsCount) == tls
      requires stage == Stack ==> more == Run(stackBase, stackCount) && Run(tlsBase, tlsCount) == tls
      requires stage == All ==> more == Run(stackBase, stackCount) + Run(tlsBase, tlsCount)
      ensures Slots() == mine + StaleOf(stage, stack, tls)
    {
      hide Run;
    }

    static lemma Joined(u: set<nat>, u1: set<nat>, u2: set<nat>, c: set<nat>, c1: set<nat>, c2: set<nat>, a: set<nat>, b: set<nat>)
      requires u1 == u + a && u2 == u1 + b && a !! u && b !! u1 && c1 == c + a && c1 <= c2 <= c1 + b
      ensures (a + b) !! u && a !! b && u2 == u + (a + b) && c <= c2 <= c + (a + b) && (c2 == c1 + b ==> c2 == c + (a + b))
    {}

    /** The frames of the stack and of the TLS area. */
    method AcquireFrames(alloc: A.SlotAllocator, k: Kernel, stackPages: nat, tlsPages: nat, first: seq<A.Reply>, second: seq<A.Reply>)
      returns (r: Outcome, stage: Stage, ghost mine: set<nat>)
      requires alloc.Valid() && 0 < alloc.lo && A.Plausible(first) && A.Plausible(second)
      modifies alloc, k`caps, k`calls, this`stackBase, this`stackCount, this`tlsBase, this`tlsCount
      ensures alloc.Valid() && mine <= alloc.Universe() && old(alloc.Universe()) <= alloc.Universe()
      ensures mine !! old(alloc.InUse()) && alloc.InUse() == old(alloc.InUse()) + mine
      ensures old(k.caps) <= k.caps <= old(k.caps) + mine
      ensures stage != NoSlots
      ensures r == Waiting ==> stage != All && k.caps == old(k.caps) + mine
      ensures r == Done ==> stage == All && k.caps == old(k.caps) + mine
      ensures stage == Objects ==> mine == {} && unchanged(`stackBase, `stackCount, `tlsBase, `tlsCount)
      ensures stage != Objects ==> stackBase != 0 && stackCount == stackPages
      ensures stage == Stack ==> mine == Run(stackBase, stackCount) && unchanged(`tlsBase, `tlsCount)
      ensures stage == All ==> tlsCount == tlsPages && Run(stackBase, stackCount) !! Run(tlsBase, tlsCount)
      ensures stage == All ==> mine == Run(stackBase, stackCount) + Run(tlsBase, tlsCount)
      ensures old(AmpleFrames(alloc, stackPages, tlsPages, first, second)) && !(old(k.calls) <= k.failing < old(k.calls) + stackPages + tlsPages) ==>
                r == Done
      ensures r == Done ==> k.calls == old(k.calls) + stackPages + tlsPages
      ensures r == Done ==> !(old(k.calls) <= k.failing < old(k.calls) + stackPages + tlsPages)
    {
      hide A.SlotAllocator.Room, A.SlotAllocator.Valid, A.SlotAllocator.Universe, A.SlotAllocator.InUse, S.Range, Probed, A.Plausible, Run, A.NoProbe;
      mine := {};
      stage := Objects;
      var base;
      r, base := TakeFrames(alloc, k, stackPages, first);
      if base == 0 {
        return;
      }
      stackBase, stackCount := base, stackPages;
      mine := Run(base, stackPages);
      stage := Stack;
      if r != Done {
        return;
      }
      r, base := TakeFrames(alloc, k, tlsPages, second);
      if base == 0 {
        return;
      }
      tlsBase, tlsCount := base, tlsPages;
      mine := mine + Run(base, tlsPages);
      stage := All;
    }

    /** The thread's pages with the frames behind them: stack, IPC buffer and TLS, in this order. */
    ghost function Image(stackPages: nat, tlsPages: nat): map<nat, nat>
      reads `stackVa, `stackBase, `ipcVa, `ipc, `tlsVa, `tlsBase
    {
      Frames(stackVa, stackBase, stackPages) + Frames(ipcVa, ipc, 1) + Frames(tlsVa, tlsBase, tlsPages)
    }

    /** Where a region's parts are: a guard page, the stack, the IPC buffer, the TLS pages. */
    predicate At(region: nat, stackPages: nat, tlsPages: nat)
      reads `stackVa, `stackSize, `ipcVa, `tlsVa, `tlsSize
    {
      && stackVa == region + PAGE && stackSize == stackPages * PAGE
      && ipcVa == stackVa + stackSize && tlsVa == ipcVa + PAGE && tlsSize == tlsPages * PAGE
    }

    lemma RegionAt(region: nat, stackPages: nat, tlsPages: nat)
      requires At(region, stackPages, tlsPages)
      ensures Region() == Pages(stackVa, stackPages) + Pages(ipcVa, 1) + Pages(tlsVa, tlsPages) == Image(stackPages, tlsPages).Keys
      ensures forall p :: p in Region() ==> region < p < region + (2 + stackPages + tlsPages) * PAGE
    {
      assert Pages(ipcVa, 1) == Pages(ipcVa, 0) + {ipcVa};
      FramesAt(stackVa, stackBase, stackPages);
      FramesAt(ipcVa, ipc, 1);
      FramesAt(tlsVa, tlsBase, tlsPages);
      assert stackPages == 0 ==> Pages(stackVa, stackPages) == {};
      assert tlsPages == 0 ==> Pages(tlsVa, tlsPages) == {};
      hide Pages, Frames;
    }

    /** Gives the thread a region of its own, guard page first, and maps stack, IPC buffer and TLS. */
    method Place(k: Kernel, stackPages: nat, tlsPages: nat) returns (ok: bool)
      modifies k`mapped, k`calls, k`nextRegion, this`stackVa, this`stackSize, this`ipcVa, this`tlsVa, this`tlsSize
      ensures At(old(k.nextRegion), stackPages, tlsPages) && k.nextRegion == old(k.nextRegion) + REGION_PAGES * PAGE
      ensures ok ==> k.mapped == old(k.mapped) + Image(stackPages, tlsPages)
      ensures ok <==> !(old(k.calls) <= k.failing < old(k.calls) + stackPages + 1 + tlsPages)
      ensures ok ==> k.calls == old(k.calls) + stackPages + 1 + tlsPages
      ensures Region() == Image(stackPages, tlsPages).Keys
      ensures old(k.Clear()) ==> Region() !! old(k.mapped.Keys) && k.mapped - Region() == old(k.mapped)
      ensures old(k.Clear()) && 2 + stackPages + tlsPages <= REGION_PAGES ==> k.Clear()
    {
      hide Pages, Frames;
      var region := k.nextRegion;
      k.nextRegion := k.nextRegion + REGION_PAGES * PAGE;
      stackVa, stackSize := region + PAGE, stackPages * PAGE;
      ipcVa := stackVa + stackPages * PAGE;
      tlsVa, tlsSize := ipcVa + PAGE, tlsPages * PAGE;
      RegionAt(region, stackPages, tlsPages);
      ok := MapAll(k, stackPages, tlsPages);
      if old(k.Clear()) { MapUndo(old(k.mapped), k.mapped, Region()); }
    }

    method MapAll(k: Kernel, stackPages: nat, tlsPages: nat) returns (ok: bool)
      modifies k`mapped, k`calls
      ensures ok ==> k.mapped == old(k.mapped) + Image(stackPages, tlsPages)
      ensures ok <==> !(old(k.calls) <= k.failing < old(k.calls) + stackPages + 1 + tlsPages)
      ensures ok ==> k.calls == old(k.calls) + stackPages + 1 + tlsPages
      ensures var pages := Pages(stackVa, stackPages) + Pages(ipcVa, 1) + Pages(tlsVa, tlsPages);
              && k.mapped.Keys <= old(k.mapped.Keys) + pages
              && forall p :: p in old(k.mapped) && p !in pages ==> p in k.mapped && k.mapped[p] == old(k.mapped[p])
    {
      hide Pages, Frames;
      PagesGrow(stackVa, stackBase, stackPages);
      PagesGrow(ipcVa, ipc, 1);
      PagesGrow(tlsVa, tlsBase, tlsPages);
      ok := k.MapRun(stackVa, stackBase, stackPages);
      if ok {
        ok := k.MapRun(ipcVa, ipc, 1);
      }
      if ok {
        ok := k.MapRun(tlsVa, tlsBase, tlsPages);
      }
    }

    /** Two workers placed one after the other: their pages are apart exactly when the first needs at most
        one page more than a region has, and the second's guard page is left alone exactly when the
        first fits into its region. */
    static method PlaceTwo(d: Descriptor, e: Descriptor, k: Kernel, ds: nat, dt: nat, es: nat, et: nat)
      requires d != e
      modifies d, e, k
      ensures d.Region() !! e.Region() <==> 2 + ds + dt <= REGION_PAGES + 1
      ensures e.stackVa - PAGE !in d.Region() <==> 2 + ds + dt <= REGION_PAGES
    {
      hide Descriptor.Image, Descriptor.Region, Pages, Kernel.Clear;
      var region := k.nextRegion;
      var _ := d.Place(k, ds, dt);
      var _ := e.Place(k, es, et);
      d.RegionIsOneBlock(region, ds, dt);
      e.RegionIsOneBlock(region + REGION_PAGES * PAGE, es, et);
      BlocksApartIff(region, 1 + ds + dt, 1 + es + et);
    }

    lemma RegionIsOneBlock(region: nat, stackPages: nat, tlsPages: nat)
      requires At(region, stackPages, tlsPages)
      ensures Region() == Pages(region + PAGE, 1 + stackPages + tlsPages)
    {
      hide Pages, Frames, Region, Image;
      RegionAt(region, stackPages, tlsPages);
      assert tlsVa == region + PAGE + (stackPages + 1) * PAGE;
      PagesConcat(region + PAGE, stackPages, 1);
      PagesConcat(region + PAGE, stackPages + 1, tlsPages);
    }

    /** Gives back everything after a failure.  The frame ranges stay in the record. */
    method Rollback(alloc: A.SlotAllocator, k: Kernel)
      requires alloc.Valid() && Shaped()
      modifies alloc, k`caps, k`mapped, this`state
      ensures alloc.Valid() && state == Unused
      ensures alloc.InUse() == old(alloc.InUse()) - Slots() && k.caps == old(k.caps) - Slots()
      ensures k.mapped == old(k.mapped) - Region()
    {
      hide Run, Mapping, A.SlotAllocator.Valid, A.SlotAllocator.Universe, A.SlotAllocator.InUse;
      Release(alloc, k);
      state := Unused;
    }

    /** Creates a worker thread.  After a failure every slot, capability and page is as before, except
        that what the record still named from an earlier use is given back too. */
    method Spawn(alloc: A.SlotAllocator, k: Kernel, stackPages: nat, tlsPages: nat, replies: seq<seq<A.Reply>>)
      returns (r: Outcome, stage: Stage, placed: bool, ghost mine: set<nat>)
      requires alloc.Valid() && 0 < alloc.lo && Enough(replies) && Tidy(alloc, k) && k.Clear() && state == Unused
      modifies this, alloc, k
      ensures alloc.Valid()
      ensures r == Done ==>
                && state == Running && Shaped() && stage == All && placed && Slots() !! old(alloc.InUse()) && Region() !! old(k.mapped.Keys)
                && alloc.InUse() == old(alloc.InUse()) + Slots() && k.caps == old(k.caps) + Slots() && Slots() !! old(k.caps)
                && At(old(k.nextRegion), stackPages, tlsPages) && k.mapped == old(k.mapped) + Image(stackPages, tlsPages)
                && stackCount == stackPages && tlsCount == tlsPages && Region() == Image(stackPages, tlsPages).Keys
      ensures r == Failed ==>
                && state == Unused
                && alloc.InUse() == old(alloc.InUse()) - old(Stale(stage)) && k.caps == old(k.caps) - old(Stale(stage))
                && k.mapped == if stage == NoSlots || placed then old(k.mapped) else old(k.mapped) - old(Region())
      ensures r == Waiting ==>
                && state == Running && stage != All && !placed && k.mapped == old(k.mapped) && k.nextRegion == old(k.nextRegion)
                && mine !! old(alloc.InUse()) && alloc.InUse() == old(alloc.InUse()) + mine
                && k.caps == old(k.caps) + mine
                && if stage == NoSlots then mine == {} else Shaped() && Slots() == mine + old(Stale(stage))
      ensures r == Failed ==> (alloc.InUse() == old(alloc.InUse()) <==> old(Stale(stage)) !! old(alloc.InUse()))
      ensures r == Failed && stage in {Stack, All} ==> stackBase != 0 && stackCount == stackPages
      ensures r == Failed ==> if stage == NoSlots then Region() == old(Region()) else Region() !! k.mapped.Keys
      ensures 2 + stackPages + tlsPages <= REGION_PAGES ==> k.Clear()
      ensures r == Done ==> !old(Fails(k, stackPages, tlsPages))
      ensures old(Ample(alloc, stackPages, tlsPages, replies)) && !old(Fails(k, stackPages, tlsPages)) ==> r == Done
    {
      hide A.SlotAllocator.Room, Ample;
      hide A.SlotAllocator.Valid, A.SlotAllocator.Universe, A.SlotAllocator.InUse, S.Range, Slots, Region, Image, At, Stale, Shaped, Pages;
      StaleNone();
      state := Running;
      placed := false;
      r, stage, mine := Acquire(alloc, k, stackPages, tlsPages, replies);
      NoCapsYet(alloc, old(alloc.InUse()), old(k.caps), mine);
      if r == Waiting {
        return;
      }
      if stage == NoSlots {
        state := Unused;
        return;
      }
      if r == Done {
        placed := true;
        var ok := Place(k, stackPages, tlsPages);
        if ok {
          ok := k.CallRun(START_CALLS);
        }
        r := if ok then Done else Failed;
      }
      if r == Failed {
        Rollback(alloc, k);
      }
    }

    /** The worker ends; its resources are the reaper's to take. */
    method Exit()
      requires state == Running
      modifies this`state
      ensures state == Exited
    {
      state := Exited;
    }

    /** Reaps the thread if it has exited: gives everything back and clears the record's ranges. */
    method Reap(alloc: A.SlotAllocator, k: Kernel) returns (reaped: bool)
      requires alloc.Valid() && Shaped()
      modifies this, alloc, k
      ensures alloc.Valid() && reaped == (old(state) == Exited)
      ensures !reaped ==> unchanged(this, alloc, k)
      ensures reaped ==> state == Unused && stackBase == 0 && tlsBase == 0 && Region() == old(Region())
      ensures reaped ==> alloc.InUse() == old(alloc.InUse()) - old(Slots()) && k.caps == old(k.caps) - old(Slots())
      ensures reaped ==> k.mapped == old(k.mapped) - old(Region()) && k.nextRegion == old(k.nextRegion)
    {
      hide Mapping, S.Range, A.SlotAllocator.Valid, A.SlotAllocator.Universe, A.SlotAllocator.InUse;
      if state != Exited {
        return false;
      }
      state := Reaping;
      Release(alloc, k);
      stackBase, stackCount, tlsBase, tlsCount := 0, 0, 0, 0;
      state := Unused;
      reaped := true;
    }

    /** A whole life of a worker conserves slots, capabilities and pages, whether the spawn succeeds or
        fails, if the record names no frames and no mapped page when it starts.  A record that was reaped
        is such a record again. */
    method Life(alloc: A.SlotAllocator, k: Kernel, stackPages: nat, tlsPages: nat, replies: seq<seq<A.Reply>>)
      returns (r: Outcome, stage: Stage)
      requires alloc.Valid() && 0 < alloc.lo && Enough(replies) && Tidy(alloc, k) && k.Clear()
      requires state == Unused && stackBase == 0 && tlsBase == 0 && Region() !! k.mapped.Keys
      modifies this, alloc, k
      ensures alloc.Valid()
      ensures r != Waiting ==> state == Unused && alloc.InUse() == old(alloc.InUse()) && k.caps == old(k.caps) && k.mapped == old(k.mapped)
      ensures r != Waiting ==> Region() !! k.mapped.Keys
      ensures r == Done ==> stackBase == 0 && tlsBase == 0
    {
      hide A.SlotAllocator.Valid, A.SlotAllocator.Universe, A.SlotAllocator.InUse, S.Range, Slots, Region, Image, At, Shaped, Pages, Kernel.Clear;
      var placed;
      ghost var mine;
      r, stage, placed, mine := Spawn(alloc, k, stackPages, tlsPages, replies);
      if r == Done {
        Exit();
        var _ := Reap(alloc, k);
      }
    }
  }

  lemma MapUndo(before: map<nat, nat>, after: map<nat, nat>, pages: set<nat>)
    requires pages !! before.Keys && after.Keys <= before.Keys + pages
    requires forall p :: p in before && p !in pages ==> p in after && after[p] == before[p]
    ensures after - pages == before
  {}

  /** Every slot with a capability in it is in use, or is none that the allocator could hand out. */
  ghost predicate Tidy(alloc: A.SlotAllocator, k: Kernel)
    requires alloc.Valid()
    reads alloc, k
  {
    forall x :: x in k.caps ==> x in alloc.InUse() || (x < A.ExpansionStart(0) && !(alloc.lo <= x < alloc.hi))
  }

  /** Slots that were free have no capability in them. */
  lemma NoCapsYet(alloc: A.SlotAllocator, inUse: set<nat>, caps: set<nat>, mine: set<nat>)
    requires alloc.Valid() && mine <= alloc.Universe() && mine !! inUse
    requires forall x :: x in caps ==> x in inUse || (x < A.ExpansionStart(0) && !(alloc.lo <= x < alloc.hi))
    ensures mine !! caps
  {
    hide A.SlotAllocator.Valid, A.SlotAllocator.Universe;
    forall x | x in mine ensures x !in caps {
      alloc.WhereSlotsAre(x);
    }
  }

  method FreeIfAny(alloc: A.SlotAllocator, base: nat, n: nat)
    requires alloc.Valid()
    modifies alloc
    ensures alloc.Valid() && alloc.Universe() == old(alloc.Universe())
    ensures alloc.InUse() == old(alloc.InUse()) - Run(base, n)
  {
    if base != 0 {
      alloc.FreeRange(base, n);
    }
  }

  /** The kernel lets an expansion happen while these answers last. */
  predicate Probed(replies: seq<A.Reply>) { !A.NoProbe(replies, 1) }

  /** Enough for a whole spawn, wherever its runs of slots come from. */
  predicate Ample(alloc: A.SlotAllocator, stackPages: nat, tlsPages: nat, replies: seq<seq<A.Reply>>)
    requires Enough(replies)
    reads alloc
  {
    alloc.Room() >= 3 && Probed(replies[0]) && AmpleFrames(alloc, stackPages, tlsPages, replies[1], replies[2])
  }

  predicate AmpleFrames(alloc: A.SlotAllocator, stackPages: nat, tlsPages: nat, first: seq<A.Reply>, second: seq<A.Reply>)
    reads alloc
  {
    && alloc.Room() >= 2 && 0 < stackPages <= A.EXPAND_SLOTS && 0 < tlsPages <= A.EXPAND_SLOTS
    && Probed(first) && Probed(second)
  }

  /** One of the calls of a spawn fails: for each object and page its retyping, for each page its mapping, and those
      that start the thread. */
  predicate Fails(k: Kernel, stackPages: nat, tlsPages: nat)
    reads k
  {
    k.calls <= k.failing < k.calls + OBJECTS + (stackPages + tlsPages) + (stackPages + 1 + tlsPages) + START_CALLS
  }

  /** Takes n slots in a row and makes a capability in each; base 0 says that there were no slots. */
  method TakeFrames(alloc: A.SlotAllocator, k: Kernel, n: nat, replies: seq<A.Reply>) returns (r: Outcome, base: nat)
    requires alloc.Valid() && 0 < alloc.lo && A.Plausible(replies)
    modifies alloc, k`caps, k`calls
    ensures alloc.Valid() && old(alloc.Universe()) <= alloc.Universe() && Run(base, n) <= alloc.Universe()
    ensures Run(base, n) !! old(alloc.InUse()) && alloc.InUse() == old(alloc.InUse()) + Run(base, n)
    ensures old(k.caps) <= k.caps <= old(k.caps) + Run(base, n)
    ensures r == Done ==> base != 0 && k.caps == old(k.caps) + Run(base, n)
    ensures r == Waiting ==> base == 0
    ensures 0 < n <= A.EXPAND_SLOTS && old(alloc.Room()) >= 1 && Probed(replies) ==> base != 0
    ensures base == 0 ==> r != Done && k.calls == old(k.calls) && Run(base, n) == {}
    ensures base != 0 ==> (r == Done <==> !(old(k.calls) <= k.failing < old(k.calls) + n))
    ensures r == Done ==> k.calls == old(k.calls) + n
    ensures base != 0 && n <= A.EXPAND_SLOTS ==> alloc.Room() >= old(alloc.Room()) - 1
  {
    hide P.HasWindow;
    hide A.SlotAllocator.Valid, A.SlotAllocator.Universe, A.SlotAllocator.InUse;
    var slot, p := alloc.AllocRun(n, replies);
    if slot.None? {
      return if p == A.Pending then Waiting else Failed, 0;
    }
    base := slot.value;
    NonZero(alloc, base, n);
    var ok := k.RetypeRun(base, n);
    r := if ok then Done else Failed;
  }

  predicate Enough(replies: seq<seq<A.Reply>>) {
    |replies| == 3 && A.Plausible(replies[0]) && A.Plausible(replies[1]) && A.Plausible(replies[2])
  }

  /** No run of slots starts at 0, the value that stands for "none". */
  lemma NonZero(alloc: A.SlotAllocator, slot: nat, n: nat)
    requires alloc.Valid() && 0 < alloc.lo && 0 < n && S.Range(slot, slot + n) <= alloc.Universe()
    ensures slot != 0
  {
    hide A.SlotAllocator.Valid, A.SlotAllocator.Universe;
    assert slot in S.Range(slot, slot + n);
    alloc.WhereSlotsAre(slot);
  }

  lemma {:induction false} PagesGrow(base: nat, slots: nat, n: nat)
    ensures forall m: nat :: m <= n ==> Frames(base, slots, m).Keys <= Pages(base, n)
  {
    FramesAt(base, slots, n);
    if 0 < n { PagesGrow(base, slots, n - 1); }
  }
}

/** Where the parts of a new process go in its address space, with and without randomization. */
module VmLayout {
  import opened Common
  import opened Bytes

  const STACK_SIZE: nat := 32 * 0x1000
  const IPC_BASE: nat := 0x20_0000
  const CODE_BASE: nat := 0x21_0000
  const STACK1: nat := 0x3F_8000
  const STACK2: nat := 0x7F_8000
  const INITRD_BASE: nat := 0x100_0000
  const GUARD: nat := 0x1_0000
  const MMAP_GAP: nat := 0x1000_0000
  const CODE_SLIDES: nat := 256
  const STACK_SLIDES: nat := 64

  datatype Region = Region(base: nat, size: nat) {
    function End(): nat { base + size }
  }

  const NONE: Region := Region(0, 0)

  datatype Plan = Plan(ipc: Region, code: Region, rtld: Region, libs: Region, stack: Region, scratch: Region, initrd: Region, stackTop: nat) {
    function All(): seq<Region> { [ipc, code, rtld, libs, stack, scratch, initrd] }
    function CodeEnd(): nat { if libs.size > 0 then libs.End() else if rtld.size > 0 then rtld.End() else code.End() }
  }

  /** The sizes of a process's parts. */
  datatype Sizes = Sizes(elf: nat, rtld: nat, libPages: nat, mapInitrd: bool, initrd: nat)

  datatype Draw = NoDraw | Drawn(value: nat)

  function CodeRegions(s: Sizes, base: nat): (Region, Region, Region) {
    var code := Region(base, PageUp(s.elf));
    var rtld := if s.rtld > 0 then Region(PageUp(code.End() + PAGE), PageUp(s.rtld)) else NONE;
    var libs := if s.libPages > 0 && rtld.size > 0 then Region(PageUp(rtld.End() + PAGE), s.libPages * PAGE) else NONE;
    (code, rtld, libs)
  }

  function CodeEnd(c: (Region, Region, Region)): nat {
    if c.2.size > 0 then c.2.End() else if c.1.size > 0 then c.1.End() else c.0.End()
  }

  function WithStack(c: (Region, Region, Region), stackBase: nat, initrd: Region): Plan {
    Plan(Region(IPC_BASE, PAGE), c.0, c.1, c.2, Region(stackBase, STACK_SIZE), Region(stackBase + STACK_SIZE, PAGE), initrd, stackBase + STACK_SIZE)
  }

  function Fixed(s: Sizes): Plan {
    var c := CodeRegions(s, CODE_BASE);
    var end := CodeEnd(c);
    var stackBase := if end <= STACK1 then STACK1 else if end <= STACK2 then STACK2 else PageUp(end + GUARD);
    var scratchEnd := stackBase + STACK_SIZE + PAGE;
    var initrd :=
      if s.mapInitrd && s.initrd > 0 then
        Region(if scratchEnd > INITRD_BASE then PageUp(scratchEnd + PAGE) else INITRD_BASE, PageUp(s.initrd))
      else NONE;
    WithStack(c, stackBase, initrd)
  }

  function Slide(d: Draw, slides: nat): nat
    requires 0 < slides
  {
    if d.Drawn? then d.value % slides * PAGE else 0
  }

  /** With two random draws; falls back to the fixed plan when the code leaves no room for the stack. */
  function Randomized(s: Sizes, codeDraw: Draw, stackDraw: Draw): Plan {
    Choose(CodeRegions(s, CODE_BASE + Slide(codeDraw, CODE_SLIDES)), Slide(stackDraw, STACK_SLIDES), InitrdAt(s), Fixed(s))
  }

  function Choose(c: (Region, Region, Region), slide: nat, initrd: Region, fixed: Plan): Plan {
    var end := CodeEnd(c);
    if end <= STACK1 - slide then WithStack(c, STACK1 - slide, initrd)
    else if end <= STACK2 - slide then WithStack(c, STACK2 - slide, initrd)
    else fixed
  }

  // ------------------------------------------------------------ what a draw decides

  /** The draw chooses place k of n: the one with the same remainder, or the first if nothing was drawn. */
  predicate Chooses(d: Draw, k: nat, n: nat)
    requires 0 < n
  {
    if d.Drawn? then k < n && (d.value - k) % n == 0 else k == 0
  }

  lemma CodeSlideIs(d: Draw, k: nat)
    requires Chooses(d, k, 256)
    ensures Slide(d, CODE_SLIDES) == k * PAGE
  {}

  lemma StackSlideIs(d: Draw, j: nat)
    requires Chooses(d, j, 64)
    ensures Slide(d, STACK_SLIDES) == j * PAGE
  {}

  /** Each draw moves its part by a whole number of pages of its own choosing: the code up from its base by the one,
      the stack down from the higher place that is free by the other.  If neither place is free nothing is moved. */
  lemma PlanIsDrawn(s: Sizes, codeDraw: Draw, stackDraw: Draw, k: nat, j: nat)
    requires Chooses(codeDraw, k, 256) && Chooses(stackDraw, j, 64)
    ensures var p, c := Randomized(s, codeDraw, stackDraw), CodeRegions(s, CODE_BASE + k * PAGE);
            if CodeEnd(c) + j * PAGE <= STACK2 then
              && p.code == c.0 && p.rtld == c.1 && p.libs == c.2 && p.code.base == CODE_BASE + k * PAGE
              && p.stack.base + j * PAGE == if CodeEnd(c) + j * PAGE <= STACK1 then STACK1 else STACK2
            else p == Fixed(s)
  {
    hide PageUp, Fixed, CodeEnd, Slide, Chooses;
    CodeSlideIs(codeDraw, k);
    StackSlideIs(stackDraw, j);
  }

  // ------------------------------------------------------------ what a plan promises

  predicate OnPage(a: int) { a % PAGE == 0 }

  predicate Paged(r: Region) { OnPage(r.base) && OnPage(r.size) }

  /** One region ends before the other starts, unless one of them is empty. */
  predicate Before(a: Region, b: Region) { a.size == 0 || b.size == 0 || a.End() <= b.base }

  /** The regions follow each other in the order of the plan, on page boundaries. */
  ghost predicate Good(p: Plan) {
    && (forall i :: 0 <= i < |p.All()| ==> Paged(p.All()[i]))
    && (forall i, j :: 0 <= i < j < |p.All()| ==> Before(p.All()[i], p.All()[j]))
    && p.ipc.End() <= p.code.base && p.stackTop == p.stack.End() == p.scratch.base
  }

  /** The code regions follow each other from the base on. */
  predicate InOrder(c: (Region, Region, Region), base: nat) {
    && Paged(c.0) && Paged(c.1) && Paged(c.2)
    && c.0.base == base && Before(c.0, c.1) && Before(c.0, c.2) && Before(c.1, c.2)
    && c.0.End() <= CodeEnd(c)
    && (c.1.size > 0 ==> base <= c.1.base && c.1.End() <= CodeEnd(c))
    && (c.2.size > 0 ==> base <= c.2.base && c.2.End() <= CodeEnd(c))
  }

  lemma CodeInOrder(s: Sizes, base: nat)
    requires OnPage(base)
    ensures InOrder(CodeRegions(s, base), base)
  {
    hide PageDown, PageUp;
    Multiple(s.libPages);
  }

  lemma Multiple(n: nat)
    ensures OnPage(n * PAGE)
  {}

  lemma PlanIsGood(c: (Region, Region, Region), base: nat, stackBase: nat, initrd: Region)
    requires InOrder(c, base) && CODE_BASE <= base && CodeEnd(c) <= stackBase && OnPage(stackBase)
    requires Paged(initrd) && (initrd.size > 0 ==> stackBase + STACK_SIZE + PAGE <= initrd.base)
    ensures Good(WithStack(c, stackBase, initrd))
  {
    StackPaged(stackBase);
    hide Paged;
  }

  lemma StackPaged(stackBase: nat)
    requires OnPage(stackBase)
    ensures Paged(Region(stackBase, STACK_SIZE)) && Paged(Region(stackBase + STACK_SIZE, PAGE)) && Paged(Region(IPC_BASE, PAGE))
  {}

  /** The regions of the fixed plan are page-aligned and pairwise disjoint, whatever the sizes. */
  lemma FixedIsGood(s: Sizes)
    ensures Good(Fixed(s))
  {
    CodeInOrder(s, CODE_BASE);
    hide PageDown, PageUp, CodeRegions, Good, CodeEnd, InOrder;
    var c := CodeRegions(s, CODE_BASE);
    PlanIsGood(c, CODE_BASE, Fixed(s).stack.base, Fixed(s).initrd);
  }

  lemma CodeSlid(d: Draw)
    ensures OnPage(CODE_BASE + Slide(d, CODE_SLIDES))
  {}

  lemma StackSlid(d: Draw)
    ensures var slide := Slide(d, STACK_SLIDES); slide <= 63 * PAGE && OnPage(STACK1 - slide) && OnPage(STACK2 - slide)
  {}

  function InitrdAt(s: Sizes): Region { if s.mapInitrd && s.initrd > 0 then Region(INITRD_BASE, PageUp(s.initrd)) else NONE }

  lemma InitrdPaged(s: Sizes)
    ensures Paged(InitrdAt(s)) && (InitrdAt(s).size > 0 ==> InitrdAt(s).base == INITRD_BASE)
  {}

  /** The same for every pair of random draws. */
  lemma RandomizedIsGood(s: Sizes, codeDraw: Draw, stackDraw: Draw)
    ensures Good(Randomized(s, codeDraw, stackDraw))
  {
    hide Good, Slide, OnPage, Paged, InOrder, CodeRegions, InitrdAt, Choose, Fixed;
    CodeSlid(codeDraw);
    StackSlid(stackDraw);
    FixedIsGood(s);
    InitrdPaged(s);
    var base := CODE_BASE + Slide(codeDraw, CODE_SLIDES);
    CodeInOrder(s, base);
    ChosenIsGood(CodeRegions(s, base), base, Slide(stackDraw, STACK_SLIDES), InitrdAt(s), Fixed(s));
  }

  lemma ChosenIsGood(c: (Region, Region, Region), base: nat, slide: nat, initrd: Region, fixed: Plan)
    requires InOrder(c, base) && CODE_BASE <= base && slide <= 63 * PAGE && OnPage(STACK1 - slide) && OnPage(STACK2 - slide)
    requires Paged(initrd) && (initrd.size > 0 ==> initrd.base == INITRD_BASE) && Good(fixed)
    ensures Good(Choose(c, slide, initrd, fixed))
  {
    hide Good, OnPage, Paged, InOrder, CodeEnd, WithStack;
    if CodeEnd(c) <= STACK1 - slide {
      PlanIsGood(c, base, STACK1 - slide, initrd);
    } else if CodeEnd(c) <= STACK2 - slide {
      PlanIsGood(c, base, STACK2 - slide, initrd);
    }
  }

  /** A region has room for so many bytes, and less than a page more. */
  predicate Room(r: Region, bytes: nat) { bytes <= r.size < bytes + PAGE }

  /** Every part gets the room it needs, an unused page separates the parts of the code, and the optional
      regions are there exactly when they are wanted. */
  predicate Fits(s: Sizes, p: Plan) {
    && p.ipc == Region(IPC_BASE, PAGE) && Room(p.code, s.elf) && Room(p.rtld, s.rtld)
    && p.libs.size == (if s.libPages > 0 && s.rtld > 0 then s.libPages * PAGE else 0)
    && (p.rtld.size > 0 ==> p.code.End() + PAGE <= p.rtld.base) && (p.libs.size > 0 ==> p.rtld.End() + PAGE <= p.libs.base)
    && p.stack.size == STACK_SIZE && p.scratch.size == PAGE && Room(p.initrd, if s.mapInitrd then s.initrd else 0)
  }

  lemma CodeFits(s: Sizes, base: nat)
    ensures var c := CodeRegions(s, base);
            && Room(c.0, s.elf) && Room(c.1, s.rtld) && c.2.size == (if s.libPages > 0 && s.rtld > 0 then s.libPages * PAGE else 0)
            && (c.1.size > 0 ==> c.0.End() + PAGE <= c.1.base) && (c.2.size > 0 ==> c.1.End() + PAGE <= c.2.base)
  {
    hide PageDown, PageUp;
  }

  lemma FixedFits(s: Sizes)
    ensures Fits(s, Fixed(s)) && Fixed(s).code.base == CODE_BASE
    ensures var p := Fixed(s);
            if p.CodeEnd() <= STACK1 then p.stack.base == STACK1
            else if p.CodeEnd() <= STACK2 then p.stack.base == STACK2
            else p.CodeEnd() + GUARD <= p.stack.base < p.CodeEnd() + GUARD + PAGE
    ensures var p := Fixed(s);
            p.initrd.size > 0 ==>
              if p.scratch.End() <= INITRD_BASE then p.initrd.base == INITRD_BASE
              else p.scratch.End() + PAGE <= p.initrd.base < p.scratch.End() + 2 * PAGE
  {
    CodeFits(s, CODE_BASE);
    CodeStarts(s, CODE_BASE);
    hide PageDown, PageUp, CodeRegions;
  }

  lemma CodeStarts(s: Sizes, base: nat)
    ensures CodeRegions(s, base).0.base == base
  {}

  /** A randomized plan fits as well, and moves the code by less than 256 pages. */
  lemma RandomizedFits(s: Sizes, codeDraw: Draw, stackDraw: Draw)
    ensures Fits(s, Randomized(s, codeDraw, stackDraw))
    ensures CODE_BASE <= Randomized(s, codeDraw, stackDraw).code.base < CODE_BASE + CODE_SLIDES * PAGE
  {
    hide Slide, Fits, CodeRegions, Choose, InitrdAt, Fixed;
    FixedFits(s);
    CodeSlideBound(codeDraw);
    StackSlid(stackDraw);
    var base := CODE_BASE + Slide(codeDraw, CODE_SLIDES);
    CodeFits(s, base);
    CodeStarts(s, base);
    ChosenFits(s, CodeRegions(s, base), Slide(stackDraw, STACK_SLIDES), Fixed(s));
  }

  lemma CodeSlideBound(d: Draw)
    ensures Slide(d, CODE_SLIDES) < CODE_SLIDES * PAGE
  {}

  lemma ChosenFits(s: Sizes, c: (Region, Region, Region), slide: nat, fixed: Plan)
    requires Room(c.0, s.elf) && Room(c.1, s.rtld) && c.2.size == (if s.libPages > 0 && s.rtld > 0 then s.libPages * PAGE else 0)
    requires (c.1.size > 0 ==> c.0.End() + PAGE <= c.1.base) && (c.2.size > 0 ==> c.1.End() + PAGE <= c.2.base)
    requires slide <= 63 * PAGE && Fits(s, fixed)
    ensures var p := Choose(c, slide, InitrdAt(s), fixed); Fits(s, p) && (p.code == c.0 || p == fixed)
  {
    hide CodeEnd, PageDown, PageUp;
  }

  // ------------------------------------------------------------ heap and mmap

  /** The start of the heap: at or above the end of every region, on a page boundary, and less than a
      page above the highest of them. */
  method HeapBase(p: Plan) returns (h: int)
    requires Good(p)
    ensures h % PAGE == 0
    ensures forall i :: 0 <= i < |p.All()| && p.All()[i].size > 0 ==> p.All()[i].End() <= h
    ensures exists i :: 0 <= i < |p.All()| && h < p.All()[i].End() + PAGE
  {
    CodeEndsLast(p);
    hide Good, PageDown, PageUp, Plan.CodeEnd;
    var highest := p.CodeEnd();
    ghost var k := if p.libs.size > 0 then 3 else if p.rtld.size > 0 then 2 else 1;
    if p.stack.size > 0 && p.stack.End() > highest {
      highest := p.stack.End();
      k := 4;
    }
    if p.scratch.size > 0 && p.scratch.End() > highest {
      highest := p.scratch.End();
      k := 5;
    }
    if p.initrd.size > 0 && p.initrd.End() > highest {
      highest := p.initrd.End();
      k := 6;
    }
    assert p.All()[k].End() == highest;
    h := PageUp(highest);
  }

  lemma CodeEndsLast(p: Plan)
    requires Good(p)
    ensures (p.ipc.size > 0 ==> p.ipc.End() <= p.CodeEnd()) && (p.code.size > 0 ==> p.code.End() <= p.CodeEnd())
    ensures p.rtld.size > 0 ==> p.rtld.End() <= p.CodeEnd()
    ensures p.libs.size > 0 ==> p.libs.End() <= p.CodeEnd()
    ensures p.CodeEnd() == p.All()[if p.libs.size > 0 then 3 else if p.rtld.size > 0 then 2 else 1].End()
  {
    var rs := p.All();
    assert Before(rs[0], rs[3]) && Before(rs[0], rs[2]) && Before(rs[1], rs[2]) && Before(rs[1], rs[3]) && Before(rs[2], rs[3]);
  }

  /** The highest end of a region that is not empty. */
  method MaxMappedEnd(p: Plan) returns (high: nat)
    ensures forall i :: 0 <= i < |p.All()| && p.All()[i].size > 0 ==> p.All()[i].End() <= high
    ensures high == 0 || exists i :: 0 <= i < |p.All()| && p.All()[i].size > 0 && p.All()[i].End() == high
  {
    high := 0;
    var rs, k := p.All(), 0;
    while k < |rs|
      invariant k <= |rs| && rs == p.All()
      invariant forall i :: 0 <= i < k && rs[i].size > 0 ==> rs[i].End() <= high
      invariant high == 0 || exists i :: 0 <= i < k && rs[i].size > 0 && rs[i].End() == high
    {
      if rs[k].size != 0 && rs[k].End() > high {
        high := rs[k].End();
      }
      k := k + 1;
    }
  }

  /** The start of the mmap area: at least 256 MiB above the heap's start and every region. */
  method MmapBase(p: Plan, heapBase: nat) returns (m: int)
    ensures m % PAGE == 0 && heapBase + MMAP_GAP <= m
    ensures forall i :: 0 <= i < |p.All()| && p.All()[i].size > 0 ==> p.All()[i].End() + MMAP_GAP <= m
  {
    var high := MaxMappedEnd(p);
    if high < heapBase {
      high := heapBase;
    }
    m := PageUp(high + MMAP_GAP);
  }
}

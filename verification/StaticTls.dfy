/** Static thread-local storage from the linker's layout to the address of a variable: variant II on
    x86_64, variant I on aarch64. */
module StaticTls {
  import opened Common
  import opened Bytes

  const MAX_MODULES: nat := 8
  const MAX_TLS: nat := 4096
  const ABI_HEADER: nat := 16

  datatype Arch = X86 | Arm

  /** The PT_TLS segment of a loaded object; memsz 0 if it has none. */
  datatype Tls = Tls(memsz: nat, align: nat, template: seq<Byte>)

  /** A row of the exported module table. */
  datatype Module = Module(id: nat, template: seq<Byte>, memsz: nat, tpoff: int)

  // ------------------------------------------------------------ alignment

  predicate IsPow2(a: nat) { a == 1 || (1 < a && a % 2 == 0 && IsPow2(a / 2)) }

  function Times(k: int, a: int): int { k * a }

  /** x is a multiple of a. */
  ghost predicate Aligned(x: int, a: int) { exists k :: x == Times(k, a) }

  lemma AlignedSum(x: int, y: int, a: int)
    requires Aligned(x, a) && Aligned(y, a)
    ensures Aligned(x + y, a) && Aligned(x - y, a) && Aligned(-y, a)
  {
    var k, l :| x == Times(k, a) && y == Times(l, a);
    assert x + y == Times(k + l, a) && x - y == Times(k - l, a) && -y == Times(-l, a);
  }

  lemma AlignedTrans(x: int, b: int, a: int)
    requires Aligned(x, b) && Aligned(b, a)
    ensures Aligned(x, a)
  {
    var k, l :| x == Times(k, b) && b == Times(l, a);
    assert x == Times(k * l, a);
  }

  lemma {:induction false} Pow2Divides(a: nat, b: nat)
    requires IsPow2(a) && IsPow2(b) && a <= b
    ensures Aligned(b, a)
  {
    if a == 1 {
      assert b == Times(b, 1);
    } else {
      Pow2Divides(a / 2, b / 2);
      var k :| b / 2 == Times(k, a / 2);
      assert b == 2 * (b / 2) == Times(k, 2 * (a / 2)) == Times(k, a);
    }
  }

  function AlignDown(v: int, a: nat): (r: int)
    requires 0 < a
    ensures v - a < r <= v && Aligned(r, a)
  {
    assert Times(v / a, a) == v - v % a;
    Times(v / a, a)
  }

  function AlignUp(v: int, a: nat): (r: int)
    requires 0 < a
    ensures v <= r < v + a && Aligned(r, a)
  {
    AlignDown(v + a - 1, a)
  }

  function Max(a: nat, b: nat): nat { if a < b then b else a }

  // ------------------------------------------------------------ the linker's layout

  function Align(m: Tls): (a: nat)
    ensures 0 < a
  {
    if m.align == 0 then 1 else m.align
  }

  /** What the layout starts with: the thread pointer's header on aarch64. */
  function First(arch: Arch): nat { if arch == Arm then ABI_HEADER else 0 }

  /** The room taken after the given objects. */
  function Total(arch: Arch, os: seq<Tls>): (t: int)
    ensures First(arch) <= t
  {
    if os == [] then First(arch)
    else
      var n := |os| - 1;
      var before, m := Total(arch, os[..n]), os[n];
      if m.memsz == 0 then before
      else if arch == X86 then AlignUp(before + m.memsz, Align(m))
      else AlignUp(before, Align(m)) + m.memsz
  }

  /** Where object i's block lies relative to the thread pointer. */
  function Offset(arch: Arch, os: seq<Tls>, i: nat): int
    requires i < |os|
  {
    if arch == X86 then -Total(arch, os[..i + 1]) else AlignUp(Total(arch, os[..i]), Align(os[i]))
  }

  function Count(os: seq<Tls>): nat {
    if os == [] then 0 else Count(os[..|os| - 1]) + if os[|os| - 1].memsz == 0 then 0 else 1
  }

  function MaxAlign(arch: Arch, os: seq<Tls>): (a: nat)
    ensures 0 < a
  {
    if os == [] then Max(First(arch), 1)
    else
      var n := |os| - 1;
      var before := MaxAlign(arch, os[..n]);
      if os[n].memsz == 0 then before else Max(before, Align(os[n]))
  }

  /** The exported table: one row for each object that has thread-local storage. */
  function Modules(arch: Arch, os: seq<Tls>): (ms: seq<Module>)
    ensures |ms| == Count(os)
  {
    if os == [] then []
    else
      var n := |os| - 1;
      var before := Modules(arch, os[..n]);
      if os[n].memsz == 0 then before
      else before + [Module(|before| + 1, os[n].template, os[n].memsz, Offset(arch, os, n))]
  }

  method LayOut(arch: Arch, os: seq<Tls>) returns (ms: seq<Module>, total: int, align: nat)
    ensures ms == Modules(arch, os) && total == Total(arch, os) && align == MaxAlign(arch, os)
  {
    total := First(arch);
    align := Max(First(arch), 1);
    ms := [];
    var i := 0;
    assert total == Total(arch, os[..i]) && ms == Modules(arch, os[..i]);
    hide AlignUp, Total, Modules;
    while i < |os|
      invariant i <= |os| && total == Total(arch, os[..i]) && align == MaxAlign(arch, os[..i]) && ms == Modules(arch, os[..i])
    {
      var m := os[i];
      assert os[..i + 1][..i] == os[..i];
      if m.memsz == 0 { NoRowForIt(arch, os[..i + 1]); } else { RowForIt(arch, os[..i + 1]); }
      if m.memsz != 0 {
        var a := if m.align != 0 then m.align else 1;
        var tpoff;
        if arch == Arm {
          total := AlignUp(total, a);
          tpoff := total;
          total := total + m.memsz;
        } else {
          total := AlignUp(total + m.memsz, a);
          tpoff := -total;
        }
        align := Max(align, a);
        ms := ms + [Module(|ms| + 1, m.template, m.memsz, tpoff)];
      }
      i := i + 1;
    }
    assert os[..i] == os;
  }

  /** Lays the objects out in link order. */
  method Finalize(arch: Arch, os: seq<Tls>) returns (ms: seq<Module>, memsz: int, align: nat)
    ensures ms == Modules(arch, os) && memsz == Total(arch, os) - First(arch) && align == MaxAlign(arch, os)
    ensures RowsAre(arch, os, ms) && EndsAt(arch, ms, memsz) && Strictest(arch, os, align)
  {
    hide Total, MaxAlign, Modules, RowsAre, Strictest, EndsAt;
    ms, memsz, align := LayOut(arch, os);
    memsz := memsz - First(arch);
    LayoutIsTight(arch, os);
    AlignIsLargest(arch, os);
  }

  // ------------------------------------------------------------ what the layout promises

  /** Templates fit their blocks; alignments are powers of two (0 stands for 1). */
  ghost predicate WellFormed(os: seq<Tls>) {
    forall i :: 0 <= i < |os| ==> |os[i].template| <= os[i].memsz && (os[i].align == 0 || IsPow2(os[i].align))
  }

  lemma TotalStep(arch: Arch, os: seq<Tls>, i: nat)
    requires i < |os|
    ensures os[..i + 1][..i] == os[..i]
    ensures Total(arch, os[..i]) + os[i].memsz <= Total(arch, os[..i + 1])
    ensures os[i].memsz != 0 ==>
              if arch == X86 then Offset(arch, os, i) + os[i].memsz <= -Total(arch, os[..i])
              else Total(arch, os[..i]) <= Offset(arch, os, i) && Offset(arch, os, i) + os[i].memsz == Total(arch, os[..i + 1])
  {
    assert os[..i + 1][..i] == os[..i];
  }

  lemma {:induction false} TotalGrows(arch: Arch, os: seq<Tls>, i: nat, j: nat)
    requires i <= j <= |os|
    ensures Total(arch, os[..i]) <= Total(arch, os[..j])
    decreases j
  {
    if i < j {
      TotalStep(arch, os, j - 1);
      TotalGrows(arch, os, i, j - 1);
    }
  }

  /** Every block lies in the area between the thread pointer and the total, on the right side of it. */
  lemma BlockInArea(arch: Arch, os: seq<Tls>, i: nat)
    requires i < |os| && os[i].memsz != 0
    ensures if arch == X86 then -Total(arch, os) <= Offset(arch, os, i) && Offset(arch, os, i) + os[i].memsz <= 0
            else ABI_HEADER <= Offset(arch, os, i) && Offset(arch, os, i) + os[i].memsz <= Total(arch, os)
  {
    hide Total;
    TotalStep(arch, os, i);
    TotalGrows(arch, os, i + 1, |os|);
    assert os[..|os|] == os;
  }

  /** Blocks of different objects do not overlap. */
  lemma BlocksApart(arch: Arch, os: seq<Tls>, i: nat, j: nat)
    requires i < j < |os| && os[i].memsz != 0 && os[j].memsz != 0
    ensures Offset(arch, os, i) + os[i].memsz <= Offset(arch, os, j) || Offset(arch, os, j) + os[j].memsz <= Offset(arch, os, i)
  {
    hide Total;
    TotalStep(arch, os, i);
    TotalStep(arch, os, j);
    TotalGrows(arch, os, i + 1, j);
  }

  lemma {:induction false} MaxAlignIs(arch: Arch, os: seq<Tls>, i: nat)
    requires WellFormed(os) && (i < |os| ==> os[i].memsz != 0)
    ensures IsPow2(MaxAlign(arch, os)) && (i < |os| ==> Align(os[i]) <= MaxAlign(arch, os))
    decreases |os|
  {
    if os != [] {
      var n := |os| - 1;
      assert WellFormed(os[..n]);
      MaxAlignIs(arch, os[..n], if i < n then i else n);
    } else {
      Pow2Constants();
    }
  }

  /** With an aligned thread pointer every block is aligned as its object asks. */
  lemma BlockAligned(arch: Arch, os: seq<Tls>, i: nat, tp: int)
    requires WellFormed(os) && i < |os| && os[i].memsz != 0 && Aligned(tp, MaxAlign(arch, os))
    ensures Aligned(tp + Offset(arch, os, i), Align(os[i]))
  {
    MaxAlignIs(arch, os, i);
    assert IsPow2(Align(os[i]));
    Pow2Divides(Align(os[i]), MaxAlign(arch, os));
    AlignedTrans(tp, MaxAlign(arch, os), Align(os[i]));
    OffsetAligned(arch, os, i);
    AlignedSum(tp, Offset(arch, os, i), Align(os[i]));
  }

  lemma OffsetAligned(arch: Arch, os: seq<Tls>, i: nat)
    requires i < |os| && os[i].memsz != 0
    ensures Aligned(Offset(arch, os, i), Align(os[i]))
  {
    TotalStep(arch, os, i);
    if arch == X86 {
      AlignedSum(Total(arch, os[..i + 1]), Total(arch, os[..i + 1]), Align(os[i]));
    }
  }

  /** The table's rows are the objects with thread-local storage in order, numbered from 1. */
  lemma {:induction false} ModuleAt(arch: Arch, os: seq<Tls>, i: nat)
    requires i < |os| && os[i].memsz != 0
    ensures var k := Count(os[..i + 1]);
            && 0 < k <= Count(os)
            && Modules(arch, os)[k - 1] == Module(k, os[i].template, os[i].memsz, Offset(arch, os, i))
    decreases |os|
  {
    hide Total, AlignUp, Align;
    var n := |os| - 1;
    if i == n {
      assert os[..i + 1] == os;
    } else {
      OffsetPrefix(arch, os, n, i);
      ModuleAt(arch, os[..n], i);
      hide Offset;
      assert Modules(arch, os[..n]) <= Modules(arch, os);
    }
  }

  lemma OffsetPrefix(arch: Arch, os: seq<Tls>, n: nat, i: nat)
    requires i < n <= |os|
    ensures os[..n][..i + 1] == os[..i + 1] && Offset(arch, os[..n], i) == Offset(arch, os, i)
  {
    assert os[..n][..i + 1] == os[..i + 1] && os[..n][..i] == os[..i];
  }

  /** A row is some object's. */
  lemma {:induction false} ObjectOf(arch: Arch, os: seq<Tls>, k: nat) returns (i: nat)
    requires k < Count(os)
    ensures i < |os| && os[i].memsz != 0 && Count(os[..i + 1]) == k + 1
    decreases |os|
  {
    var n := |os| - 1;
    if k == Count(os) - 1 && os[n].memsz != 0 {
      i := n;
      assert os[..i + 1] == os;
    } else {
      i := ObjectOf(arch, os[..n], k);
      assert os[..n][..i + 1] == os[..i + 1];
    }
  }

  // ------------------------------------------------------------ the offsets the ABI asks for

  /** The objects that have thread-local storage, in link order. */
  function Rows(os: seq<Tls>): (rows: seq<nat>)
    ensures forall k :: 0 <= k < |rows| ==> rows[k] < |os| && os[rows[k]].memsz != 0
    ensures forall k, l :: 0 <= k < l < |rows| ==> rows[k] < rows[l]
    ensures forall i: nat :: i < |os| && os[i].memsz != 0 ==> i in rows
  {
    if os == [] then []
    else
      var n := |os| - 1;
      var before := Rows(os[..n]);
      if os[n].memsz == 0 then before else before + [n]
  }

  /** x is the greatest multiple of a that is at most the bound. */
  ghost predicate LastMultiple(x: int, a: nat, bound: int) { Aligned(x, a) && x <= bound < x + a }

  /** x is the least multiple of a that is at least the bound. */
  ghost predicate NextMultiple(x: int, a: nat, bound: int) { Aligned(x, a) && x - a < bound <= x }

  /** Where the block of row k must be: the first one next to the thread pointer or its header, every other one next
      to the one before, as near as its alignment allows. */
  ghost predicate RowAt(arch: Arch, m: Module, align: nat, before: seq<Module>) {
    match arch
    case X86 => LastMultiple(m.tpoff, align, (if before == [] then 0 else before[|before| - 1].tpoff) - m.memsz)
    case Arm => NextMultiple(m.tpoff, align, if before == [] then 16 else before[|before| - 1].tpoff + before[|before| - 1].memsz)
  }

  ghost predicate RowIs(arch: Arch, m: Tls, ms: seq<Module>, k: nat)
    requires k < |ms|
  {
    && ms[k].id == k + 1 && ms[k].template == m.template && ms[k].memsz == m.memsz
    && RowAt(arch, ms[k], if m.align == 0 then 1 else m.align, ms[..k])
  }

  /** Rows for the given objects, at the offsets that the ABI asks for. */
  ghost predicate RowsAre(arch: Arch, os: seq<Tls>, ms: seq<Module>) {
    |ms| == |Rows(os)| && forall k :: 0 <= k < |ms| ==> RowIs(arch, os[Rows(os)[k]], ms, k)
  }

  /** The area ends where the last block does. */
  predicate EndsAt(arch: Arch, ms: seq<Module>, memsz: int) {
    if ms == [] then memsz == 0
    else if arch == X86 then memsz == -ms[|ms| - 1].tpoff
    else memsz == ms[|ms| - 1].tpoff + ms[|ms| - 1].memsz - 16
  }

  /** The layout that the linker makes is the one that the ABI asks for. */
  lemma {:induction false} LayoutIsTight(arch: Arch, os: seq<Tls>)
    ensures RowsAre(arch, os, Modules(arch, os)) && EndsAt(arch, Modules(arch, os), Total(arch, os) - First(arch))
  {
    if os != [] {
      LayoutIsTight(arch, os[..|os| - 1]);
      if os[|os| - 1].memsz != 0 { LastRow(arch, os); }
      hide RowAt, Offset, RowsAre;
      MoreRows(arch, os, Modules(arch, os));
    }
  }

  lemma MoreRows(arch: Arch, os: seq<Tls>, ms: seq<Module>)
    requires os != []
    requires if os[|os| - 1].memsz == 0 then RowsAre(arch, os[..|os| - 1], ms)
             else ms != [] && RowsAre(arch, os[..|os| - 1], ms[..|ms| - 1]) && RowIs(arch, os[|os| - 1], ms, |ms| - 1)
    ensures RowsAre(arch, os, ms)
  {
    var n := |os| - 1;
    var rows := Rows(os[..n]);
    forall k | 0 <= k < |rows| ensures os[..n][rows[k]] == os[rows[k]] {}
    if os[n].memsz != 0 {
      var before := ms[..|ms| - 1];
      forall k | 0 <= k < |before| ensures RowIs(arch, os[rows[k]], ms, k) {
        assert before[..k] == ms[..k];
        assert RowIs(arch, os[..n][rows[k]], before, k);
      }
      assert Rows(os) == rows + [n];
    }
  }

  /** The last object's row, given the room taken before it. */
  function RowFor(arch: Arch, o: Tls, before: seq<Module>, total: int): Module {
    Module(|before| + 1, o.template, o.memsz, if arch == X86 then -AlignUp(total + o.memsz, Align(o)) else AlignUp(total, Align(o)))
  }

  lemma RowForIt(arch: Arch, os: seq<Tls>)
    requires os != [] && os[|os| - 1].memsz != 0
    ensures var n := |os| - 1;
            var before := Modules(arch, os[..n]);
            var m := RowFor(arch, os[n], before, Total(arch, os[..n]));
            Modules(arch, os) == before + [m] && Total(arch, os) == if arch == X86 then -m.tpoff else m.tpoff + m.memsz
  {
    hide AlignUp, Align;
    var n := |os| - 1;
    assert os[..n + 1] == os;
  }

  lemma NoRowForIt(arch: Arch, os: seq<Tls>)
    requires os != [] && os[|os| - 1].memsz == 0
    ensures Modules(arch, os) == Modules(arch, os[..|os| - 1]) && Total(arch, os) == Total(arch, os[..|os| - 1])
  {}

  lemma LastRow(arch: Arch, os: seq<Tls>)
    requires os != [] && os[|os| - 1].memsz != 0
    requires var before := os[..|os| - 1]; EndsAt(arch, Modules(arch, before), Total(arch, before) - First(arch))
    ensures var n := |os| - 1;
            var before, ms := Modules(arch, os[..n]), Modules(arch, os);
            && ms != [] && ms[..|ms| - 1] == before && RowIs(arch, os[n], ms, |ms| - 1)
            && EndsAt(arch, ms, Total(arch, os) - First(arch))
  {
    hide Total, Modules, RowAt, RowFor, RowIs, EndsAt;
    var n := |os| - 1;
    var before, total := Modules(arch, os[..n]), Total(arch, os[..n]);
    RowForIt(arch, os);
    RowPlaced(arch, os[n], before, total);
    RowAppended(arch, os[n], before, RowFor(arch, os[n], before, total), Total(arch, os) - First(arch));
  }

  lemma RowAppended(arch: Arch, o: Tls, before: seq<Module>, m: Module, memsz: int)
    requires m.id == |before| + 1 && m.template == o.template && m.memsz == o.memsz
    requires RowAt(arch, m, if o.align == 0 then 1 else o.align, before) && EndsAt(arch, before + [m], memsz)
    ensures var ms := before + [m]; ms[..|ms| - 1] == before && RowIs(arch, o, ms, |ms| - 1) && EndsAt(arch, ms, memsz)
  {
    hide RowAt;
    assert (before + [m])[..|before|] == before;
  }

  lemma RowPlaced(arch: Arch, o: Tls, before: seq<Module>, total: int)
    requires EndsAt(arch, before, total - First(arch))
    ensures var m := RowFor(arch, o, before, total);
            && m.id == |before| + 1 && m.template == o.template && m.memsz == o.memsz
            && RowAt(arch, m, if o.align == 0 then 1 else o.align, before)
            && EndsAt(arch, before + [m], (if arch == X86 then -m.tpoff else m.tpoff + m.memsz) - First(arch))
  {
    if arch == X86 { AlignedSum(0, AlignUp(total + o.memsz, Align(o)), Align(o)) by { assert 0 == Times(0, Align(o)); } }
    hide Aligned, AlignUp;
  }

  /** The strictest alignment that an object with thread-local storage asks for; aarch64 asks for 16. */
  ghost predicate Strictest(arch: Arch, os: seq<Tls>, align: nat) {
    var least := if arch == Arm then 16 else 1;
    && least <= align && (forall i :: 0 <= i < |os| && os[i].memsz != 0 ==> os[i].align <= align)
    && (align == least || exists i :: 0 <= i < |os| && os[i].memsz != 0 && os[i].align == align)
  }

  /** The exported alignment is that one. */
  lemma {:induction false} AlignIsLargest(arch: Arch, os: seq<Tls>)
    ensures Strictest(arch, os, MaxAlign(arch, os))
  {
    if os != [] {
      var n := |os| - 1;
      AlignIsLargest(arch, os[..n]);
      var a := MaxAlign(arch, os[..n]);
      if i :| 0 <= i < n && os[..n][i].memsz != 0 && os[..n][i].align == a { assert os[i].align == a; }
    }
  }

  // ------------------------------------------------------------ filling a thread's blocks

  /** Where the blocks' area starts for a thread pointer. */
  function Base(arch: Arch, tp: int, memsz: int): int { if arch == X86 then tp - memsz else tp + ABI_HEADER }

  /** The rows the runtime looks at. */
  function Known(ms: seq<Module>): seq<Module> { if |ms| < MAX_MODULES then ms else ms[..MAX_MODULES] }

  /** The runtime passes over rows without a number or without memory. */
  predicate Taken(m: Module) { m.id != 0 && m.memsz != 0 }

  /** The byte at address a of the area: from the last row whose template reaches it, else zero. */
  function Content(ms: seq<Module>, tp: int, a: int): Byte {
    if ms == [] then 0
    else
      var m := ms[|ms| - 1];
      if Taken(m) && tp + m.tpoff <= a < tp + m.tpoff + |m.template| then m.template[a - (tp + m.tpoff)]
      else Content(ms[..|ms| - 1], tp, a)
  }

  /** The same for a program without a table, which has at most the executable's own template. */
  function Filled(arch: Arch, ms: seq<Module>, exe: seq<Byte>, tp: int, memsz: nat, a: int): Byte {
    if ms != [] then Content(Known(ms), tp, a)
    else if Base(arch, tp, memsz) <= a < Base(arch, tp, memsz) + |exe| then exe[a - Base(arch, tp, memsz)]
    else 0
  }

  /** The templates of all rows lie in the area. */
  ghost predicate Inside(ms: seq<Module>, tp: int, base: int, memsz: int) {
    forall k :: 0 <= k < |ms| && Taken(ms[k]) ==> base <= tp + ms[k].tpoff && tp + ms[k].tpoff + |ms[k].template| <= base + memsz
  }

  /** Writes n bytes given by `source` at index `at`. */
  method CopyTo(mem: array<Byte>, at: nat, source: seq<Byte>)
    requires at + |source| <= mem.Length
    modifies mem
    ensures forall x :: 0 <= x < mem.Length ==> mem[x] == if at <= x < at + |source| then source[x - at] else old(mem[x])
  {
    var k := 0;
    while k < |source|
      invariant k <= |source|
      invariant forall x :: 0 <= x < mem.Length ==> mem[x] == if at <= x < at + k then source[x - at] else old(mem[x])
    {
      mem[at + k] := source[k];
      k := k + 1;
    }
  }

  method Zero(mem: array<Byte>, at: nat, n: nat)
    requires at + n <= mem.Length
    modifies mem
    ensures forall x :: 0 <= x < mem.Length ==> mem[x] == if at <= x < at + n then 0 else old(mem[x])
  {
    var k := 0;
    while k < n
      invariant k <= n
      invariant forall x :: 0 <= x < mem.Length ==> mem[x] == if at <= x < at + k then 0 else old(mem[x])
    {
      mem[at + k] := 0;
      k := k + 1;
    }
  }

  /** Fills the blocks of the thread whose pointer is tp; `mem` is the memory from `va` on.  Does nothing
      when there is no thread-local storage or more than the limit. */
  method Initialize(arch: Arch, mem: array<Byte>, va: int, tp: int, ms: seq<Module>, exe: seq<Byte>, memsz: nat)
    requires 0 < memsz <= MAX_TLS ==>
               && va <= Base(arch, tp, memsz) && Base(arch, tp, memsz) + memsz <= va + mem.Length
               && Inside(ms, tp, Base(arch, tp, memsz), memsz) && (ms == [] ==> |exe| <= memsz)
    modifies mem
    ensures !(0 < memsz <= MAX_TLS) ==> mem[..] == old(mem[..])
    ensures 0 < memsz <= MAX_TLS ==>
              forall x :: 0 <= x < mem.Length ==>
                mem[x] == if Base(arch, tp, memsz) <= va + x < Base(arch, tp, memsz) + memsz then Filled(arch, ms, exe, tp, memsz, va + x) else old(mem[x])
  {
    if memsz == 0 || memsz > MAX_TLS {
      return;
    }
    var base := Base(arch, tp, memsz);
    Zero(mem, base - va, memsz);
    var count := if |ms| < MAX_MODULES then |ms| else MAX_MODULES;
    if count == 0 {
      CopyTo(mem, base - va, exe);
      return;
    }
    var i := 0;
    while i < count
      invariant i <= count
      invariant forall x :: 0 <= x < mem.Length ==>
                  mem[x] == if base <= va + x < base + memsz then Content(ms[..i], tp, va + x) else old(mem[x])
    {
      var m := ms[i];
      if m.id != 0 && m.memsz != 0 {
        CopyTo(mem, tp + m.tpoff - va, m.template);
      }
      assert ms[..i + 1][..i] == ms[..i];
      i := i + 1;
    }
    assert ms[..i] == Known(ms);
  }

  // ------------------------------------------------------------ finding a variable

  /** The address of the variable at an offset in a module's block. */
  function VariableAt(arch: Arch, ms: seq<Module>, memsz: int, tp: int, id: nat, offset: int): int {
    if 0 < id <= |Known(ms)| then Wrap(tp + ms[id - 1].tpoff + offset)
    else Wrap(Base(arch, tp, memsz) + offset)
  }

  ghost predicate Numbered(ms: seq<Module>) { forall k :: 0 <= k < |ms| ==> ms[k].id == k + 1 }

  method FindVariable(arch: Arch, ms: seq<Module>, memsz: int, tp: int, id: nat, offset: int) returns (a: int)
    requires Numbered(ms)
    ensures a == VariableAt(arch, ms, memsz, tp, id, offset)
  {
    var count := if |ms| < MAX_MODULES then |ms| else MAX_MODULES;
    if id != 0 && count != 0 {
      var i := 0;
      while i < count
        invariant i <= count && i < id
      {
        if ms[i].id == id {
          return Wrap(tp + ms[i].tpoff + offset);
        }
        i := i + 1;
      }
    }
    a := Wrap(Base(arch, tp, memsz) + offset);
  }

  lemma {:induction false} ModulesNumbered(arch: Arch, os: seq<Tls>)
    ensures Numbered(Modules(arch, os))
  {
    if os != [] { ModulesNumbered(arch, os[..|os| - 1]); }
  }

  // ------------------------------------------------------------ the theorems

  /** The area of all blocks holds the templates of all objects. */
  lemma ModulesInside(arch: Arch, os: seq<Tls>, tp: int)
    requires WellFormed(os)
    ensures var memsz := Total(arch, os) - First(arch); Inside(Modules(arch, os), tp, Base(arch, tp, memsz), memsz)
  {
    hide Total, Modules, Offset, Count;
    var ms := Modules(arch, os);
    forall k | 0 <= k < |ms|
      ensures Base(arch, tp, Total(arch, os) - First(arch)) <= tp + ms[k].tpoff
              && tp + ms[k].tpoff + |ms[k].template| <= Base(arch, tp, Total(arch, os) - First(arch)) + (Total(arch, os) - First(arch))
    {
      var i := ObjectOf(arch, os, k);
      ModuleAt(arch, os, i);
      BlockInArea(arch, os, i);
    }
  }

  /** The rows that precede object i's row, and those that follow it, do not reach into its block. */
  lemma {:induction false} ContentElsewhere(ms: seq<Module>, tp: int, a: int)
    requires forall k :: 0 <= k < |ms| ==> !(tp + ms[k].tpoff <= a < tp + ms[k].tpoff + |ms[k].template|)
    ensures Content(ms, tp, a) == 0
  {
    if ms != [] { ContentElsewhere(ms[..|ms| - 1], tp, a); }
  }

  lemma {:induction false} ContentOf(ms: seq<Module>, tp: int, a: int, k: nat)
    requires k < |ms| && Taken(ms[k]) && tp + ms[k].tpoff <= a < tp + ms[k].tpoff + |ms[k].template|
    requires forall l :: 0 <= l < |ms| && l != k ==> !(tp + ms[l].tpoff <= a < tp + ms[l].tpoff + |ms[l].template|)
    ensures Content(ms, tp, a) == ms[k].template[a - (tp + ms[k].tpoff)]
  {
    var n := |ms| - 1;
    if k < n { ContentOf(ms[..n], tp, a, k); }
  }

  /** No other row's template reaches an address of object i's block. */
  lemma OwnAddress(arch: Arch, os: seq<Tls>, i: nat, tp: int, a: int, l: nat)
    requires WellFormed(os) && i < |os| && os[i].memsz != 0
    requires tp + Offset(arch, os, i) <= a < tp + Offset(arch, os, i) + os[i].memsz
    requires l < Count(os) && l + 1 != Count(os[..i + 1])
    ensures var m := Modules(arch, os)[l]; !(tp + m.tpoff <= a < tp + m.tpoff + |m.template|)
  {
    hide Total, Modules, Offset, Count;
    var j := ObjectOf(arch, os, l);
    ModuleAt(arch, os, j);
    if i < j { BlocksApart(arch, os, i, j); } else if j < i { BlocksApart(arch, os, j, i); }
  }

  /** After initialization, object i's block holds its template followed by zeros exactly if the object
      is among the first eight with thread-local storage; the block of a later one is all zeros. */
  lemma BlockContents(arch: Arch, os: seq<Tls>, i: nat, tp: int, k: nat)
    requires WellFormed(os) && i < |os| && k < os[i].memsz
    ensures var known := Count(os[..i + 1]) <= 8;
            Content(Known(Modules(arch, os)), tp, tp + Offset(arch, os, i) + k)
            == if known && k < |os[i].template| then os[i].template[k] else 0
  {
    hide Total, Modules, Offset, Count, Content;
    var ms := Modules(arch, os);
    var a, row := tp + Offset(arch, os, i) + k, Count(os[..i + 1]) - 1;
    ModuleAt(arch, os, i);
    forall l | 0 <= l < |Known(ms)| && l != row
      ensures !(tp + Known(ms)[l].tpoff <= a < tp + Known(ms)[l].tpoff + |Known(ms)[l].template|)
    {
      OwnAddress(arch, os, i, tp, a, l);
    }
    if row < MAX_MODULES && k < |os[i].template| {
      ContentOf(Known(ms), tp, a, row);
    } else {
      ContentElsewhere(Known(ms), tp, a);
    }
  }

  /** Without a table the area holds the executable's template, from below the thread pointer on x86_64 and from behind
      its header on aarch64, and zeros after it. */
  lemma WithoutTable(arch: Arch, exe: seq<Byte>, tp: int, memsz: nat, k: nat)
    requires |exe| <= memsz && k < memsz
    ensures Filled(arch, [], exe, tp, memsz, (if arch == X86 then tp - memsz else tp + 16) + k) == if k < |exe| then exe[k] else 0
  {}

  /** Later objects with thread-local storage come after object i in the link order. */
  predicate IsLast(os: seq<Tls>, i: nat) { forall j :: i < j < |os| ==> os[j].memsz == 0 }

  /** The two ways of addressing a variable agree exactly if its object is among the first eight with
      thread-local storage or, on x86_64, is the last one. */
  lemma AddressesAgree(arch: Arch, os: seq<Tls>, i: nat, tp: int, symbol: int)
    requires i < |os| && os[i].memsz != 0 && Total(arch, os) < TWO64
    ensures var tpoff := Offset(arch, os, i) + symbol;
            var id := Count(os[..i + 1]);
            var memsz := Total(arch, os) - First(arch);
            Wrap(tp + tpoff) == VariableAt(arch, Modules(arch, os), memsz, tp, id, Wrap(symbol))
            <==> id <= 8 || (arch == X86 && IsLast(os, i))
  {
    hide Total, Offset, Modules, Count, IsLast, Wrap;
    var id := Count(os[..i + 1]);
    var memsz := Total(arch, os) - First(arch);
    ModuleAt(arch, os, i);
    WrapSum(tp + Offset(arch, os, i), symbol);
    WrapSum(Base(arch, tp, memsz), symbol);
    if id > MAX_MODULES {
      FarApart(arch, os, i);
      WrapSame(tp + Offset(arch, os, i) + symbol, Base(arch, tp, memsz) + symbol);
    }
  }

  /** Lays the objects out and addresses a variable of object i both ways: by the offset from the thread
      pointer that the linker stores, and by the module number that the runtime looks up. */
  method AddressBothWays(arch: Arch, os: seq<Tls>, i: nat, tp: int, symbol: int) returns (byOffset: int, byModule: int)
    requires i < |os| && os[i].memsz != 0 && Total(arch, os) < TWO64
    ensures byOffset == Wrap(tp + Offset(arch, os, i) + symbol)
    ensures byOffset == byModule <==> Count(os[..i + 1]) <= 8 || (arch == X86 && IsLast(os, i))
  {
    hide Total, Offset, Modules, Count, IsLast, Wrap, VariableAt, MaxAlign, RowsAre, Strictest, EndsAt;
    var ms, memsz, _ := Finalize(arch, os);
    ModuleAt(arch, os, i);
    ModulesNumbered(arch, os);
    var row := ms[Count(os[..i + 1]) - 1];
    byOffset := Wrap(tp + row.tpoff + symbol);
    byModule := FindVariable(arch, ms, memsz, tp, row.id, Wrap(symbol));
    AddressesAgree(arch, os, i, tp, symbol);
    assert tp + (Offset(arch, os, i) + symbol) == tp + row.tpoff + symbol;
  }

  lemma {:induction false} TotalOfLast(arch: Arch, os: seq<Tls>, i: nat, j: nat)
    requires i < j <= |os| && IsLast(os, i)
    ensures Total(arch, os[..j]) == Total(arch, os[..i + 1])
    decreases j
  {
    if i + 1 < j {
      TotalOfLast(arch, os, i, j - 1);
      assert os[..j][..j - 1] == os[..j - 1];
    }
  }

  /** The room grows past object i exactly if it is not the last. */
  lemma TotalAfter(arch: Arch, os: seq<Tls>, i: nat)
    requires i < |os|
    ensures Total(arch, os[..i + 1]) <= Total(arch, os) && (Total(arch, os[..i + 1]) == Total(arch, os) <==> IsLast(os, i))
  {
    hide Total;
    assert os[..|os|] == os;
    TotalGrows(arch, os, i + 1, |os|);
    if IsLast(os, i) {
      TotalOfLast(arch, os, i, |os|);
    } else {
      var j :| i < j < |os| && os[j].memsz != 0;
      TotalGrows(arch, os, i + 1, j);
      TotalStep(arch, os, j);
      TotalGrows(arch, os, j + 1, |os|);
    }
  }

  lemma TotalBefore(arch: Arch, os: seq<Tls>, i: nat)
    requires i < |os| && 0 < Count(os[..i])
    ensures First(arch) < Total(arch, os[..i])
  {
    hide Total;
    var j := ObjectOf(arch, os[..i], 0);
    assert os[..i][..j + 1] == os[..j + 1] && os[..i][j] == os[j];
    TotalStep(arch, os, j);
    TotalGrows(arch, os, j + 1, i);
  }

  /** How far object i's block is from the start of the area. */
  lemma FarApart(arch: Arch, os: seq<Tls>, i: nat)
    requires i < |os| && os[i].memsz != 0 && 1 < Count(os[..i + 1])
    ensures var d := Offset(arch, os, i) - (if arch == X86 then -Total(arch, os) else ABI_HEADER);
            0 <= d <= Total(arch, os) && (d == 0 <==> arch == X86 && IsLast(os, i))
  {
    TotalStep(arch, os, i);
    hide Total, IsLast;
    TotalAfter(arch, os, i);
    TotalBefore(arch, os, i);
  }

  // ------------------------------------------------------------ where a thread's blocks are

  /** The size and alignment of the runtime's own thread block. */
  datatype Runtime = Runtime(size: nat, align: nat)

  /** The alignment the thread pointer gets. */
  function PointerAlign(arch: Arch, align: nat, rt: Runtime): (a: nat)
    ensures 16 <= a && align <= a && (arch == X86 ==> rt.align <= a)
    ensures a == 16 || a == align || (arch == X86 && a == rt.align)
  {
    if arch == X86 then Max(Max(align, 16), rt.align) else Max(align, 16)
  }

  /** How large a worker's region must be. */
  function RegionSize(arch: Arch, memsz: nat, align: nat, rt: Runtime): int {
    if arch == X86 then AlignUp(memsz + rt.size + (PointerAlign(arch, align, rt) - 1), PAGE)
    else AlignUp(ABI_HEADER + memsz + (rt.align - 1) + rt.size + PointerAlign(arch, align, rt), PAGE)
  }

  /** Where a worker's thread pointer goes in its region. */
  function PointerIn(arch: Arch, va: int, size: int, align: nat, rt: Runtime): int {
    AlignDown(if arch == X86 then va + size - rt.size else va, PointerAlign(arch, align, rt))
  }

  /** Where the runtime's thread block goes. */
  function BlockIn(arch: Arch, tp: int, memsz: nat, rt: Runtime): int
    requires 0 < rt.align
  {
    if arch == X86 then tp else AlignUp(tp + ABI_HEADER + memsz, rt.align)
  }

  /** Everything fits: the blocks' area, the aarch64 header and the runtime's block lie in the region,
      apart from each other, and the pointer is aligned for every module. */
  lemma RegionFits(arch: Arch, va: int, memsz: nat, align: nat, rt: Runtime)
    requires 0 < rt.align && IsPow2(align) && IsPow2(rt.align) && Aligned(va, PAGE) && align <= PAGE
    ensures var size := RegionSize(arch, memsz, align, rt);
            var tp := PointerIn(arch, va, size, align, rt);
            var area, block := Base(arch, tp, memsz), BlockIn(arch, tp, memsz, rt);
            && va <= area && area + memsz <= va + size && va <= block && block + rt.size <= va + size
            && area + memsz <= block && (arch == Arm ==> va <= tp && tp + ABI_HEADER <= area)
            && Aligned(tp, align) && Aligned(block, rt.align)
  {
    var tp := PointerIn(arch, va, RegionSize(arch, memsz, align, rt), align, rt);
    PointerAligned(arch, va, RegionSize(arch, memsz, align, rt), align, rt);
    hide AlignDown, AlignUp, Aligned, IsPow2, RegionSize, PointerIn;
    RegionRoom(arch, va, memsz, align, rt);
  }

  /** Nothing is wasted: the region is less than a page larger than its parts can need, and each part lies as near to
      the next as its alignment allows. */
  lemma RegionTight(arch: Arch, va: int, memsz: nat, align: nat, rt: Runtime)
    requires 0 < rt.align && IsPow2(align) && IsPow2(rt.align) && Aligned(va, PAGE) && align <= PAGE
    ensures var size, a := RegionSize(arch, memsz, align, rt), PointerAlign(arch, align, rt);
            var tp := PointerIn(arch, va, size, align, rt);
            && Aligned(size, PAGE)
            && (if arch == X86 then size - PAGE < memsz + rt.size + (a - 1) else size - PAGE < 16 + memsz + (rt.align - 1) + rt.size + a)
            && (if arch == X86 then LastMultiple(tp, a, va + size - rt.size) else tp == va)
            && (if arch == X86 then BlockIn(arch, tp, memsz, rt) == tp else NextMultiple(BlockIn(arch, tp, memsz, rt), rt.align, tp + 16 + memsz))
  {
    PointerAligned(arch, va, RegionSize(arch, memsz, align, rt), align, rt);
    hide Aligned, IsPow2;
  }

  lemma Pow2Constants()
    ensures IsPow2(16) && IsPow2(64) && IsPow2(128) && IsPow2(PAGE)
  {
    assert IsPow2(4);
    assert IsPow2(16);
    assert IsPow2(64);
    assert IsPow2(128);
    assert IsPow2(1024);
  }

  lemma PointerAligned(arch: Arch, va: int, size: int, align: nat, rt: Runtime)
    requires IsPow2(align) && IsPow2(rt.align) && Aligned(va, PAGE) && align <= PAGE
    ensures Aligned(PointerIn(arch, va, size, align, rt), align)
    ensures arch == X86 ==> Aligned(PointerIn(arch, va, size, align, rt), rt.align)
    ensures arch == Arm ==> PointerIn(arch, va, size, align, rt) == va
  {
    Pow2Constants();
    hide AlignDown, Aligned, IsPow2;
    var a := PointerAlign(arch, align, rt);
    var tp := PointerIn(arch, va, size, align, rt);
    assert IsPow2(a);
    Pow2Divides(align, a);
    AlignedTrans(tp, a, align);
    if arch == X86 {
      Pow2Divides(rt.align, a);
      AlignedTrans(tp, a, rt.align);
    } else {
      Pow2Divides(a, PAGE);
      AlignedTrans(va, PAGE, a);
      AlignedDown(va, a);
    }
  }

  lemma RegionRoom(arch: Arch, va: int, memsz: nat, align: nat, rt: Runtime)
    requires 0 < rt.align && (arch == Arm ==> PointerIn(arch, va, RegionSize(arch, memsz, align, rt), align, rt) == va)
    ensures var size := RegionSize(arch, memsz, align, rt);
            var tp := PointerIn(arch, va, size, align, rt);
            var area, block := Base(arch, tp, memsz), BlockIn(arch, tp, memsz, rt);
            && va <= area && area + memsz <= va + size && va <= block && block + rt.size <= va + size && area + memsz <= block
            && (arch == Arm ==> va <= tp && tp + ABI_HEADER <= area)
  {
    hide AlignDown, AlignUp, Aligned;
  }

  lemma AlignedDown(v: int, a: nat)
    requires 0 < a && Aligned(v, a)
    ensures AlignDown(v, a) == v
  {
    var k, l :| v == Times(k, a) && AlignDown(v, a) == Times(l, a);
    assert v - AlignDown(v, a) == Times(k - l, a);
    Small(k - l, a);
  }

  lemma Small(d: int, a: nat)
    requires 0 < a
    ensures 0 <= Times(d, a) < a ==> d == 0
  {
    if d < 0 { assert d * a <= 0 - a; } else if d > 0 { assert d * a >= a; }
  }

  /** Sets up a worker's region: the thread block lies in it, aligned and above the area of the objects'
      blocks; each object's block, at the offset that the linker gave out, lies in the region, is aligned,
      and holds the object's template and zeros. */
  method SetUpWorker(arch: Arch, os: seq<Tls>, rt: Runtime, mem: array<Byte>, va: int) returns (tp: int, block: int)
    requires WellFormed(os) && IsPow2(rt.align) && Aligned(va, PAGE) && MaxAlign(arch, os) <= PAGE
    requires Total(arch, os) - First(arch) <= MAX_TLS
    requires mem.Length == RegionSize(arch, Total(arch, os) - First(arch), MaxAlign(arch, os), rt)
    modifies mem
    ensures var memsz := Total(arch, os) - First(arch);
            && tp == PointerIn(arch, va, mem.Length, MaxAlign(arch, os), rt) && block == BlockIn(arch, tp, memsz, rt)
            && Aligned(tp, MaxAlign(arch, os)) && Aligned(block, rt.align) && va <= block && block + rt.size <= va + mem.Length
            && va <= Base(arch, tp, memsz) && Base(arch, tp, memsz) + memsz <= block
    ensures forall i :: 0 <= i < |os| && os[i].memsz != 0 ==> BlockReady(arch, os, i, tp, mem[..], va, block, rt)
  {
    hide Content, Modules, Count, Total, Offset, RegionSize, PointerIn, BlockIn, MaxAlign, RowsAre, Strictest, EndsAt;
    var ms, memsz, align := Finalize(arch, os);
    MaxAlignIs(arch, os, |os|);
    RegionFits(arch, va, memsz, align, rt);
    ModulesInside(arch, os, PointerIn(arch, va, mem.Length, align, rt));
    Zero(mem, 0, mem.Length);
    tp := PointerIn(arch, va, mem.Length, align, rt);
    block := BlockIn(arch, tp, memsz, rt);
    Initialize(arch, mem, va, tp, ms, [], memsz);
    forall i | 0 <= i < |os| && os[i].memsz != 0 ensures BlockReady(arch, os, i, tp, mem[..], va, block, rt) {
      ModuleAt(arch, os, i);
      BlockInArea(arch, os, i);
      BlockAligned(arch, os, i, tp);
      forall k | 0 <= k < os[i].memsz
        ensures mem[..][tp + Offset(arch, os, i) + k - va] == BlockByte(os, i, k)
      {
        BlockContents(arch, os, i, tp, k);
      }
    }
  }

  /** Byte k of object i's block: its template, if the runtime knows the object, and zeros. */
  function BlockByte(os: seq<Tls>, i: nat, k: nat): Byte
    requires i < |os|
  {
    if Count(os[..i + 1]) <= MAX_MODULES && k < |os[i].template| then os[i].template[k] else 0
  }

  ghost predicate BlockReady(arch: Arch, os: seq<Tls>, i: nat, tp: int, mem: seq<Byte>, va: int, block: int, rt: Runtime)
    requires i < |os|
  {
    var start := tp + Offset(arch, os, i);
    && va <= start && start + os[i].memsz <= va + |mem| && Aligned(start, Align(os[i]))
    && (start + os[i].memsz <= block || block + rt.size <= start)
    && forall k :: 0 <= k < os[i].memsz ==> mem[start + k - va] == BlockByte(os, i, k)
  }

  /** The main thread's blocks are in a static record that is aligned to 64: whatever its address, its
      thread pointer is aligned for the modules exactly if none asks for more than 64. */
  lemma MainThreadAligned(arch: Arch, align: nat)
    requires IsPow2(align)
    ensures (forall at :: Aligned(at, 64) ==> Aligned(MainPointer(arch, at), align)) <==> align <= 64
  {
    Pow2Constants();
    if align <= 64 {
      Pow2Divides(align, 64);
      hide IsPow2;
      forall at | Aligned(at, 64) ensures Aligned(MainPointer(arch, at), align) {
        assert 4096 == Times(64, 64);
        AlignedSum(at, 4096, 64);
        AlignedTrans(MainPointer(arch, at), 64, align);
      }
    } else {
      Pow2Gap(64, align);
      Pow2Divides(128, align);
      hide IsPow2;
      NotAligned(arch);
      if Aligned(MainPointer(arch, 64), align) { AlignedTrans(MainPointer(arch, 64), align, 128); }
    }
  }

  lemma NotAligned(arch: Arch)
    ensures Aligned(64, 64) && !Aligned(MainPointer(arch, 64), 128)
  {
    assert 64 == Times(1, 64);
  }

  function MainPointer(arch: Arch, at: int): int { if arch == X86 then at + MAX_TLS else at }

  lemma {:induction false} Pow2Gap(a: nat, b: nat)
    requires IsPow2(a) && IsPow2(b) && a < b
    ensures 2 * a <= b
  {
    if a != 1 { Pow2Gap(a / 2, b / 2); }
  }
}

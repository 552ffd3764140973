/** One segment of capability slots: a bitmap of 64-bit words with a usage count and a search hint.
    Every operation is specified against the plain set of used indices. */
module Segment {
  import opened Common
  import Sets
  import opened Word

  const MAX_SLOTS: nat := 4096
  const WORDS: nat := 64

  datatype Segment = Segment(base: nat, count: nat, hint: nat, used: nat, bits: seq<bv64>)

  // ------------------------------------------------------------ the set of used indices

  predicate IsUsed(bits: seq<bv64>, idx: nat)
    requires |bits| == WORDS && idx < MAX_SLOTS
  {
    Has(bits[idx / 64], idx % 64)
  }

  ghost function Range(lo: nat, hi: nat): (r: set<nat>)
    ensures forall i :: i in r <==> lo <= i < hi
    decreases hi
  {
    if lo < hi then Range(lo, hi - 1) + {hi - 1} else {}
  }

  ghost function Used(seg: Segment): set<nat>
    requires |seg.bits| == WORDS && seg.count <= MAX_SLOTS
  {
    set i: nat | i < seg.count && IsUsed(seg.bits, i)
  }

  ghost predicate Ok(seg: Segment) {
    && |seg.bits| == WORDS && seg.count <= MAX_SLOTS && seg.hint <= seg.count
    && seg.used == |Used(seg)|
  }

  lemma OkShape(seg: Segment)
    requires Ok(seg)
    ensures |seg.bits| == WORDS && seg.count <= MAX_SLOTS && seg.hint <= seg.count
  {}

  lemma {:induction false} RangeSize(lo: nat, hi: nat)
    requires lo <= hi
    ensures |Range(lo, hi)| == hi - lo
    decreases hi
  {
    if lo < hi { RangeSize(lo, hi - 1); }
  }

  lemma RangeSnoc(lo: nat, hi: nat)
    requires lo <= hi
    ensures Range(lo, hi + 1) == Range(lo, hi) + {hi} && hi !in Range(lo, hi)
  {}

  lemma UsedBound(seg: Segment)
    requires Ok(seg)
    ensures seg.used <= seg.count && (seg.used == seg.count <==> Used(seg) == Range(0, seg.count))
  {
    RangeSize(0, seg.count);
    Sets.SubsetSize(Used(seg), Range(0, seg.count));
  }

  function Fresh(base: nat, count: nat): (seg: Segment)
    requires count <= MAX_SLOTS
    ensures Ok(seg) && Used(seg) == {}
  {
    var seg := Segment(base, count, 0, 0, seq(WORDS, _ => 0));
    assert Used(seg) == {};
    seg
  }

  // ------------------------------------------------------------ marking

  function MarkUsed(seg: Segment, idx: nat): (r: Segment)
    requires Ok(seg) && idx < seg.count && idx !in Used(seg)
    ensures Ok(r) && Used(r) == Used(seg) + {idx}
    ensures r.base == seg.base && r.count == seg.count && r.hint == seg.hint
  {
    var r := seg.(bits := seg.bits[idx / 64 := SetMask(seg.bits[idx / 64], Bit(idx % 64))], used := seg.used + 1);
    assert Used(r) == Used(seg) + {idx} by { MarkUsedBits(seg, idx, r); }
    r
  }

  lemma MarkUsedBits(seg: Segment, idx: nat, r: Segment)
    requires |seg.bits| == WORDS && idx < seg.count <= MAX_SLOTS
    requires r == seg.(bits := seg.bits[idx / 64 := SetMask(seg.bits[idx / 64], Bit(idx % 64))], used := r.used)
    ensures Used(r) == Used(seg) + {idx}
  {
    hide Has, Bit;
    forall i: nat | i < seg.count
      ensures IsUsed(r.bits, i) <==> i == idx || IsUsed(seg.bits, i)
    {
      SetBit(seg.bits[idx / 64], idx % 64, i % 64);
    }
  }

  function MarkFree(seg: Segment, idx: nat): (r: Segment)
    requires Ok(seg) && idx < seg.count && IsUsed(seg.bits, idx)
    ensures Ok(r) && Used(r) == Used(seg) - {idx}
    ensures r.base == seg.base && r.count == seg.count && r.hint == seg.hint
  {
    var r := seg.(bits := seg.bits[idx / 64 := ClearMask(seg.bits[idx / 64], Bit(idx % 64))], used := if seg.used == 0 then 0 else seg.used - 1);
    assert Ok(r) && Used(r) == Used(seg) - {idx} by { MarkFreeOk(seg, idx, r); }
    r
  }

  lemma MarkFreeOk(seg: Segment, idx: nat, r: Segment)
    requires Ok(seg) && idx < seg.count && IsUsed(seg.bits, idx)
    requires r == seg.(bits := seg.bits[idx / 64 := ClearMask(seg.bits[idx / 64], Bit(idx % 64))], used := if seg.used == 0 then 0 else seg.used - 1)
    ensures Ok(r) && Used(r) == Used(seg) - {idx}
  {
    hide Has, Bit;
    assert idx in Used(seg);
    MarkFreeBits(seg, idx, r);
  }

  lemma MarkFreeBits(seg: Segment, idx: nat, r: Segment)
    requires |seg.bits| == WORDS && idx < seg.count <= MAX_SLOTS
    requires r == seg.(bits := seg.bits[idx / 64 := ClearMask(seg.bits[idx / 64], Bit(idx % 64))], used := r.used)
    ensures Used(r) == Used(seg) - {idx}
  {
    hide Has, Bit;
    forall i: nat | i < seg.count
      ensures IsUsed(r.bits, i) <==> i != idx && IsUsed(seg.bits, i)
    {
      ClearBit(seg.bits[idx / 64], idx % 64, i % 64);
    }
  }

  // ------------------------------------------------------------ allocation

  /** Every index of [lo, hi) is taken. */
  ghost predicate AllUsed(seg: Segment, lo: nat, hi: nat)
    requires |seg.bits| == WORDS && seg.count <= MAX_SLOTS
  {
    forall i :: lo <= i < hi ==> i in Used(seg)
  }

  /** The first free index of [lo, hi). */
  method FindFree(seg: Segment, lo: nat, hi: nat) returns (found: Option<nat>)
    requires |seg.bits| == WORDS && lo <= hi <= seg.count <= MAX_SLOTS
    ensures found.None? ==> AllUsed(seg, lo, hi)
    ensures found.Some? ==> lo <= found.value < hi && found.value !in Used(seg) && AllUsed(seg, lo, found.value)
  {
    hide IsUsed;
    var idx := lo;
    while idx < hi
      invariant lo <= idx <= hi
      invariant AllUsed(seg, lo, idx)
    {
      if !IsUsed(seg.bits, idx) {
        return Some(idx);
      }
      idx := idx + 1;
    }
    return None;
  }

  /** `i` is the index a search from the hint finds: the first free one at or after the hint, or, if
      there is none, the first free one of the segment. */
  ghost predicate FoundFrom(seg: Segment, i: nat)
    requires |seg.bits| == WORDS && seg.count <= MAX_SLOTS
  {
    && i < seg.count && i !in Used(seg)
    && if seg.hint <= i then AllUsed(seg, seg.hint, i)
       else AllUsed(seg, seg.hint, seg.count) && AllUsed(seg, 0, i)
  }

  /** Allocates one slot, searching from the hint and wrapping around.  Fails exactly when every slot
      of the segment is taken. */
  method AllocSingle(seg: Segment) returns (r: Segment, slot: Option<nat>)
    requires Ok(seg)
    ensures Ok(r) && r.base == seg.base && r.count == seg.count
    ensures slot.None? <==> AllUsed(seg, 0, seg.count)
    ensures slot.None? ==> r == seg
    ensures slot.Some? ==> seg.base <= slot.value && FoundFrom(seg, slot.value - seg.base)
    ensures slot.Some? ==> Used(r) == Used(seg) + {slot.value - seg.base} && r.hint == slot.value - seg.base + 1
  {
    hide Used, Range;
    UsedBound(seg);
    if seg.used >= seg.count {
      return seg, None;
    }
    var start := if seg.hint < seg.count then seg.hint else seg.count;
    var found := FindFree(seg, start, seg.count);
    if found.None? {
      found := FindFree(seg, 0, start);
    }
    if found.None? {
      return seg, None;
    }
    r := Take(seg, found.value);
    slot := Some(seg.base + found.value);
  }

  /** Marks a free index and moves the hint past it. */
  function Take(seg: Segment, idx: nat): (r: Segment)
    requires Ok(seg) && idx < seg.count && idx !in Used(seg)
    ensures Ok(r) && Used(r) == Used(seg) + {idx}
    ensures r.base == seg.base && r.count == seg.count && r.hint == idx + 1
  {
    WithHint(MarkUsed(seg, idx), idx + 1)
  }

  /** The n indices from `start` on are free. */
  ghost predicate FreeRun(seg: Segment, start: nat, n: nat)
    requires |seg.bits| == WORDS && seg.count <= MAX_SLOTS
  {
    start + n <= seg.count && forall i :: start <= i < start + n ==> i !in Used(seg)
  }

  /** No free run of n starts before `end`. */
  ghost predicate NoRunBefore(seg: Segment, end: nat, n: nat)
    requires |seg.bits| == WORDS && seg.count <= MAX_SLOTS
  {
    forall k: nat :: k < end ==> !FreeRun(seg, k, n)
  }

  /** The segment has no free run of n at all. */
  ghost predicate NoRun(seg: Segment, n: nat)
    requires |seg.bits| == WORDS && seg.count <= MAX_SLOTS
  {
    forall k: nat :: !FreeRun(seg, k, n)
  }

  lemma TooFewFree(seg: Segment, n: nat)
    requires Ok(seg) && n > seg.count - seg.used
    ensures NoRun(seg, n)
  {
    hide Used;
    forall k: nat ensures !FreeRun(seg, k, n) { RunNeedsRoom(seg, k, n); }
  }

  lemma RunNeedsRoom(seg: Segment, start: nat, n: nat)
    requires Ok(seg)
    ensures FreeRun(seg, start, n) ==> n <= seg.count - seg.used
  {
    hide IsUsed, Range;
    if FreeRun(seg, start, n) {
      RangeSize(start, start + n);
      RangeSize(0, seg.count);
      Sets.DisjointRoom(Range(start, start + n), Used(seg), Range(0, seg.count));
    }
  }

  /** The first free run of n indices: one pass that counts the free indices seen in a row. */
  method FindRun(seg: Segment, n: nat) returns (found: Option<nat>)
    requires |seg.bits| == WORDS && seg.count <= MAX_SLOTS && 0 < n
    ensures found.None? ==> NoRun(seg, n)
    ensures found.Some? ==> FreeRun(seg, found.value, n) && NoRunBefore(seg, found.value, n)
  {
    hide IsUsed;
    var runStart, runLen, idx := 0, 0, 0;
    while idx < seg.count
      invariant runLen <= idx <= seg.count && runLen < n
      invariant 0 < runLen ==> runStart == idx - runLen
      invariant FreeRun(seg, idx - runLen, runLen)
      invariant runLen < idx ==> idx - runLen - 1 in Used(seg)
      invariant forall k: nat :: k + n <= idx ==> !FreeRun(seg, k, n)
    {
      if !IsUsed(seg.bits, idx) {
        if runLen == 0 {
          runStart := idx;
        }
        runLen := runLen + 1;
        assert FreeRun(seg, runStart, runLen);
        if runLen == n {
          return Some(runStart);
        }
        NoRunAcross(seg, n, idx + 1, idx - runLen, runLen < idx + 1);
      } else {
        runLen := 0;
        NoRunAcross(seg, n, idx + 1, idx, true);
      }
      idx := idx + 1;
    }
    return None;
  }

  /** A taken index among the last n before `end` rules out a free run that ends there. */
  lemma NoRunAcross(seg: Segment, n: nat, end: nat, taken: int, there: bool)
    requires |seg.bits| == WORDS && seg.count <= MAX_SLOTS && 0 < n
    requires there ==> end - n <= taken < end && 0 <= taken && taken in Used(seg)
    requires !there ==> end < n
    ensures forall k: nat :: k + n == end ==> !FreeRun(seg, k, n)
  {}

  /** Marks the n indices from `start` on, one after the other. */
  method MarkRun(seg: Segment, start: nat, n: nat) returns (r: Segment)
    requires Ok(seg) && FreeRun(seg, start, n)
    ensures Ok(r) && Used(r) == Used(seg) + Range(start, start + n)
    ensures r.base == seg.base && r.count == seg.count && r.hint == seg.hint
  {
    hide Used, Range, Ok;
    r := seg;
    var mark := start;
    assert Range(start, start) == {};
    OkShape(seg);
    while mark < start + n
      invariant start <= mark <= start + n
      invariant Ok(r) && |r.bits| == WORDS && r.count <= MAX_SLOTS && Used(r) == Used(seg) + Range(start, mark)
      invariant r.base == seg.base && r.count == seg.count && r.hint == seg.hint
    {
      RangeSnoc(start, mark);
      assert mark !in Used(seg);
      r := MarkUsed(r, mark);
      OkShape(r);
      mark := mark + 1;
    }
  }

  /** The outcome of a search for n slots in a row: which run was taken, and what that leaves. */
  ghost predicate TookRun(seg: Segment, r: Segment, i: nat, n: nat)
    requires Ok(seg) && Ok(r)
  {
    && FreeRun(seg, i, n)
    && (if n == 1 then FoundFrom(seg, i) else NoRunBefore(seg, i, n))
    && Used(r) == Used(seg) + Range(i, i + n)
    && r.hint == i + n
  }

  /** Allocates n slots in a row.  Fails exactly when n is 0 or the segment has no free run of n. */
  method AllocContiguous(seg: Segment, n: nat) returns (r: Segment, slot: Option<nat>)
    requires Ok(seg)
    ensures Ok(r) && r.base == seg.base && r.count == seg.count
    ensures slot.None? <==> n == 0 || NoRun(seg, n)
    ensures slot.None? ==> r == seg
    ensures slot.Some? ==> seg.base <= slot.value && TookRun(seg, r, slot.value - seg.base, n)
  {
    hide Used, TookRun, Range, FreeRun, NoRun, AllUsed, FoundFrom;
    UsedBound(seg);
    if n == 0 || n > seg.count - seg.used {
      if n != 0 { TooFewFree(seg, n); }
      return seg, None;
    }
    if n == 1 {
      SingleIsRun(seg);
      r, slot := AllocSingle(seg);
      if slot.Some? { OneIsRun(seg, r, slot.value - seg.base); }
    } else {
      r, slot := AllocRun(seg, n);
    }
  }

  lemma OneIsRun(seg: Segment, r: Segment, i: nat)
    requires Ok(seg) && Ok(r) && FoundFrom(seg, i) && Used(r) == Used(seg) + {i} && r.hint == i + 1
    ensures TookRun(seg, r, i, 1) && !NoRun(seg, 1)
  {
    hide Used;
    assert Range(i, i + 1) == {i};
    assert FreeRun(seg, i, 1);
  }

  lemma RunEnds(seg: Segment, start: nat, n: nat)
    requires |seg.bits| == WORDS && seg.count <= MAX_SLOTS && FreeRun(seg, start, n)
    ensures start + n <= seg.count
  {}

  method AllocRun(seg: Segment, n: nat) returns (r: Segment, slot: Option<nat>)
    requires Ok(seg) && 1 < n
    ensures Ok(r) && r.base == seg.base && r.count == seg.count
    ensures slot.None? <==> NoRun(seg, n)
    ensures slot.None? ==> r == seg
    ensures slot.Some? ==> seg.base <= slot.value && TookRun(seg, r, slot.value - seg.base, n)
  {
    hide Used, Range;
    var found := FindRun(seg, n);
    if found.None? {
      return seg, None;
    }
    assert FreeRun(seg, found.value, n) && !NoRun(seg, n);
    hide FreeRun, NoRun, NoRunBefore;
    RunEnds(seg, found.value, n);
    r := MarkRun(seg, found.value, n);
    r := WithHint(r, found.value + n);
    slot := Some(seg.base + found.value);
  }

  function WithHint(seg: Segment, hint: nat): (r: Segment)
    requires Ok(seg) && hint <= seg.count
    ensures Ok(r) && Used(r) == Used(seg) && r == seg.(hint := hint)
  {
    var r := seg.(hint := hint);
    assert Used(r) == Used(seg);
    r
  }

  /** A run of length one is a free index. */
  lemma SingleIsRun(seg: Segment)
    requires |seg.bits| == WORDS && seg.count <= MAX_SLOTS
    ensures AllUsed(seg, 0, seg.count) <==> NoRun(seg, 1)
  {
    hide IsUsed;
    forall k: nat ensures FreeRun(seg, k, 1) <==> k < seg.count && k !in Used(seg) {}
    if NoRun(seg, 1) {
      forall k | 0 <= k < seg.count ensures k in Used(seg) { assert !FreeRun(seg, k, 1); }
    }
  }

  /** Frees an index.  Refused exactly when the index is outside the segment or not taken. */
  method Free(seg: Segment, idx: nat) returns (r: Segment, ok: bool)
    requires Ok(seg)
    ensures Ok(r) && r.base == seg.base && r.count == seg.count
    ensures ok <==> idx in Used(seg)
    ensures !ok ==> r == seg
    ensures ok ==> Used(r) == Used(seg) - {idx}
    ensures ok ==> r.hint == if idx <= seg.hint then idx else seg.hint
  {
    hide IsUsed;
    if idx >= seg.count || !IsUsed(seg.bits, idx) {
      return seg, false;
    }
    var m := MarkFree(seg, idx);
    r := if idx <= m.hint then WithHint(m, idx) else m;
    ok := true;
  }
}

/** The plan of a child's capability space: where its allocator, the range for received capabilities
    and the root slots of expansions lie. */
module CspaceLayout {
  import A = SlotAlloc
  import S = Segment

  const RECV_SLOTS: nat := 1024
  const FRAME_SLOT_BASE: nat := 64
  const EXPAND_LIMIT: nat := A.EXPAND_BASE + A.MAX_EXPANSIONS

  datatype Profile = DefaultService | Pager | BootstrapAuthority

  datatype Layout = Layout(
    total: nat, frameBase: nat, allocBase: nat, allocLimit: nat,
    recvBase: nat, recvLimit: nat, expandBase: nat, expandLimit: nat)

  function Pow2(n: nat): nat { if n == 0 then 1 else 2 * Pow2(n - 1) }

  lemma {:induction false} Pow2Grows(m: nat, n: nat)
    requires m <= n
    ensures 0 < Pow2(m) <= Pow2(n)
    decreases n
  {
    if m < n { Pow2Grows(m, n - 1); }
    else if 0 < m { Pow2Grows(m - 1, n - 1); }
  }

  /** A slot that the plan keeps for received capabilities or for the roots of expansions. */
  predicate Reserved(l: Layout, slot: nat) {
    l.recvBase <= slot < l.recvLimit || l.expandBase <= slot < l.expandLimit
  }

  /** Computes the plan.  The allocator's range holds no reserved slot and ends at the first one. */
  method Compute(bits: nat, floor: nat, profile: Profile, wantExpand: bool) returns (l: Layout)
    ensures l.total == if bits >= 63 then 0 else Pow2(bits)
    ensures l.allocBase <= l.allocLimit <= l.total
    ensures forall slot :: l.allocBase <= slot < l.allocLimit ==> !Reserved(l, slot) && floor <= slot && FRAME_SLOT_BASE <= slot
    ensures l.allocLimit == l.total || Reserved(l, l.allocLimit)
    ensures l.allocBase < l.allocLimit ==> l.allocBase == floor || l.allocBase == FRAME_SLOT_BASE
    ensures profile == DefaultService || l.total == 0 <==> l.recvLimit == l.recvBase
    ensures l.recvBase < l.recvLimit ==> l.recvLimit == l.total && l.recvLimit - l.recvBase == if l.total > RECV_SLOTS then RECV_SLOTS else l.total
    ensures l.expandBase < l.expandLimit <==> wantExpand && 10 <= bits < 63
    ensures l.expandBase < l.expandLimit ==> l.expandBase == A.EXPAND_BASE && l.expandLimit == EXPAND_LIMIT
    ensures wantExpand && 10 <= bits < 63 ==> Planned(l, bits)
  {
    var total := if bits >= 63 then 0 else Pow2(bits);
    PowTable(bits);
    var frameBase := if floor > FRAME_SLOT_BASE then floor else FRAME_SLOT_BASE;
    var recvBase, recvLimit := 0, 0;
    if profile != DefaultService && total != 0 {
      var reserve := if total > RECV_SLOTS then RECV_SLOTS else total;
      recvBase, recvLimit := total - reserve, total;
    }
    var expandBase, expandLimit := 0, 0;
    if wantExpand {
      var base := if total > A.EXPAND_BASE then A.EXPAND_BASE else total;
      var limit := if total < EXPAND_LIMIT then total else EXPAND_LIMIT;
      if limit > base {
        expandBase, expandLimit := base, limit;
      }
    }
    var allocLimit := total;
    if expandLimit > expandBase && expandBase < allocLimit {
      allocLimit := expandBase;
    }
    if recvLimit > recvBase && recvBase < allocLimit {
      allocLimit := recvBase;
    }
    var allocBase := if frameBase < allocLimit then frameBase else allocLimit;
    l := Layout(total, frameBase, allocBase, allocLimit, recvBase, recvLimit, expandBase, expandLimit);
  }

  lemma PowTable(bits: nat)
    ensures bits <= 9 ==> 0 < Pow2(bits) <= 512
    ensures 10 <= bits ==> 1024 <= Pow2(bits)
    ensures bits <= 19 ==> Pow2(bits) <= 512 * 1024
    ensures 20 <= bits ==> 1024 * 1024 <= Pow2(bits)
  {
    assert Pow2(9) == 512;
    assert Pow2(19) == 1024 * Pow2(9) by { assert Pow2(14) == 32 * Pow2(9); assert Pow2(19) == 32 * Pow2(14); }
    if bits <= 9 { Pow2Grows(bits, 9); }
    if bits <= 19 { Pow2Grows(bits, 19); } else { Pow2Grows(20, bits); }
    if 10 <= bits { Pow2Grows(10, bits); }
  }

  /** A plan as `Compute` makes it for a CSpace with the given number of root bits. */
  predicate Planned(l: Layout, bits: nat) {
    && bits < 63 && l.total == Pow2(bits)
    && l.allocBase <= l.allocLimit <= l.total && l.allocLimit <= l.expandBase
    && (forall slot :: l.allocBase <= slot < l.allocLimit ==> !Reserved(l, slot))
    && (l.recvBase < l.recvLimit ==> l.recvLimit == l.total && l.recvLimit - l.recvBase == (if l.total > RECV_SLOTS then RECV_SLOTS else l.total))
    && l.expandBase == A.EXPAND_BASE && l.expandLimit == EXPAND_LIMIT
  }

  /** Whatever an allocator that was started on such a plan has done, every slot it can hand out is
      outside the receive range and is none of the root slots of the expansions; and once a depth is
      known, exactly the slots of expansions are invoked with it. */
  lemma NeverReserved(l: Layout, bits: nat, a: A.SlotAllocator, slot: nat)
    requires Planned(l, bits) && a.Valid()
    requires a.lo == l.allocBase && a.hi == l.allocLimit && slot in a.Universe()
    ensures !Reserved(l, slot)
    ensures a.depth != 0 ==> (a.InvokeDepth(slot) != 0 <==> a.FromExpansion(slot))
  {
    hide S.Range, A.SlotAllocator.PoolOk, A.SlotAllocator.Universe;
    a.WhereSlotsAre(slot);
    if a.depth != 0 { a.DepthExact(slot); }
    if !(a.lo <= slot < a.hi) {
      var k :| 0 <= k < a.expansions && slot in A.ExpansionSlots(k);
      PowTable(bits);
      assert 1008 * 1024 <= slot < 1016 * 1024;
    }
  }
}

/** Single bits of a 64-bit bitmap word. */
module Word {

  /** The word with only bit i set: 1 shifted left i times. */
  function Bit(i: nat): bv64
    requires i < 64
  {
    if i == 0 then 1 else Double(Bit(i - 1))
  }

  function Double(a: bv64): bv64 { a << 1 }

  predicate Meets(w: bv64, m: bv64) { w & m != 0 }
  function SetMask(w: bv64, m: bv64): bv64 { w | m }
  function ClearMask(w: bv64, m: bv64): bv64 { w & !m }

  predicate Has(w: bv64, i: nat)
    requires i < 64
  {
    Meets(w, Bit(i))
  }

  lemma {:induction false} BitsApart(i: nat, j: nat)
    requires i < j < 64
    ensures Bit(i) & Bit(j) == 0 && Bit(j) & Bit(i) == 0
  {
    if i == 0 { LowestApart(Bit(j - 1)); } else { BitsApart(i - 1, j - 1); ShiftApart(Bit(i - 1), Bit(j - 1)); }
  }

  lemma LowestApart(a: bv64)
    ensures 1 & Double(a) == 0 && Double(a) & 1 == 0
  {}

  lemma ShiftApart(a: bv64, b: bv64)
    requires a & b == 0
    ensures Double(a) & Double(b) == 0 && Double(b) & Double(a) == 0
  {}

  lemma {:induction false} ZeroStays(i: nat, j: nat)
    requires i <= j < 64 && Bit(i) == 0
    ensures Bit(j) == 0
  {
    if i < j { ZeroStays(i, j - 1); }
  }

  lemma Nine(i: nat)
    requires i + 9 < 64
    ensures Bit(i + 9) == Times512(Bit(i))
  {
    hide Double, Bit, Times8, Times512;
    Three(i);
    Three(i + 3);
    Three(i + 6);
    Compose(Bit(i));
  }

  lemma Three(i: nat)
    requires i + 3 < 64
    ensures Bit(i + 3) == Times8(Bit(i))
  {
    hide Double;
    assert Bit(i + 1) == Double(Bit(i));
    assert Bit(i + 2) == Double(Bit(i + 1));
    assert Bit(i + 3) == Double(Bit(i + 2));
  }

  function Times8(a: bv64): bv64 { Double(Double(Double(a))) }

  function Times512(a: bv64): bv64 { a << 9 }

  lemma Compose(a: bv64)
    ensures Times8(Times8(Times8(a))) == Times512(a)
  {}

  lemma LastIsSet()
    ensures Bit(63) == 0x8000_0000_0000_0000
  {
    Nine(0);
    Nine(9);
    Nine(18);
    Nine(27);
    Nine(36);
    Nine(45);
    Nine(54);
  }

  lemma BitIsSet(i: nat)
    requires i < 64
    ensures Bit(i) != 0
  {
    LastIsSet();
    if Bit(i) == 0 { ZeroStays(i, 63); }
  }

  lemma BitMeetsItself(i: nat)
    requires i < 64
    ensures Meets(Bit(i), Bit(i))
  {
    BitIsSet(i);
    hide Bit;
  }

  lemma SetApart(w: bv64, a: bv64, b: bv64)
    ensures a & b == 0 ==> SetMask(w, a) & b == w & b
  {}

  lemma SetSame(w: bv64, a: bv64)
    ensures SetMask(w, a) & a == a
  {}

  lemma ClearMeets(w: bv64, a: bv64, b: bv64)
    ensures !Meets(ClearMask(w, a), a)
    ensures a & b == 0 ==> ClearMask(w, a) & b == w & b
  {}

  lemma BitsMeet(i: nat, j: nat)
    requires i < 64 && j < 64
    ensures Meets(Bit(i), Bit(j)) <==> i == j
  {
    if i < j { BitsApart(i, j); } else if j < i { BitsApart(j, i); } else { BitMeetsItself(i); }
  }

  lemma SetBit(w: bv64, i: nat, j: nat)
    requires i < 64 && j < 64
    ensures Has(SetMask(w, Bit(i)), j) <==> i == j || Has(w, j)
  {
    hide Meets, SetMask, Bit;
    BitsMeet(i, j);
    if i == j { SetMeets(w, Bit(i)); } else { SetStays(w, Bit(i), Bit(j)); }
  }

  lemma SetMeets(w: bv64, a: bv64)
    requires Meets(a, a)
    ensures Meets(SetMask(w, a), a)
  {
    SetSame(w, a);
  }

  lemma SetStays(w: bv64, a: bv64, b: bv64)
    requires !Meets(a, b)
    ensures Meets(SetMask(w, a), b) <==> Meets(w, b)
  {
    SetApart(w, a, b);
  }

  lemma ClearApart(w: bv64, a: bv64, b: bv64)
    requires !Meets(a, b)
    ensures Meets(ClearMask(w, a), b) <==> Meets(w, b)
  {
    ClearMeets(w, a, b);
  }

  lemma ClearBit(w: bv64, i: nat, j: nat)
    requires i < 64 && j < 64
    ensures Has(ClearMask(w, Bit(i)), j) <==> i != j && Has(w, j)
  {
    hide Meets, ClearMask, Bit;
    BitsMeet(i, j);
    if i == j { ClearMeets(w, Bit(i), Bit(i)); } else { ClearApart(w, Bit(i), Bit(j)); }
  }

  predicate Single(a: bv64) { a != 0 && a & (a - 1) == 0 }

  lemma {:induction false} BitIsSingle(i: nat)
    requires i < 64
    ensures Single(Bit(i))
  {
    BitIsSet(i);
    if 0 < i {
      BitIsSingle(i - 1);
      SingleShift(Bit(i - 1));
    }
  }

  lemma SingleShift(a: bv64)
    requires Single(a) && Double(a) != 0
    ensures Single(Double(a))
  {}

  /** Every bit of the mask is set in the word. */
  predicate Covers(w: bv64, mask: bv64) { w & mask == mask }

  lemma MeetsSingle(w: bv64, a: bv64)
    requires Single(a)
    ensures Meets(w, a) <==> Covers(w, a)
  {}

  lemma CoversUnion(w: bv64, a: bv64, b: bv64)
    requires Covers(w, a) && Covers(w, b)
    ensures Covers(w, SetMask(a, b))
  {}

  lemma CoversPart(w: bv64, a: bv64, b: bv64)
    requires Covers(w, SetMask(a, b))
    ensures Covers(w, a)
  {}

  lemma CoversOther(w: bv64, a: bv64, b: bv64)
    requires Covers(w, SetMask(a, b))
    ensures Covers(w, b)
  {}

  lemma MaskOfTwo(w: bv64, i: nat, j: nat)
    requires i < 64 && j < 64
    ensures Covers(w, SetMask(Bit(i), Bit(j))) <==> Has(w, i) && Has(w, j)
  {
    hide Bit, SetMask, Covers, Meets, Single;
    BitIsSingle(i);
    BitIsSingle(j);
    MeetsSingle(w, Bit(i));
    MeetsSingle(w, Bit(j));
    if Covers(w, SetMask(Bit(i), Bit(j))) {
      CoversPart(w, Bit(i), Bit(j));
      CoversOther(w, Bit(i), Bit(j));
    } else if Has(w, i) && Has(w, j) {
      CoversUnion(w, Bit(i), Bit(j));
    }
  }
}

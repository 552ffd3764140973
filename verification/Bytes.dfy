/** Bytes, pages and little-endian words. */
module Bytes {
  import opened Common

  type Byte = x: int | 0 <= x < 256

  const TWO64: nat := 0x1_0000_0000_0000_0000

  function PageDown(v: int): (r: int)
    ensures r <= v < r + PAGE && r % PAGE == 0 && (0 <= v ==> 0 <= r)
  {
    v - v % PAGE
  }

  function PageUp(v: int): (r: int)
    ensures r - PAGE < v <= r && r % PAGE == 0
  {
    PageDown(v + PAGE - 1)
  }

  /** A page-aligned address is the page of every address within it. */
  lemma PageOf(q: int, a: int)
    requires q % PAGE == 0
    ensures PageDown(a) == q <==> q <= a < q + PAGE
  {}

  lemma PagesOn(v: int, k: int)
    ensures PageDown(v + k * PAGE) == PageDown(v) + k * PAGE
  {}

  lemma PageShift(v: int, d: int)
    requires d % PAGE == 0
    ensures PageDown(v + d) == PageDown(v) + d && PageUp(v + d) == PageUp(v) + d
  {
    var k := d / PAGE;
    assert d == k * PAGE;
    PagesOn(v, k);
    PagesOn(v + PAGE - 1, k);
    hide PageDown;
    assert v + d + PAGE - 1 == (v + PAGE - 1) + k * PAGE;
  }

  lemma DownOrder(a: int, b: int)
    requires a <= b
    ensures PageDown(a) <= PageDown(b)
  {
    var k := (b - a) / PAGE;
    PagesOn(a, k);
    assert 0 <= b - (a + k * PAGE) < PAGE;
    hide PageDown;
    OnePageOrder(a + k * PAGE, b);
  }

  lemma OnePageOrder(a: int, b: int)
    requires a <= b < a + PAGE
    ensures PageDown(a) <= PageDown(b)
  {}

  lemma PageOrder(a: int, b: int)
    requires a <= b
    ensures PageDown(a) <= PageDown(b) && PageUp(a) <= PageUp(b)
  {
    DownOrder(a, b);
    DownOrder(a + PAGE - 1, b + PAGE - 1);
    hide PageDown;
  }

  // ------------------------------------------------------------ words

  function Pow256(k: nat): (r: nat)
    ensures 0 < r
  {
    if k == 0 then 1 else 256 * Pow256(k - 1)
  }

  /** The k lowest bytes of v, lowest first. */
  function Encode(v: nat, k: nat): (s: seq<Byte>)
    ensures |s| == k
  {
    if k == 0 then [] else [v % 256] + Encode(v / 256, k - 1)
  }

  function Decode(s: seq<Byte>): nat {
    if s == [] then 0 else s[0] + 256 * Decode(s[1..])
  }

  lemma {:induction false} DecodeEncode(v: nat, k: nat)
    requires v < Pow256(k)
    ensures Decode(Encode(v, k)) == v
    decreases k
  {
    if 0 < k {
      DecodeEncode(v / 256, k - 1);
      assert Encode(v, k)[1..] == Encode(v / 256, k - 1);
    }
  }

  lemma {:induction false} Scaled(d: nat, q: nat, n: nat)
    requires d < q
    ensures d * n + n <= q * n
    decreases q
  {
    OneMore(q - 1, n);
    if d + 1 < q { Scaled(d, q - 1, n); }
  }

  lemma OneMore(d: nat, n: nat)
    ensures (d + 1) * n == d * n + n
  {}

  lemma Quotient(v: nat, q: nat, r: nat, n: nat)
    requires r < n && v == q * n + r
    ensures v / n == q
  {
    var d := v / n;
    assert v == d * n + v % n;
    if d < q { Scaled(d, q, n); } else if q < d { Scaled(q, d, n); }
  }

  lemma Euclid(v: nat, a: nat) returns (q: nat, r: nat)
    requires 0 < a
    ensures q == v / a && r < a && v == q * a + r
  {
    q, r := v / a, v % a;
  }

  lemma DivTwice(v: nat, a: nat, b: nat)
    requires 0 < a && 0 < b
    ensures 0 < a * b && v / a / b == v / (a * b)
  {
    var w, r := Euclid(v, a);
    var q, t := Euclid(w, b);
    Regroup(v, q, t, r, a, b);
    Quotient(v, q, t * a + r, a * b);
  }

  lemma Regroup(v: nat, q: nat, t: nat, r: nat, a: nat, b: nat)
    requires v == (q * b + t) * a + r && r < a && t < b
    ensures v == q * (a * b) + (t * a + r) && t * a + r < a * b
  {
    assert (q * b + t) * a == q * (a * b) + t * a;
    Scaled(t, b, a);
  }

  /** Byte i of a word is its digit of weight 256^i: the lowest byte comes first. */
  lemma {:induction false} LowestFirst(v: nat, k: nat, i: nat)
    requires i < k
    ensures Encode(v, k)[i] == v / Pow256(i) % 256
    decreases k
  {
    if 0 < i {
      LowestFirst(v / 256, k - 1, i - 1);
      DivTwice(v, 256, Pow256(i - 1));
    }
  }

  lemma {:induction false} DecodeBound(s: seq<Byte>)
    ensures Decode(s) < Pow256(|s|)
  {
    if s != [] { DecodeBound(s[1..]); }
  }

  /** Different bytes denote different numbers. */
  lemma {:induction false} DecodeInjective(s: seq<Byte>, t: seq<Byte>)
    requires |s| == |t| && Decode(s) == Decode(t)
    ensures s == t
  {
    if s != [] {
      DecodeInjective(s[1..], t[1..]);
      assert s == [s[0]] + s[1..] && t == [t[0]] + t[1..];
    }
  }

  lemma Pow256Eight()
    ensures Pow256(8) == TWO64
  {
    assert Pow256(4) == 0x1_0000_0000;
    assert Pow256(8) == 256 * 256 * 256 * 256 * Pow256(4);
  }

  /** The eight bytes of a 64-bit word read back as that word. */
  lemma WordRoundTrip(v: nat)
    requires v < TWO64
    ensures Decode(Encode(v, 8)) == v
  {
    Pow256Eight();
    DecodeEncode(v, 8);
  }

  // ------------------------------------------------------------ 64-bit arithmetic

  function Wrap(x: int): (r: nat)
    ensures r < TWO64
  {
    x % TWO64
  }

  lemma {:induction false} DropMultiple(x: int, q: int)
    ensures (x + q * TWO64) % TWO64 == x % TWO64
    decreases if q < 0 then -q else q
  {
    if q > 0 { DropMultiple(x, q - 1); } else if q < 0 { DropMultiple(x, q + 1); }
  }

  lemma WrapSum(x: int, y: int)
    ensures Wrap(x + Wrap(y)) == Wrap(x + y)
  {
    DropMultiple(x + y % TWO64, y / TWO64);
  }

  lemma WrapDiff(x: int, y: int)
    ensures Wrap(Wrap(x) - Wrap(y)) == Wrap(x - y)
  {
    DropMultiple(x % TWO64 - y % TWO64, x / TWO64 - y / TWO64);
  }

  lemma WrapCancel(x: nat, y: nat, d: int)
    requires x < TWO64 && y < TWO64 && Wrap(x + d) == Wrap(y + d)
    ensures x == y
  {
    hide Wrap;
    if x <= y { WrapSame(y + d, x + d); } else { WrapSame(x + d, y + d); }
  }

  /** Two numbers less than 2^64 apart with the same residue are equal. */
  lemma WrapSame(x: int, y: int)
    requires 0 <= x - y < TWO64
    ensures Wrap(x) == Wrap(y) <==> x == y
  {
    assert x == x / TWO64 * TWO64 + x % TWO64 && y == y / TWO64 * TWO64 + y % TWO64;
    if Wrap(x) == Wrap(y) { assert x - y == (x / TWO64 - y / TWO64) * TWO64; }
  }
}

/** UTF-8: the well-formed byte sequences and the characters they stand for. */
module Utf8 {
  import opened Common
  import opened Bytes

  predicate IsScalar(cp: nat) { cp < 0xD800 || 0xE000 <= cp < 0x11_0000 }

  ghost predicate AllScalar(cps: seq<nat>) { forall i :: 0 <= i < |cps| ==> IsScalar(cps[i]) }

  predicate IsTail(b: Byte) { 0x80 <= b < 0xC0 }

  function Encode(cp: nat): (s: seq<Byte>)
    requires IsScalar(cp)
    ensures 1 <= |s| <= 4
  {
    if cp < 0x80 then [cp]
    else if cp < 0x800 then [0xC0 + cp / 64, Tail(cp)]
    else if cp < 0x1_0000 then [0xE0 + cp / 64 / 64, Tail(cp / 64), Tail(cp)]
    else [0xF0 + cp / 64 / 64 / 64, Tail(cp / 64 / 64), Tail(cp / 64), Tail(cp)]
  }

  /** The lowest six bits as a continuation byte. */
  function Tail(v: nat): (b: Byte)
    ensures IsTail(b) && Bits(v / 64, b) == v
  {
    0x80 + v % 64
  }

  /** The length that a first byte announces; 0 if it cannot come first. */
  function Length(b: Byte): nat {
    if b < 0x80 then 1 else if b < 0xC0 then 0 else if b < 0xE0 then 2 else if b < 0xF0 then 3 else if b < 0xF8 then 4 else 0
  }

  function Value(s: seq<Byte>): nat
    requires s != [] && |s| == Length(s[0]) && forall i :: 1 <= i < |s| ==> IsTail(s[i])
  {
    if |s| == 1 then s[0]
    else if |s| == 2 then Bits(s[0] - 0xC0, s[1])
    else if |s| == 3 then Bits(Bits(s[0] - 0xE0, s[1]), s[2])
    else Bits(Bits(Bits(s[0] - 0xF0, s[1]), s[2]), s[3])
  }

  /** Six more bits. */
  function Bits(high: nat, tail: Byte): nat
    requires IsTail(tail)
  {
    high * 64 + (tail - 0x80)
  }

  /** The smallest character that needs n bytes. */
  function Smallest(n: nat): nat { if n <= 1 then 0 else if n == 2 then 0x80 else if n == 3 then 0x800 else 0x1_0000 }

  /** A well-formed sequence starts s: complete, shortest form, and a character. */
  predicate StartsWell(s: seq<Byte>) {
    && s != [] && 1 <= Length(s[0]) <= |s|
    && (forall i :: 1 <= i < Length(s[0]) ==> IsTail(s[i]))
    && Smallest(Length(s[0])) <= Value(s[..Length(s[0])])
    && IsScalar(Value(s[..Length(s[0])]))
  }

  /** The characters of a byte string, if it is well formed. */
  function Decode(s: seq<Byte>): (r: Option<seq<nat>>)
    ensures r.Some? ==> AllScalar(r.value)
  {
    if s == [] then Some([])
    else if !StartsWell(s) then None
    else
      var n := Length(s[0]);
      var rest := Decode(s[n..]);
      if rest.None? then None else Some([Value(s[..n])] + rest.value)
  }

  function EncodeAll(cps: seq<nat>): seq<Byte>
    requires AllScalar(cps)
  {
    if cps == [] then [] else Encode(cps[0]) + EncodeAll(cps[1..])
  }

  /** Encoding in two goes. */
  lemma {:induction false} EncodeSplit(cps: seq<nat>, k: nat)
    requires AllScalar(cps) && k <= |cps|
    ensures EncodeAll(cps) == EncodeAll(cps[..k]) + EncodeAll(cps[k..])
    decreases k
  {
    hide Encode;
    if k == 0 {
      assert cps[k..] == cps;
    } else {
      EncodeSplit(cps[1..], k - 1);
      assert cps[..k][1..] == cps[1..][..k - 1] && cps[1..][k - 1..] == cps[k..];
    }
  }

  lemma EncodeOne(cp: nat)
    requires IsScalar(cp)
    ensures var s := Encode(cp);
            && |s| == Length(s[0]) && (forall i :: 1 <= i < |s| ==> IsTail(s[i]))
            && Value(s) == cp && Smallest(|s|) <= cp
  {}

  /** Encoding characters and reading them back gives the same characters. */
  lemma {:induction false} DecodeEncode(cps: seq<nat>)
    requires AllScalar(cps)
    ensures Decode(EncodeAll(cps)) == Some(cps)
  {
    if cps != [] {
      var first, rest := Encode(cps[0]), EncodeAll(cps[1..]);
      EncodeOne(cps[0]);
      DecodeEncode(cps[1..]);
      hide Encode, Value;
      var s := first + rest;
      assert s[..|first|] == first && s[|first|..] == rest;
      assert [cps[0]] + cps[1..] == cps;
    }
  }

  /** A well-formed start is the encoding of its character. */
  lemma EncodeValue(s: seq<Byte>)
    requires StartsWell(s)
    ensures Encode(Value(s[..Length(s[0])])) == s[..Length(s[0])]
  {
    var n := Length(s[0]);
    var t := s[..n];
    assert t[0] == s[0] && forall i :: 1 <= i < n ==> IsTail(t[i]);
    if n == 1 {
    } else if n == 2 {
      EncodeTwo(t);
    } else if n == 3 {
      EncodeThree(t);
    } else {
      EncodeFour(t);
    }
  }

  lemma TailOf(high: nat, b: Byte)
    requires IsTail(b)
    ensures Tail(Bits(high, b)) == b && Bits(high, b) / 64 == high
  {}

  lemma EncodeTwo(t: seq<Byte>)
    requires |t| == 2 == Length(t[0]) && IsTail(t[1]) && 0x80 <= Value(t)
    ensures IsScalar(Value(t)) && Encode(Value(t)) == t
  {
    TailOf(t[0] - 0xC0, t[1]);
    hide Tail;
  }

  lemma EncodeThree(t: seq<Byte>)
    requires |t| == 3 == Length(t[0]) && IsTail(t[1]) && IsTail(t[2]) && 0x800 <= Value(t) && IsScalar(Value(t))
    ensures Encode(Value(t)) == t
  {
    var v := Bits(t[0] - 0xE0, t[1]);
    TailOf(t[0] - 0xE0, t[1]);
    TailOf(v, t[2]);
    hide Tail;
  }

  lemma EncodeFour(t: seq<Byte>)
    requires |t| == 4 == Length(t[0]) && IsTail(t[1]) && IsTail(t[2]) && IsTail(t[3]) && 0x1_0000 <= Value(t) && IsScalar(Value(t))
    ensures Encode(Value(t)) == t
  {
    var u := Bits(t[0] - 0xF0, t[1]);
    var v := Bits(u, t[2]);
    TailOf(t[0] - 0xF0, t[1]);
    TailOf(u, t[2]);
    TailOf(v, t[3]);
    hide Tail;
  }

  lemma EncodeCons(v: nat, rest: seq<nat>)
    requires IsScalar(v) && AllScalar(rest)
    ensures AllScalar([v] + rest) && EncodeAll([v] + rest) == Encode(v) + EncodeAll(rest)
  {
    hide Encode;
    assert ([v] + rest)[1..] == rest;
  }

  lemma DecodeCons(s: seq<Byte>)
    requires s != [] && Decode(s).Some?
    ensures StartsWell(s) && Decode(s[Length(s[0])..]).Some?
    ensures Decode(s).value == [Value(s[..Length(s[0])])] + Decode(s[Length(s[0])..]).value
  {
    hide StartsWell, Value, Length;
  }

  /** What can be read is the encoding of what is read: there is no other form of a character. */
  lemma {:induction false} EncodeDecode(s: seq<Byte>)
    requires Decode(s).Some?
    ensures EncodeAll(Decode(s).value) == s
  {
    if s != [] {
      var n := Length(s[0]);
      DecodeCons(s);
      EncodeValue(s);
      EncodeDecode(s[n..]);
      EncodeCons(Value(s[..n]), Decode(s[n..]).value);
      hide Encode, EncodeAll, Value, Decode;
      assert s[..n] + s[n..] == s;
    }
  }

  lemma AsciiStarts(s: seq<Byte>)
    requires s != [] && s[0] < 0x80
    ensures StartsWell(s) && Length(s[0]) == 1 && s[..1] == [s[0]] && Value(s[..1]) == s[0] && Encode(s[0]) == [s[0]]
  {
    assert s[..1] == [s[0]];
  }

  /** Bytes below 0x80 stand for themselves. */
  lemma {:induction false} AsciiIsItself(s: seq<Byte>)
    requires forall i :: 0 <= i < |s| ==> s[i] < 0x80
    ensures Decode(s) == Some(s) && AllScalar(s) && EncodeAll(s) == s
  {
    if s != [] {
      AsciiStarts(s);
      hide StartsWell, Value, Encode, Length;
      AsciiIsItself(s[1..]);
      assert s == [s[0]] + s[1..];
    }
  }
}

/** Case-insensitive comparison of file names: simple case folding over any table of pairs. */
module Casefold {
  import opened Common
  import opened Bytes
  import U = Utf8

  const BUFFER: nat := 256

  type Table = seq<(nat, nat)>

  ghost predicate HasKey(t: Table, cp: nat) { exists i :: 0 <= i < |t| && t[i].0 == cp }

  /** Sorted by key; below 0x80 exactly A to Z are keys, mapped 32 further up; no value is a key. */
  ghost predicate Good(t: Table) {
    && (forall i, j :: 0 <= i < j < |t| ==> t[i].0 < t[j].0)
    && (forall i :: 0 <= i < |t| && t[i].0 < 0x80 ==> 0x41 <= t[i].0 <= 0x5A && t[i].1 == t[i].0 + 32)
    && (forall cp :: 0x41 <= cp <= 0x5A ==> HasKey(t, cp))
    && (forall i :: 0 <= i < |t| ==> !HasKey(t, t[i].1))
  }

  /** Plain lookup: the value paired with the code point, or the code point itself. */
  ghost function Lookup(t: Table, cp: nat): nat {
    if HasKey(t, cp) then
      var i :| 0 <= i < |t| && t[i].0 == cp;
      t[i].1
    else cp
  }

  lemma LookupAt(t: Table, i: nat)
    requires Good(t) && i < |t|
    ensures Lookup(t, t[i].0) == t[i].1
  {
    assert HasKey(t, t[i].0);
    var j :| 0 <= j < |t| && t[j].0 == t[i].0 && Lookup(t, t[i].0) == t[j].1;
    assert i == j;
  }

  /** The fast path for ASCII and the binary search are the plain lookup. */
  method FoldCodepoint(t: Table, cp: nat) returns (r: nat)
    requires Good(t)
    ensures r == Lookup(t, cp)
  {
    if cp < 0x80 {
      if 0x41 <= cp <= 0x5A {
        assert HasKey(t, cp);
        return cp + 32;
      }
      return cp;
    }
    var lo, hi := 0, |t|;
    while lo < hi
      invariant 0 <= lo <= hi <= |t|
      invariant forall i :: 0 <= i < lo ==> t[i].0 < cp
      invariant forall i :: hi <= i < |t| ==> cp < t[i].0
    {
      var mid := lo + (hi - lo) / 2;
      if t[mid].0 == cp {
        LookupAt(t, mid);
        return t[mid].1;
      } else if t[mid].0 < cp {
        lo := mid + 1;
      } else {
        hi := mid;
      }
    }
    r := cp;
  }

  /** Folding a folded code point changes nothing. */
  lemma LookupTwice(t: Table, cp: nat)
    requires Good(t)
    ensures Lookup(t, Lookup(t, cp)) == Lookup(t, cp)
  {
    if HasKey(t, cp) {
      var i :| 0 <= i < |t| && t[i].0 == cp;
      LookupAt(t, i);
      assert !HasKey(t, t[i].1);
    }
  }

  // ------------------------------------------------------------ strings

  ghost function FoldAll(t: Table, cps: seq<nat>): (r: seq<nat>)
    ensures |r| == |cps| && forall i :: 0 <= i < |cps| ==> r[i] == Lookup(t, cps[i])
  {
    seq(|cps|, i requires 0 <= i < |cps| => Lookup(t, cps[i]))
  }

  /** The folded string: none if the bytes are not UTF-8, if a folded code point is no character, or if the
      result does not fit. */
  ghost function Folded(t: Table, src: seq<Byte>, room: nat): Option<seq<Byte>> {
    var d := U.Decode(src);
    if d.None? || !U.AllScalar(FoldAll(t, d.value)) then None
    else
      var r := U.EncodeAll(FoldAll(t, d.value));
      if |r| <= room then Some(r) else None
  }

  /** Decodes, folds and encodes into a buffer with room for the given number of bytes. */
  method FoldUtf8(t: Table, src: seq<Byte>, room: nat) returns (dst: Option<seq<Byte>>)
    requires Good(t)
    ensures dst == Folded(t, src, room)
  {
    hide Good, U.Decode, U.Encode;
    var d := U.Decode(src);
    if d.None? {
      return None;
    }
    ghost var all := FoldAll(t, d.value);
    var out: seq<Byte> := [];
    var i := 0;
    while i < |d.value|
      invariant i <= |d.value| && |out| <= room && U.AllScalar(all[..i]) && out == U.EncodeAll(all[..i])
    {
      var cp := FoldCodepoint(t, d.value[i]);
      if !U.IsScalar(cp) {
        return None;
      }
      var enc := U.Encode(cp);
      OneMore(all, i);
      if |out| + |enc| > room {
        return None;
      }
      out := out + enc;
      i := i + 1;
    }
    assert all[..i] == all;
    dst := Some(out);
  }

  /** One more character makes the encoding longer by its own, and the rest does not make it shorter. */
  lemma OneMore(all: seq<nat>, i: nat)
    requires i < |all| && U.AllScalar(all[..i]) && U.IsScalar(all[i])
    ensures U.AllScalar(all[..i + 1]) && U.EncodeAll(all[..i + 1]) == U.EncodeAll(all[..i]) + U.Encode(all[i])
    ensures U.AllScalar(all) ==> |U.EncodeAll(all[..i + 1])| <= |U.EncodeAll(all)|
  {
    hide U.Encode;
    var head := all[..i + 1];
    U.EncodeSplit(head, i);
    assert head[..i] == all[..i] && head[i..] == [all[i]];
    assert U.EncodeAll([all[i]]) == U.Encode(all[i]) by { assert [all[i]][1..] == []; }
    if U.AllScalar(all) { U.EncodeSplit(all, i + 1); }
  }

  /** Folding a folded string gives it back. */
  lemma FoldedTwice(t: Table, src: seq<Byte>, room: nat)
    requires Good(t) && Folded(t, src, room).Some?
    ensures Folded(t, Folded(t, src, room).value, room) == Folded(t, src, room)
  {
    var cps := U.Decode(src).value;
    var once := FoldAll(t, cps);
    U.DecodeEncode(once);
    forall i | 0 <= i < |cps| ensures FoldAll(t, once)[i] == once[i] { LookupTwice(t, cps[i]); }
    assert FoldAll(t, once) == once;
  }

  /** What equality of names comes to: the folded strings if both exist, else the bytes. */
  ghost predicate Same(t: Table, a: seq<Byte>, b: seq<Byte>) {
    var fa, fb := Folded(t, a, BUFFER), Folded(t, b, BUFFER);
    if fa.Some? && fb.Some? then fa == fb else a == b
  }

  method CasefoldEqual(t: Table, a: seq<Byte>, b: seq<Byte>) returns (eq: bool)
    requires Good(t)
    ensures eq <==> Same(t, a, b)
  {
    hide Good, Folded;
    var fa := FoldUtf8(t, a, BUFFER);
    var fb := FoldUtf8(t, b, BUFFER);
    if fa.Some? && fb.Some? {
      return |fa.value| == |fb.value| && fa.value == fb.value;
    }
    eq := a == b;
  }

  /** It is an equivalence relation on all byte strings. */
  lemma SameIsEquivalence(t: Table, a: seq<Byte>, b: seq<Byte>, c: seq<Byte>)
    ensures Same(t, a, a)
    ensures Same(t, a, b) ==> Same(t, b, a)
    ensures Same(t, a, b) && Same(t, b, c) ==> Same(t, a, c)
  {
    hide Folded;
  }

  /** A name equals its folded form. */
  lemma SameAsFolded(t: Table, a: seq<Byte>)
    requires Good(t) && Folded(t, a, BUFFER).Some?
    ensures Same(t, a, Folded(t, a, BUFFER).value)
  {
    FoldedTwice(t, a, BUFFER);
  }

  /** The name is well-formed UTF-8, its folded code points are characters, and it fits the buffer when folded. */
  ghost predicate Foldable(t: Table, a: seq<Byte>) {
    U.Decode(a).Some? && U.AllScalar(FoldAll(t, U.Decode(a).value)) && |U.EncodeAll(FoldAll(t, U.Decode(a).value))| <= 256
  }

  /** Two names are equal exactly if both can be folded and their characters agree one by one after folding, or one
      cannot and they are the same bytes. */
  lemma SameIff(t: Table, a: seq<Byte>, b: seq<Byte>)
    ensures Same(t, a, b) <==>
            if Foldable(t, a) && Foldable(t, b) then FoldAll(t, U.Decode(a).value) == FoldAll(t, U.Decode(b).value) else a == b
  {
    hide U.Decode, U.EncodeAll, U.AllScalar, FoldAll;
    if Foldable(t, a) && Foldable(t, b) {
      U.DecodeEncode(FoldAll(t, U.Decode(a).value));
      U.DecodeEncode(FoldAll(t, U.Decode(b).value));
    }
  }

  /** The letters A to Z and a to z are the same, and nothing else below 0x80 is. */
  predicate SameLetter(x: Byte, y: Byte) {
    x == y || (0x41 <= x <= 0x5A && y == x + 32) || (0x41 <= y <= 0x5A && x == y + 32)
  }

  lemma AsciiLookup(t: Table, x: Byte)
    requires Good(t) && x < 0x80
    ensures Lookup(t, x) == if 0x41 <= x <= 0x5A then x + 32 else x
  {
    if HasKey(t, x) {
      var i :| 0 <= i < |t| && t[i].0 == x;
      LookupAt(t, i);
    }
  }

  /** Names of at most 256 ASCII characters are equal exactly if they are but for the case of their letters. */
  lemma AsciiNames(t: Table, a: seq<Byte>, b: seq<Byte>)
    requires Good(t) && |a| <= 256 && |b| <= 256
    requires (forall i :: 0 <= i < |a| ==> a[i] < 0x80) && (forall i :: 0 <= i < |b| ==> b[i] < 0x80)
    ensures Same(t, a, b) <==> |a| == |b| && forall i :: 0 <= i < |a| ==> SameLetter(a[i], b[i])
  {
    hide Good;
    AsciiFolds(t, a);
    AsciiFolds(t, b);
    SameIff(t, a, b);
    var fa, fb := FoldAll(t, a), FoldAll(t, b);
    forall i | 0 <= i < |a| && i < |b| ensures fa[i] == fb[i] <==> SameLetter(a[i], b[i]) {
      AsciiLookup(t, a[i]);
      AsciiLookup(t, b[i]);
    }
    hide Same, FoldAll, SameLetter, Foldable;
    if |a| == |b| && forall i :: 0 <= i < |a| ==> SameLetter(a[i], b[i]) { assert fa == fb; }
    if fa == fb { assert forall i :: 0 <= i < |a| ==> fa[i] == fb[i]; }
  }

  lemma AsciiFolds(t: Table, a: seq<Byte>)
    requires Good(t) && |a| <= 256 && forall i :: 0 <= i < |a| ==> a[i] < 0x80
    ensures U.Decode(a) == Some(a) && Foldable(t, a)
  {
    hide Good;
    U.AsciiIsItself(a);
    var fa := FoldAll(t, a);
    forall i | 0 <= i < |a| ensures fa[i] < 0x80 { AsciiLookup(t, a[i]); }
    U.AsciiIsItself(fa);
  }
}

/** What loading a PE image at two bases has in common: everything but the words of its base
    relocations, which differ by the distance of the bases. */
module PeImage {
  import opened Common
  import opened Bytes
  import I = ElfImage

  // ------------------------------------------------------------ the same pages at another base

  lemma ShiftHasPage(p: I.Segment, l: int, m: int, q: int)
    requires l % PAGE == 0 && m % PAGE == 0 && q % PAGE == 0
    ensures I.HasPage(p, l, q + l) <==> I.HasPage(p, m, q + m)
  {
    HasPageAt(p, l, q);
    HasPageAt(p, m, q);
    hide I.HasPage, I.Start, I.End;
  }

  lemma HasPageAt(p: I.Segment, l: int, q: int)
    requires l % PAGE == 0 && q % PAGE == 0
    ensures I.HasPage(p, l, q + l) <==> I.Start(p, 0) <= q < I.End(p, 0)
  {
    EndsShift(p, l);
    MultipleSum(q, l);
    hide I.Start, I.End;
  }

  lemma EndsShift(p: I.Segment, l: int)
    requires l % PAGE == 0
    ensures I.Start(p, l) == I.Start(p, 0) + l && I.End(p, l) == I.End(p, 0) + l
  {
    PageShift(p.vaddr, l);
    PageShift(p.vaddr + p.memsz, l);
    hide PageDown, PageUp;
  }

  lemma MultipleSum(a: int, b: int)
    requires a % PAGE == 0 && b % PAGE == 0
    ensures (a + b) % PAGE == 0
  {}

  /** The byte at an offset from the base does not depend on the base. */
  lemma {:induction false} ShiftImage(file: seq<Byte>, ps: seq<I.Segment>, l: int, m: int, a: int)
    requires l % PAGE == 0 && m % PAGE == 0
    ensures I.Image(file, ps, l, {}, a + l) == I.Image(file, ps, m, {}, a + m)
  {
    if ps != [] {
      var p := ps[|ps| - 1];
      PageShift(a, l);
      PageShift(a, m);
      ShiftHasPage(p, l, m, PageDown(a));
      hide PageDown, PageUp, I.HasPage;
      ShiftImage(file, ps[..|ps| - 1], l, m, a);
    }
  }

  // ------------------------------------------------------------ base relocations

  /** The 64-bit word at an offset of a page. */
  function WordAt(page: seq<Byte>, off: nat): (w: nat)
    requires off + 8 <= |page|
    ensures w < TWO64
  {
    DecodeBound(page[off..off + 8]);
    Pow256Eight();
    Decode(page[off..off + 8])
  }

  function AddWord(page: seq<Byte>, off: nat, delta: nat): (r: seq<Byte>)
    requires off + 8 <= |page|
    ensures |r| == |page| && WordAt(r, off) == Wrap(WordAt(page, off) + delta)
    ensures forall k :: 0 <= k < |page| && !(off <= k < off + 8) ==> r[k] == page[k]
  {
    var w := Wrap(WordAt(page, off) + delta);
    WordRoundTrip(w);
    I.PutWord(page, off, w)
  }

  predicate Contained(base: int, t: nat) { base + t - PageDown(base + t) + 8 <= PAGE }

  ghost predicate AllContained(base: int, ts: seq<nat>) { forall i :: 0 <= i < |ts| ==> Contained(base, ts[i]) }

  predicate Apart(t: nat, u: nat) { t + 8 <= u || u + 8 <= t }

  ghost predicate NoOverlap(ts: seq<nat>) { forall i, j :: 0 <= i < j < |ts| ==> Apart(ts[i], ts[j]) }

  /** The page at q after adding delta to the words at the given offsets from the base, in order. */
  ghost function Rebased(ts: seq<nat>, base: int, delta: nat, q: int, page: seq<Byte>): (r: seq<Byte>)
    requires AllContained(base, ts) && |page| == PAGE
    ensures |r| == PAGE
  {
    if ts == [] then page
    else
      var n := |ts| - 1;
      RebasedBy(ts[n], base, delta, q, Rebased(ts[..n], base, delta, q, page))
  }

  /** The page at q after adding delta to one word. */
  ghost function RebasedBy(t: nat, base: int, delta: nat, q: int, page: seq<Byte>): (r: seq<Byte>)
    requires Contained(base, t) && |page| == PAGE
    ensures |r| == PAGE
  {
    if PageDown(base + t) == q then AddWord(page, base + t - q, delta) else page
  }

  lemma RebasedSnoc(ts: seq<nat>, t: nat, base: int, delta: nat, q: int, page: seq<Byte>)
    requires AllContained(base, ts) && Contained(base, t) && |page| == PAGE
    ensures AllContained(base, ts + [t])
    ensures Rebased(ts + [t], base, delta, q, page) == RebasedBy(t, base, delta, q, Rebased(ts, base, delta, q, page))
  {
    hide Contained, RebasedBy;
    assert (ts + [t])[..|ts|] == ts;
  }

  lemma ContainedParts(base: int, ts: seq<nat>, us: seq<nat>)
    requires AllContained(base, ts) && AllContained(base, us)
    ensures AllContained(base, ts + us)
    ensures us != [] ==> AllContained(base, us[..|us| - 1]) && Contained(base, us[|us| - 1])
  {
    hide Contained;
  }

  /** Relocating in two goes. */
  lemma {:induction false} RebasedAppend(ts: seq<nat>, us: seq<nat>, base: int, delta: nat, q: int, page: seq<Byte>)
    requires AllContained(base, ts) && AllContained(base, us) && |page| == PAGE
    ensures AllContained(base, ts + us)
    ensures Rebased(ts + us, base, delta, q, page) == Rebased(us, base, delta, q, Rebased(ts, base, delta, q, page))
    decreases us
  {
    ContainedParts(base, ts, us);
    if us == [] {
      assert ts + us == ts;
    } else {
      hide *;
      var vs, u := us[..|us| - 1], us[|us| - 1];
      assert ts + us == (ts + vs) + [u] && us == vs + [u];
      RebasedAppend(ts, vs, base, delta, q, page);
      RebasedSnoc(ts + vs, u, base, delta, q, page);
      RebasedSnoc(vs, u, base, delta, q, Rebased(ts, base, delta, q, page));
    }
  }

  /** Each word whose place no other entry overlaps has delta added once. */
  lemma {:induction false} RebasedWord(ts: seq<nat>, base: int, delta: nat, page: seq<Byte>, i: nat)
    requires AllContained(base, ts) && NoOverlap(ts) && |page| == PAGE && i < |ts|
    ensures var t := base + ts[i];
            var q := PageDown(t);
            WordAt(Rebased(ts, base, delta, q, page), t - q) == Wrap(WordAt(page, t - q) + delta)
  {
    hide PageDown, WordAt, AddWord;
    var n, t := |ts| - 1, base + ts[i];
    var q := PageDown(t);
    var before, after := Rebased(ts[..n], base, delta, q, page), Rebased(ts, base, delta, q, page);
    if i == n {
      forall j | 0 <= j < n ensures Apart(ts[j], ts[i]) {}
      RebasedAway(ts[..n], base, delta, q, page, t);
    } else {
      RebasedWord(ts[..n], base, delta, page, i);
      assert Apart(ts[i], ts[n]);
      SameWord(before, after, t - q);
    }
  }

  lemma SameWord(a: seq<Byte>, b: seq<Byte>, off: nat)
    requires |a| == |b| && off + 8 <= |a| && forall k :: off <= k < off + 8 ==> a[k] == b[k]
    ensures WordAt(a, off) == WordAt(b, off)
  {
    assert a[off..off + 8] == b[off..off + 8];
  }

  /** A word away from all entries stays. */
  lemma RebasedAway(ts: seq<nat>, base: int, delta: nat, q: int, page: seq<Byte>, t: int)
    requires AllContained(base, ts) && |page| == PAGE && q <= t && t - q + 8 <= PAGE
    requires forall j :: 0 <= j < |ts| ==> base + ts[j] + 8 <= t || t + 8 <= base + ts[j]
    ensures WordAt(Rebased(ts, base, delta, q, page), t - q) == WordAt(page, t - q)
  {
    hide PageDown, WordAt;
    var after := Rebased(ts, base, delta, q, page);
    forall k | t - q <= k < t - q + 8 ensures after[k] == page[k] { RebasedElsewhere(ts, base, delta, q, page, k); }
    SameWord(after, page, t - q);
  }

  /** A byte that no entry targets stays. */
  lemma {:induction false} RebasedElsewhere(ts: seq<nat>, base: int, delta: nat, q: int, page: seq<Byte>, k: nat)
    requires AllContained(base, ts) && |page| == PAGE && k < PAGE
    requires forall j :: 0 <= j < |ts| ==> !(base + ts[j] <= q + k < base + ts[j] + 8)
    ensures Rebased(ts, base, delta, q, page)[k] == page[k]
  {
    hide PageDown, WordAt, AddWord;
    if ts != [] { RebasedElsewhere(ts[..|ts| - 1], base, delta, q, page, k); }
  }

  // ------------------------------------------------------------ two loads compared

  /** The distance by which an image is moved, as a 64-bit word. */
  function Moved(base: int, imageBase: nat): nat { Wrap(base - imageBase) }

  /** A page at q after loading at a base: at its own base an image is not relocated. */
  ghost function Placed(ts: seq<nat>, base: int, imageBase: nat, q: int, page: seq<Byte>): (r: seq<Byte>)
    requires (Moved(base, imageBase) != 0 ==> AllContained(base, ts)) && |page| == PAGE
    ensures |r| == PAGE
  {
    if Moved(base, imageBase) == 0 then page else Rebased(ts, base, Moved(base, imageBase), q, page)
  }

  /** The page at q of an image loaded at a base. */
  ghost function Page(file: seq<Byte>, ps: seq<I.Segment>, ts: seq<nat>, base: int, imageBase: nat, q: int): (r: seq<Byte>)
    requires Moved(base, imageBase) != 0 ==> AllContained(base, ts)
    ensures |r| == PAGE
  {
    Placed(ts, base, imageBase, q, I.ImagePage(file, ps, base, {}, q))
  }

  /** Whether a word is contained in its page does not depend on the base. */
  lemma ContainedShift(l: int, m: int, ts: seq<nat>)
    requires l % PAGE == 0 && m % PAGE == 0 && AllContained(l, ts)
    ensures AllContained(m, ts)
  {
    forall i | 0 <= i < |ts| ensures Contained(m, ts[i]) {
      assert Contained(l, ts[i]);
      PageShift(ts[i], l);
      PageShift(ts[i], m);
    }
  }

  /** Adding to a word loses nothing. */
  lemma AddWordInjective(p1: seq<Byte>, p2: seq<Byte>, off: nat, delta: nat)
    requires |p1| == |p2| && off + 8 <= |p1| && AddWord(p1, off, delta) == AddWord(p2, off, delta)
    ensures p1 == p2
  {
    hide WordAt, AddWord;
    WrapCancel(WordAt(p1, off), WordAt(p2, off), delta);
    WordDetermines(p1, p2, off);
    forall k | 0 <= k < |p1| ensures p1[k] == p2[k] {
      if !(off <= k < off + 8) { assert p1[k] == AddWord(p1, off, delta)[k] == p2[k]; }
    }
  }

  lemma WordDetermines(p1: seq<Byte>, p2: seq<Byte>, off: nat)
    requires |p1| == |p2| && off + 8 <= |p1| && WordAt(p1, off) == WordAt(p2, off)
    ensures forall k :: off <= k < off + 8 ==> p1[k] == p2[k]
  {
    var s1, s2 := p1[off..off + 8], p2[off..off + 8];
    DecodeInjective(s1, s2);
    forall k | off <= k < off + 8 ensures p1[k] == p2[k] { assert s1[k - off] == s2[k - off]; }
  }

  /** Neither does relocating a page. */
  lemma {:induction false} RebasedInjective(ts: seq<nat>, base: int, delta: nat, q: int, p1: seq<Byte>, p2: seq<Byte>)
    requires AllContained(base, ts) && |p1| == |p2| == PAGE && Rebased(ts, base, delta, q, p1) == Rebased(ts, base, delta, q, p2)
    ensures p1 == p2
  {
    hide AddWord, PageDown;
    if ts != [] {
      var n := |ts| - 1;
      var t := base + ts[n];
      if PageDown(t) == q {
        AddWordInjective(Rebased(ts[..n], base, delta, q, p1), Rebased(ts[..n], base, delta, q, p2), t - q, delta);
      }
      RebasedInjective(ts[..n], base, delta, q, p1, p2);
    }
  }

  /** A relocated word is the image's word plus the distance, at the image's own base too. */
  lemma PageWord(file: seq<Byte>, ps: seq<I.Segment>, ts: seq<nat>, base: int, imageBase: nat, i: nat)
    requires AllContained(base, ts) && NoOverlap(ts) && i < |ts|
    ensures var t := base + ts[i];
            var q := PageDown(t);
            WordAt(Page(file, ps, ts, base, imageBase, q), t - q) == Wrap(WordAt(I.ImagePage(file, ps, base, {}, q), t - q) + Moved(base, imageBase))
  {
    hide WordAt, PageDown;
    RebasedWord(ts, base, Moved(base, imageBase), I.ImagePage(file, ps, base, {}, PageDown(base + ts[i])), i);
  }

  lemma ShiftPage(file: seq<Byte>, ps: seq<I.Segment>, l: int, m: int, q: int)
    requires l % PAGE == 0 && m % PAGE == 0
    ensures I.ImagePage(file, ps, l, {}, q + l) == I.ImagePage(file, ps, m, {}, q + m)
  {
    var a, b := I.ImagePage(file, ps, l, {}, q + l), I.ImagePage(file, ps, m, {}, q + m);
    forall k | 0 <= k < PAGE ensures a[k] == b[k] { ShiftImage(file, ps, l, m, q + k); }
  }

  /** The same word of an image at two bases differs by the distance of the bases. */
  lemma WordsDiffer(file: seq<Byte>, ps: seq<I.Segment>, ts: seq<nat>, l: int, m: int, imageBase: nat, i: nat)
    requires l % PAGE == 0 && m % PAGE == 0 && AllContained(l, ts) && AllContained(m, ts) && NoOverlap(ts) && i < |ts|
    ensures Moves(file, ps, ts, l, m, imageBase, ts[i], PageDown(ts[i]))
  {
    PageShift(ts[i], l);
    PageShift(ts[i], m);
    ShiftPage(file, ps, l, m, PageDown(ts[i]));
    hide *;
    WordsDifferAt(file, ps, ts, l, m, imageBase, i, PageDown(ts[i]));
  }

  ghost predicate Moves(file: seq<Byte>, ps: seq<I.Segment>, ts: seq<nat>, l: int, m: int, imageBase: nat, t: nat, q: int)
    requires AllContained(l, ts) && AllContained(m, ts)
  {
    && q <= t && t - q + 8 <= PAGE
    && Wrap(WordAt(Page(file, ps, ts, l, imageBase, q + l), t - q) - WordAt(Page(file, ps, ts, m, imageBase, q + m), t - q)) == Wrap(l - m)
  }

  lemma WordsDifferAt(file: seq<Byte>, ps: seq<I.Segment>, ts: seq<nat>, l: int, m: int, imageBase: nat, i: nat, q: int)
    requires AllContained(l, ts) && AllContained(m, ts) && NoOverlap(ts) && i < |ts|
    requires PageDown(ts[i] + l) == q + l && PageDown(ts[i] + m) == q + m
    requires I.ImagePage(file, ps, l, {}, q + l) == I.ImagePage(file, ps, m, {}, q + m)
    ensures Moves(file, ps, ts, l, m, imageBase, ts[i], q)
  {
    hide WordAt, PageDown, Page, I.ImagePage, Wrap, Moved, NoOverlap;
    assert Contained(l, ts[i]);
    PageWord(file, ps, ts, l, imageBase, i);
    PageWord(file, ps, ts, m, imageBase, i);
    Distance(WordAt(I.ImagePage(file, ps, l, {}, q + l), ts[i] - q), l, m, imageBase);
  }

  lemma Distance(w: nat, l: int, m: int, imageBase: nat)
    ensures Wrap(Wrap(w + Moved(l, imageBase)) - Wrap(w + Moved(m, imageBase))) == Wrap(l - m)
  {
    hide Wrap;
    WrapSum(w, l - imageBase);
    WrapSum(w, m - imageBase);
    WrapDiff(w + (l - imageBase), w + (m - imageBase));
  }

  /** No relocated word has the byte at offset x. */
  ghost predicate Away(ts: seq<nat>, x: int) { forall j :: 0 <= j < |ts| ==> !(ts[j] <= x < ts[j] + 8) }

  /** All other bytes are equal. */
  lemma OtherBytesEqual(file: seq<Byte>, ps: seq<I.Segment>, ts: seq<nat>, l: int, m: int, imageBase: nat, q: int, k: nat)
    requires l % PAGE == 0 && m % PAGE == 0 && k < PAGE
    requires (Moved(l, imageBase) != 0 ==> AllContained(l, ts)) && (Moved(m, imageBase) != 0 ==> AllContained(m, ts))
    requires Away(ts, q + k)
    ensures Page(file, ps, ts, l, imageBase, q + l)[k] == Page(file, ps, ts, m, imageBase, q + m)[k]
  {
    hide Rebased;
    ShiftPage(file, ps, l, m, q);
    if Moved(l, imageBase) != 0 { RebasedElsewhere(ts, l, Moved(l, imageBase), q + l, I.ImagePage(file, ps, l, {}, q + l), k); }
    if Moved(m, imageBase) != 0 { RebasedElsewhere(ts, m, Moved(m, imageBase), q + m, I.ImagePage(file, ps, m, {}, q + m), k); }
  }
}

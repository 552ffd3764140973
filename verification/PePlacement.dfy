/** Where a loaded PE image has its bytes, its rights and its relocated words, said of the fields of its
    section headers and relocation entries alone. */
module PePlacement {
  import opened Common
  import opened Bytes
  import I = ElfImage
  import E = ElfLoader
  import P = PeImage
  import L = PeLoader

  // ------------------------------------------------------------ the parts of an image

  predicate Kept(s: L.Section) { !s.discardable && (s.vsize > 0 || s.rawSize > 0) }

  /** A section's size in memory is its size in the file if it names none. */
  function SizeOf(s: L.Section): nat { if s.vsize == 0 then s.rawSize else s.vsize }

  /** The section has file bytes for the address x, counted from the base. */
  predicate HasRaw(s: L.Section, x: int) { Kept(s) && s.rva <= x < s.rva + s.rawSize }

  /** Byte k of section i lies in memory and in the file, and no later section has file bytes in its place. */
  predicate Own(pe: L.Pe, i: nat, k: nat)
    requires i < |pe.sections|
  {
    var s := pe.sections[i];
    && Kept(s) && k < s.rawSize && k < SizeOf(s) && s.rawAt + s.rawSize <= |pe.file|
    && forall j :: i < j < |pe.sections| ==> !HasRaw(pe.sections[j], s.rva + k)
  }

  /** No section and no header page has file bytes for the address. */
  predicate NoRaw(pe: L.Pe, x: int) {
    && (forall j :: 0 <= j < |pe.sections| ==> !HasRaw(pe.sections[j], x))
    && !(0 <= x < PageUp(pe.headers) && x < |pe.file|)
  }

  /** The parts of the headers and of the first n sections. */
  function Upto(pe: L.Pe, n: nat): seq<I.Segment>
    requires n <= |pe.sections|
  {
    L.PartsOf(|pe.file|, pe.headers, pe.sections[..n])
  }

  lemma UptoStep(pe: L.Pe, n: nat)
    requires n < |pe.sections|
    ensures Upto(pe, n + 1) == if Kept(pe.sections[n]) then Upto(pe, n) + [L.SectionPart(pe.sections[n])] else Upto(pe, n)
  {
    assert pe.sections[..n + 1][..n] == pe.sections[..n];
  }

  /** A part has a byte only where it has file bytes. */
  lemma CoversWithin(fileLen: nat, p: I.Segment, base: int, a: int)
    ensures I.Covers(fileLen, p, base, a) ==> p.vaddr + base <= a < p.vaddr + base + p.filesz && a - base - p.vaddr + p.offset < fileLen
  {
    hide I.HasPage, PageDown;
  }

  lemma ImageSnoc(file: seq<Byte>, ps: seq<I.Segment>, p: I.Segment, base: int, a: int)
    ensures I.Image(file, ps + [p], base, {}, a)
            == if I.Covers(|file|, p, base, a) then I.SourceByte(file, p, base, a) else I.Image(file, ps, base, {}, a)
  {
    hide I.Covers;
    assert (ps + [p])[..|ps|] == ps;
  }

  /** The byte at x of what the first n sections make of the memory. */
  ghost function ByteUpto(pe: L.Pe, base: int, x: int, n: nat): Byte
    requires n <= |pe.sections|
  {
    I.Image(pe.file, Upto(pe, n), base, {}, base + x)
  }

  /** A section leaves the bytes alone for which it has none in the file. */
  lemma NextSection(pe: L.Pe, base: int, x: int, n: nat)
    requires n < |pe.sections| && !HasRaw(pe.sections[n], x)
    ensures ByteUpto(pe, base, x, n + 1) == ByteUpto(pe, base, x, n)
  {
    var p := L.SectionPart(pe.sections[n]);
    UptoStep(pe, n);
    CoversWithin(|pe.file|, p, base, base + x);
    hide Upto, I.Covers;
    if Kept(pe.sections[n]) { ImageSnoc(pe.file, Upto(pe, n), p, base, base + x); }
    hide I.Image;
  }

  lemma OwnIsCovered(pe: L.Pe, base: int, i: nat, k: nat)
    requires i < |pe.sections| && Own(pe, i, k)
    ensures I.Covers(|pe.file|, L.SectionPart(pe.sections[i]), base, base + pe.sections[i].rva + k)
  {
    var p, a := L.SectionPart(pe.sections[i]), base + pe.sections[i].rva + k;
    E.OnPageIff(p, base, PageDown(a));
    hide I.HasPage, PageDown;
  }

  lemma OwnSection(pe: L.Pe, base: int, i: nat, k: nat)
    requires i < |pe.sections| && Own(pe, i, k)
    ensures ByteUpto(pe, base, pe.sections[i].rva + k, i + 1) == pe.file[pe.sections[i].rawAt + k]
  {
    var p, a := L.SectionPart(pe.sections[i]), base + pe.sections[i].rva + k;
    UptoStep(pe, i);
    OwnIsCovered(pe, base, i, k);
    hide Upto, I.Covers;
    ImageSnoc(pe.file, Upto(pe, i), p, base, a);
    hide I.Image;
  }

  /** What the first n sections, section i among them, have at byte k of section i. */
  lemma {:induction false} OwnByte(pe: L.Pe, base: int, i: nat, k: nat, n: nat)
    requires i < n <= |pe.sections| && Own(pe, i, k)
    ensures ByteUpto(pe, base, pe.sections[i].rva + k, n) == pe.file[pe.sections[i].rawAt + k]
    decreases n
  {
    hide ByteUpto, HasRaw, Kept;
    if i == n - 1 {
      OwnSection(pe, base, i, k);
    } else {
      NextSection(pe, base, pe.sections[i].rva + k, n - 1);
      OwnByte(pe, base, i, k, n - 1);
    }
  }

  lemma {:induction false} NobodysByte(pe: L.Pe, base: int, x: int, n: nat)
    requires n <= |pe.sections| && NoRaw(pe, x)
    ensures ByteUpto(pe, base, x, n) == 0
  {
    if n == 0 {
      var p := L.HeaderPart(|pe.file|, pe.headers);
      assert Upto(pe, 0) == [] + [p];
      CoversWithin(|pe.file|, p, base, base + x);
      hide Upto, I.Covers;
      ImageSnoc(pe.file, [], p, base, base + x);
    } else {
      hide ByteUpto, HasRaw, Kept;
      NextSection(pe, base, x, n - 1);
      NobodysByte(pe, base, x, n - 1);
    }
  }

  // ------------------------------------------------------------ pages and rights

  /** Section s has an address on the page at q. */
  predicate OnPage(s: L.Section, base: int, q: int) {
    Kept(s) && q % PAGE == 0 && base + s.rva < q + PAGE && q < base + s.rva + SizeOf(s)
  }

  /** So have the headers. */
  predicate HeadersOn(pe: L.Pe, base: int, q: int) { q % PAGE == 0 && base < q + PAGE && q < base + PageUp(pe.headers) }

  /** Of the first n sections, one with an address on the page, a writable one, an executable one. */
  ghost predicate SomeOn(pe: L.Pe, base: int, q: int, n: nat)
    requires n <= |pe.sections|
  {
    exists i :: 0 <= i < n && OnPage(pe.sections[i], base, q)
  }

  ghost predicate SomeWritable(pe: L.Pe, base: int, q: int, n: nat)
    requires n <= |pe.sections|
  {
    exists i :: 0 <= i < n && OnPage(pe.sections[i], base, q) && pe.sections[i].writable
  }

  ghost predicate SomeExecutable(pe: L.Pe, base: int, q: int, n: nat)
    requires n <= |pe.sections|
  {
    exists i :: 0 <= i < n && OnPage(pe.sections[i], base, q) && pe.sections[i].executable
  }

  lemma SomeStep(pe: L.Pe, base: int, q: int, n: nat)
    requires n < |pe.sections|
    ensures SomeOn(pe, base, q, n + 1) <==> SomeOn(pe, base, q, n) || OnPage(pe.sections[n], base, q)
    ensures SomeWritable(pe, base, q, n + 1) <==> SomeWritable(pe, base, q, n) || (OnPage(pe.sections[n], base, q) && pe.sections[n].writable)
    ensures SomeExecutable(pe, base, q, n + 1) <==> SomeExecutable(pe, base, q, n) || (OnPage(pe.sections[n], base, q) && pe.sections[n].executable)
  {
    hide OnPage;
  }

  lemma {:induction false} PagesUpto(pe: L.Pe, base: int, q: int, n: nat)
    requires n <= |pe.sections|
    ensures I.AnyHas(Upto(pe, n), base, q) <==> HeadersOn(pe, base, q) || SomeOn(pe, base, q, n)
    ensures I.AnyWritable(Upto(pe, n), base, q) <==> SomeWritable(pe, base, q, n)
    ensures I.AnyExecutable(Upto(pe, n), base, q) <==> SomeExecutable(pe, base, q, n)
  {
    if n == 0 {
      var p := L.HeaderPart(|pe.file|, pe.headers);
      assert Upto(pe, 0) == [p];
      E.OnPageIff(p, base, q);
      hide I.HasPage;
      assert [p][0] == p;
    } else {
      UptoStep(pe, n - 1);
      E.OnPageIff(L.SectionPart(pe.sections[n - 1]), base, q);
      assert Kept(pe.sections[n - 1]) ==> (E.OnPage(L.SectionPart(pe.sections[n - 1]), base, q) <==> OnPage(pe.sections[n - 1], base, q));
      assert !Kept(pe.sections[n - 1]) ==> !OnPage(pe.sections[n - 1], base, q);
      hide Upto, I.HasPage, I.AnyHas, I.AnyWritable, I.AnyExecutable, SomeOn, SomeWritable, SomeExecutable, OnPage, E.OnPage, HeadersOn, Kept;
      PagesUpto(pe, base, q, n - 1);
      SomeStep(pe, base, q, n - 1);
      AnySnoc(Upto(pe, n - 1), L.SectionPart(pe.sections[n - 1]), base, q);
    }
  }

  lemma AnySnoc(ps: seq<I.Segment>, p: I.Segment, base: int, q: int)
    ensures I.AnyHas(ps + [p], base, q) <==> I.AnyHas(ps, base, q) || I.HasPage(p, base, q)
    ensures I.AnyWritable(ps + [p], base, q) <==> I.AnyWritable(ps, base, q) || (I.HasPage(p, base, q) && p.writable)
    ensures I.AnyExecutable(ps + [p], base, q) <==> I.AnyExecutable(ps, base, q) || (I.HasPage(p, base, q) && p.executable)
  {
    hide I.HasPage;
    assert (ps + [p])[|ps|] == p;
    forall j | 0 <= j < |ps| ensures (ps + [p])[j] == ps[j] {}
  }

  /** A loaded image has mapped the pages of its headers and of the sections it keeps, and no others: writable if
      one of these sections is, else executable if one is. */
  lemma PagesPlaced(l: E.Loader, pe: L.Pe, base: int, q: int)
    requires l.PagesAre(pe.Parts(), base)
    ensures q in l.child <==> HeadersOn(pe, base, q) || SomeOn(pe, base, q, |pe.sections|)
    ensures q in l.child ==>
              && l.child[q].flags.writable == SomeWritable(pe, base, q, |pe.sections|)
              && l.child[q].flags.executable == (!SomeWritable(pe, base, q, |pe.sections|) && SomeExecutable(pe, base, q, |pe.sections|))
  {
    assert pe.sections[..|pe.sections|] == pe.sections;
    PagesUpto(pe, base, q, |pe.sections|);
    hide I.AnyHas, I.AnyWritable, I.AnyExecutable, L.PartsOf, SomeOn, SomeWritable, SomeExecutable, HeadersOn;
  }

  // ------------------------------------------------------------ bytes and words

  /** The entry relocates the word at x, counted from the base. */
  predicate Relocates(rva: nat, r: L.Reloc, x: int) { r.kind == L.Dir64 && x == rva + r.offset }

  ghost predicate InBlock(b: L.Block, x: int) { exists e :: 0 <= e < |b.entries| && Relocates(b.rva, b.entries[e], x) }

  ghost predicate IsTarget(blocks: seq<L.Block>, x: int) { exists b :: 0 <= b < |blocks| && InBlock(blocks[b], x) }

  lemma {:induction false} BlockTargetsAre(rva: nat, es: seq<L.Reloc>, x: int)
    ensures x in L.BlockTargets(rva, es) <==> exists e :: 0 <= e < |es| && Relocates(rva, es[e], x)
  {
    if es != [] {
      var n := |es| - 1;
      BlockTargetsAre(rva, es[..n], x);
      assert forall e :: 0 <= e < n ==> es[..n][e] == es[e];
    }
  }

  lemma {:induction false} TargetsAre(blocks: seq<L.Block>, x: int)
    ensures x in L.TargetsOf(blocks) <==> IsTarget(blocks, x)
  {
    if blocks != [] {
      var n := |blocks| - 1;
      TargetsAre(blocks[..n], x);
      BlockTargetsAre(blocks[n].rva, blocks[n].entries, x);
      var before, last := L.TargetsOf(blocks[..n]), L.BlockTargets(blocks[n].rva, blocks[n].entries);
      assert L.TargetsOf(blocks) == before + last && (x in last <==> InBlock(blocks[n], x));
      hide L.TargetsOf, L.BlockTargets, IsTarget, InBlock;
      OneMoreBlock(blocks, x);
    }
  }

  lemma OneMoreBlock(blocks: seq<L.Block>, x: int)
    requires blocks != []
    ensures IsTarget(blocks, x) <==> IsTarget(blocks[..|blocks| - 1], x) || InBlock(blocks[|blocks| - 1], x)
  {
    hide InBlock;
    var n := |blocks| - 1;
    assert forall b :: 0 <= b < n ==> blocks[..n][b] == blocks[b];
  }

  /** No relocation touches the byte at x. */
  ghost predicate Untouched(pe: L.Pe, x: int) { forall t: int :: IsTarget(pe.blocks, t) ==> x < t || t + 8 <= x }

  /** An address in the memory of a kept section is on a mapped page. */
  lemma OnMappedPage(l: E.Loader, pe: L.Pe, base: int, i: nat, k: nat)
    requires L.IsLoaded(l, pe, base) && i < |pe.sections| && Kept(pe.sections[i]) && k < SizeOf(pe.sections[i])
    ensures PageDown(base + pe.sections[i].rva + k) in l.child
  {
    var q := PageDown(base + pe.sections[i].rva + k);
    assert OnPage(pe.sections[i], base, q) && l.PagesAre(pe.Parts(), base);
    hide L.IsLoaded, HeadersOn, OnPage, E.Loader.PagesAre, PageDown;
    PagesPlaced(l, pe, base, q);
  }

  /** An untouched byte of a loaded image is the one its sections make. */
  lemma UntouchedByte(l: E.Loader, pe: L.Pe, base: int, x: int)
    requires L.IsLoaded(l, pe, base) && PageDown(base + x) in l.child && (P.Moved(base, pe.imageBase) == 0 || Untouched(pe, x))
    ensures E.ByteIs(l, base + x, ByteUpto(pe, base, x, |pe.sections|))
  {
    assert pe.sections[..|pe.sections|] == pe.sections;
    var q, ts := PageDown(base + x), pe.Targets();
    var page := I.ImagePage(pe.file, pe.Parts(), base, {}, q);
    assert page[base + x - q] == ByteUpto(pe, base, x, |pe.sections|);
    hide I.Image, I.ImagePage, L.PartsOf, E.Loader.PagesAre, E.Loader.Valid, PageDown, ByteUpto;
    if P.Moved(base, pe.imageBase) != 0 {
      forall j | 0 <= j < |ts| ensures !(base + ts[j] <= base + x < base + ts[j] + 8) {
        TargetsAre(pe.blocks, ts[j]);
      }
      P.RebasedElsewhere(ts, base, P.Moved(base, pe.imageBase), q, page, base + x - q);
    }
  }

  lemma AtHome(imageBase: nat)
    ensures P.Moved(imageBase, imageBase) == 0
  {}

  /** A loaded image has a section's file bytes at the section's address: each byte that is its own and that no
      relocation touches, all of them at the image's own base. */
  lemma SectionBytes(l: E.Loader, pe: L.Pe, base: int, i: nat, k: nat)
    requires L.IsLoaded(l, pe, base) && i < |pe.sections| && Own(pe, i, k)
    requires base == pe.imageBase || Untouched(pe, pe.sections[i].rva + k)
    ensures E.ByteIs(l, base + pe.sections[i].rva + k, pe.file[pe.sections[i].rawAt + k])
  {
    hide Untouched, ByteUpto, PageDown, E.ByteIs, L.IsLoaded, HasRaw, P.Moved;
    OwnByte(pe, base, i, k, |pe.sections|);
    OnMappedPage(l, pe, base, i, k);
    AtHome(pe.imageBase);
    UntouchedByte(l, pe, base, pe.sections[i].rva + k);
  }

  /** And zero where the memory has no file bytes. */
  lemma ZeroBytes(l: E.Loader, pe: L.Pe, base: int, i: nat, k: nat)
    requires L.IsLoaded(l, pe, base) && i < |pe.sections| && Kept(pe.sections[i]) && k < SizeOf(pe.sections[i])
    requires NoRaw(pe, pe.sections[i].rva + k) && (base == pe.imageBase || Untouched(pe, pe.sections[i].rva + k))
    ensures E.ByteIs(l, base + pe.sections[i].rva + k, 0)
  {
    hide Untouched, ByteUpto, PageDown, E.ByteIs, L.IsLoaded, NoRaw, P.Moved, Kept, SizeOf;
    NobodysByte(pe, base, pe.sections[i].rva + k, |pe.sections|);
    OnMappedPage(l, pe, base, i, k);
    AtHome(pe.imageBase);
    UntouchedByte(l, pe, base, pe.sections[i].rva + k);
  }

  /** The eight bytes from k on are the section's own. */
  predicate OwnWord(pe: L.Pe, i: nat, k: nat)
    requires i < |pe.sections|
  {
    pe.sections[i].rawAt + k + 8 <= |pe.file| && forall m :: k <= m < k + 8 ==> Own(pe, i, m)
  }

  /** A relocated word is the file's word plus the distance from the image's own base. */
  lemma RelocatedWords(l: E.Loader, pe: L.Pe, base: int, b: nat, e: nat, i: nat, k: nat)
    requires L.IsLoaded(l, pe, base) && P.NoOverlap(pe.Targets()) && i < |pe.sections|
    requires b < |pe.blocks| && e < |pe.blocks[b].entries| && Relocates(pe.blocks[b].rva, pe.blocks[b].entries[e], pe.sections[i].rva + k)
    requires OwnWord(pe, i, k)
    requires P.Moved(base, pe.imageBase) != 0
    ensures E.WordIs(l, base + pe.sections[i].rva + k,
                     (Decode(pe.file[pe.sections[i].rawAt + k..pe.sections[i].rawAt + k + 8]) + base - pe.imageBase) % 0x1_0000_0000_0000_0000)
  {
    hide L.IsLoaded, P.NoOverlap, P.Moved, HasRaw, L.PartsOf, L.TargetsOf, I.ImagePage, PageDown, Relocates, P.WordAt, E.WordIs, Wrap, Decode;
    var t := pe.sections[i].rva + k;
    var n := TargetIndex(pe, b, e, t);
    OnMappedPage(l, pe, base, i, k) by { assert Own(pe, i, k); }
    LoadedWord(l, pe, base, n);
    FileWord(pe, base, i, k, PageDown(base + t));
    WordSum(Decode(pe.file[pe.sections[i].rawAt + k..pe.sections[i].rawAt + k + 8]), base, pe.imageBase);
  }

  lemma TargetIndex(pe: L.Pe, b: nat, e: nat, t: int) returns (n: nat)
    requires b < |pe.blocks| && e < |pe.blocks[b].entries| && Relocates(pe.blocks[b].rva, pe.blocks[b].entries[e], t)
    ensures n < |pe.Targets()| && pe.Targets()[n] == t
  {
    hide L.TargetsOf;
    assert InBlock(pe.blocks[b], t);
    TargetsAre(pe.blocks, t);
    n :| n < |pe.Targets()| && pe.Targets()[n] == t;
  }

  lemma LoadedWord(l: E.Loader, pe: L.Pe, base: int, n: nat)
    requires L.IsLoaded(l, pe, base) && P.NoOverlap(pe.Targets()) && n < |pe.Targets()| && P.Moved(base, pe.imageBase) != 0
    requires PageDown(base + pe.Targets()[n]) in l.child
    ensures var a, q := base + pe.Targets()[n], PageDown(base + pe.Targets()[n]);
            && a - q + 8 <= PAGE
            && E.WordIs(l, a, Wrap(P.WordAt(I.ImagePage(pe.file, pe.Parts(), base, {}, q), a - q) + P.Moved(base, pe.imageBase)))
  {
    hide L.PartsOf, L.TargetsOf, I.Image, P.NoOverlap, E.Loader.PagesAre, E.Loader.Valid, PageDown, P.Moved;
    assert P.AllContained(base, pe.Targets()) && P.Contained(base, pe.Targets()[n]);
    hide P.Page, I.ImagePage, P.AllContained;
    P.PageWord(pe.file, pe.Parts(), pe.Targets(), base, pe.imageBase, n);
  }

  lemma WordSum(w: nat, base: int, imageBase: nat)
    ensures Wrap(w + P.Moved(base, imageBase)) == (w + base - imageBase) % 0x1_0000_0000_0000_0000
  {
    WrapSum(w, base - imageBase);
  }

  /** The image's page has the section's word. */
  lemma FileWord(pe: L.Pe, base: int, i: nat, k: nat, q: int)
    requires i < |pe.sections| && OwnWord(pe, i, k)
    requires q <= base + pe.sections[i].rva + k && base + pe.sections[i].rva + k + 8 <= q + PAGE
    ensures P.WordAt(I.ImagePage(pe.file, pe.Parts(), base, {}, q), base + pe.sections[i].rva + k - q)
            == Decode(pe.file[pe.sections[i].rawAt + k..pe.sections[i].rawAt + k + 8])
  {
    assert pe.sections[..|pe.sections|] == pe.sections;
    var page, off, from := I.ImagePage(pe.file, pe.Parts(), base, {}, q), base + pe.sections[i].rva + k - q, pe.sections[i].rawAt + k;
    hide I.Image, L.PartsOf;
    forall m | off <= m < off + 8 ensures page[m] == pe.file[from + (m - off)] {
      OwnByte(pe, base, i, k + (m - off), |pe.sections|);
    }
    hide *;
    assert page[off..off + 8] == pe.file[from..from + 8];
  }
}

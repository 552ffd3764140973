/** What loading an ELF image must put into memory: the bytes of its segments and zeros elsewhere. */
module ElfImage {
  import opened Common
  import opened Bytes

  /** A PT_LOAD program header. */
  datatype Segment = Segment(vaddr: nat, offset: nat, filesz: nat, memsz: nat, writable: bool, executable: bool)

  function Start(p: Segment, delta: int): int { PageDown(p.vaddr + delta) }

  function End(p: Segment, delta: int): int { PageUp(p.vaddr + delta + p.memsz) }

  /** The page at q belongs to the segment. */
  predicate HasPage(p: Segment, delta: int, q: int) { Start(p, delta) <= q < End(p, delta) && q % PAGE == 0 }

  /** The part of a page that the segment's file bytes fill. */
  function CopyLo(p: Segment, delta: int, q: int): int { if q > p.vaddr + delta then q else p.vaddr + delta }

  function CopyHi(p: Segment, delta: int, q: int): int {
    if q + PAGE < p.vaddr + delta + p.filesz then q + PAGE else p.vaddr + delta + p.filesz
  }

  /** That part is not empty and comes from within the file. */
  predicate Copies(fileLen: nat, p: Segment, delta: int, q: int) {
    CopyLo(p, delta, q) < CopyHi(p, delta, q) && CopyHi(p, delta, q) - delta - p.vaddr + p.offset <= fileLen
  }

  /** The segment provides the byte at address a. */
  predicate Covers(fileLen: nat, p: Segment, delta: int, a: int) {
    && HasPage(p, delta, PageDown(a)) && Copies(fileLen, p, delta, PageDown(a))
    && CopyLo(p, delta, PageDown(a)) <= a < CopyHi(p, delta, PageDown(a))
  }

  function SourceByte(file: seq<Byte>, p: Segment, delta: int, a: int): Byte
    requires Covers(|file|, p, delta, a)
  {
    file[a - delta - p.vaddr + p.offset]
  }

  /** The byte at address a: from the last segment that provides it, else zero.  `missed` names the
      copies, by segment and page, that did not take place. */
  function Image(file: seq<Byte>, ps: seq<Segment>, delta: int, missed: set<(nat, int)>, a: int): Byte {
    if ps == [] then 0
    else
      var i := |ps| - 1;
      if Covers(|file|, ps[i], delta, a) && (i, PageDown(a)) !in missed then SourceByte(file, ps[i], delta, a)
      else Image(file, ps[..i], delta, missed, a)
  }

  lemma ImageStep(file: seq<Byte>, ps: seq<Segment>, i: nat, delta: int, missed: set<(nat, int)>, a: int)
    requires i < |ps|
    ensures Image(file, ps[..i + 1], delta, missed, a) ==
            if Covers(|file|, ps[i], delta, a) && (i, PageDown(a)) !in missed then SourceByte(file, ps[i], delta, a)
            else Image(file, ps[..i], delta, missed, a)
  {
    assert ps[..i + 1][..i] == ps[..i];
  }

  /** A page that none of the segments has is zero. */
  lemma {:induction false} ImageZero(file: seq<Byte>, ps: seq<Segment>, delta: int, missed: set<(nat, int)>, a: int)
    requires forall j :: 0 <= j < |ps| ==> !HasPage(ps[j], delta, PageDown(a))
    ensures Image(file, ps, delta, missed, a) == 0
  {
    if ps != [] { ImageZero(file, ps[..|ps| - 1], delta, missed, a); }
  }

  /** What is missed of later segments does not matter. */
  lemma {:induction false} ImageMissed(file: seq<Byte>, ps: seq<Segment>, delta: int, missed: set<(nat, int)>, more: set<(nat, int)>, a: int)
    requires missed <= more && forall m :: m in more - missed ==> |ps| <= m.0 || m.1 != PageDown(a)
    ensures Image(file, ps, delta, missed, a) == Image(file, ps, delta, more, a)
  {
    if ps != [] { ImageMissed(file, ps[..|ps| - 1], delta, missed, more, a); }
  }

  // ------------------------------------------------------------ well-formed images

  /** In-file segments with filesz <= memsz whose file-backed bytes do not overlap. */
  ghost predicate WellFormed(fileLen: nat, ps: seq<Segment>) {
    && (forall i :: 0 <= i < |ps| ==> ps[i].filesz <= ps[i].memsz && ps[i].offset + ps[i].filesz <= fileLen)
    && (forall i, j :: 0 <= i < j < |ps| ==> ps[i].vaddr + ps[i].filesz <= ps[j].vaddr || ps[j].vaddr + ps[j].filesz <= ps[i].vaddr)
  }

  /** Segment i holds a file byte for address a. */
  predicate FileBacked(p: Segment, delta: int, a: int) { p.vaddr + delta <= a < p.vaddr + delta + p.filesz }

  lemma CoversIff(fileLen: nat, p: Segment, delta: int, a: int)
    requires p.filesz <= p.memsz && p.offset + p.filesz <= fileLen
    ensures Covers(fileLen, p, delta, a) <==> FileBacked(p, delta, a)
  {
    if FileBacked(p, delta, a) {
      PageOf(Start(p, delta), p.vaddr + delta);
    }
  }

  /** Every file-backed byte of a well-formed image is its file byte. */
  lemma {:induction false} FileBytes(file: seq<Byte>, ps: seq<Segment>, delta: int, a: int, i: nat)
    requires WellFormed(|file|, ps) && i < |ps| && FileBacked(ps[i], delta, a)
    ensures Image(file, ps, delta, {}, a) == file[a - delta - ps[i].vaddr + ps[i].offset]
  {
    hide HasPage, Copies, CopyLo, CopyHi, PageDown;
    var n := |ps| - 1;
    CoversIff(|file|, ps[n], delta, a);
    if i < n {
      assert WellFormed(|file|, ps[..n]);
      FileBytes(file, ps[..n], delta, a, i);
    }
  }

  /** Every other byte is zero. */
  lemma {:induction false} ZeroBytes(file: seq<Byte>, ps: seq<Segment>, delta: int, a: int)
    requires WellFormed(|file|, ps) && forall i :: 0 <= i < |ps| ==> !FileBacked(ps[i], delta, a)
    ensures Image(file, ps, delta, {}, a) == 0
  {
    if ps != [] {
      var n := |ps| - 1;
      CoversIff(|file|, ps[n], delta, a);
      assert WellFormed(|file|, ps[..n]);
      ZeroBytes(file, ps[..n], delta, a);
    }
  }

  // ------------------------------------------------------------ page by page

  /** The page at q as the image has it. */
  function ImagePage(file: seq<Byte>, ps: seq<Segment>, delta: int, missed: set<(nat, int)>, q: int): (r: seq<Byte>)
    ensures |r| == PAGE && forall k :: 0 <= k < PAGE ==> r[k] == Image(file, ps, delta, missed, q + k)
  {
    seq<Byte>(PAGE, k => Image(file, ps, delta, missed, q + k))
  }

  function Zeros(): (r: seq<Byte>)
    ensures |r| == PAGE && forall k :: 0 <= k < PAGE ==> r[k] == 0
  {
    seq<Byte>(PAGE, _ => 0)
  }

  /** A page with a segment's file bytes copied into it. */
  function Patch(file: seq<Byte>, p: Segment, delta: int, q: int, page: seq<Byte>): (r: seq<Byte>)
    requires |page| == PAGE
    ensures |r| == PAGE
  {
    if Copies(|file|, p, delta, q) then
      var lo, hi := CopyLo(p, delta, q), CopyHi(p, delta, q);
      page[..lo - q] + file[lo - delta - p.vaddr + p.offset..hi - delta - p.vaddr + p.offset] + page[hi - q..]
    else page
  }

  lemma PatchByte(file: seq<Byte>, p: Segment, delta: int, q: int, page: seq<Byte>, k: nat)
    requires HasPage(p, delta, q) && |page| == PAGE && k < PAGE
    ensures Patch(file, p, delta, q, page)[k] ==
            if Covers(|file|, p, delta, q + k) then SourceByte(file, p, delta, q + k) else page[k]
  {
    CoversOnPage(|file|, p, delta, q, k);
    hide Covers, HasPage;
    if Copies(|file|, p, delta, q) {
      var lo, hi := CopyLo(p, delta, q), CopyHi(p, delta, q);
      SpliceAt(page, lo - q, file[lo - delta - p.vaddr + p.offset..hi - delta - p.vaddr + p.offset], k);
    }
  }

  lemma CoversOnPage(fileLen: nat, p: Segment, delta: int, q: int, k: nat)
    requires HasPage(p, delta, q) && k < PAGE
    ensures Covers(fileLen, p, delta, q + k) <==> Copies(fileLen, p, delta, q) && CopyLo(p, delta, q) <= q + k < CopyHi(p, delta, q)
  {
    PageOf(q, q + k);
    hide PageDown, Start, End, Copies, CopyLo, CopyHi;
  }

  lemma SpliceAt(page: seq<Byte>, at: nat, bytes: seq<Byte>, k: nat)
    requires at + |bytes| <= |page| && k < |page|
    ensures (page[..at] + bytes + page[at + |bytes|..])[k] == if at <= k < at + |bytes| then bytes[k - at] else page[k]
  {}

  /** Copying segment i into its page makes the page that of the first i + 1 segments. */
  lemma PatchPage(file: seq<Byte>, ps: seq<Segment>, i: nat, delta: int, missed: set<(nat, int)>, q: int)
    requires i < |ps| && HasPage(ps[i], delta, q) && (i, q) !in missed
    ensures Patch(file, ps[i], delta, q, ImagePage(file, ps[..i], delta, missed, q)) == ImagePage(file, ps[..i + 1], delta, missed, q)
  {
    hide PageDown, Start, End, Covers, Copies, CopyLo, CopyHi, Patch, Image, SourceByte;
    var old' := ImagePage(file, ps[..i], delta, missed, q);
    var new' := ImagePage(file, ps[..i + 1], delta, missed, q);
    forall k | 0 <= k < PAGE ensures Patch(file, ps[i], delta, q, old')[k] == new'[k] {
      PageOf(q, q + k);
      PatchByte(file, ps[i], delta, q, old', k);
      ImageStep(file, ps, i, delta, missed, q + k);
    }
  }

  /** A segment that does not have the page, or whose copy is missed, leaves it alone. */
  lemma SamePage(file: seq<Byte>, ps: seq<Segment>, i: nat, delta: int, missed: set<(nat, int)>, q: int)
    requires i < |ps| && q % PAGE == 0 && (!HasPage(ps[i], delta, q) || (i, q) in missed)
    ensures ImagePage(file, ps[..i], delta, missed, q) == ImagePage(file, ps[..i + 1], delta, missed, q)
  {
    var a, b := ImagePage(file, ps[..i], delta, missed, q), ImagePage(file, ps[..i + 1], delta, missed, q);
    forall k | 0 <= k < PAGE ensures a[k] == b[k]
    {
      PageOf(q, q + k);
      ImageStep(file, ps, i, delta, missed, q + k);
    }
  }

  lemma ZeroPage(file: seq<Byte>, ps: seq<Segment>, delta: int, missed: set<(nat, int)>, q: int)
    requires q % PAGE == 0 && !AnyHas(ps, delta, q)
    ensures ImagePage(file, ps, delta, missed, q) == Zeros()
  {
    forall k | 0 <= k < PAGE ensures ImagePage(file, ps, delta, missed, q)[k] == Zeros()[k] {
      PageOf(q, q + k);
      ImageZero(file, ps, delta, missed, q + k);
    }
  }

  /** Missing a copy of segment i on page r changes no page of the first i segments. */
  lemma SameMissed(file: seq<Byte>, ps: seq<Segment>, k: nat, i: nat, r: int, delta: int, missed: set<(nat, int)>, q: int)
    requires k <= |ps| && q % PAGE == 0 && (k <= i || q != r)
    ensures ImagePage(file, ps[..k], delta, missed, q) == ImagePage(file, ps[..k], delta, missed + {(i, r)}, q)
  {
    var a, b := ImagePage(file, ps[..k], delta, missed, q), ImagePage(file, ps[..k], delta, missed + {(i, r)}, q);
    forall j | 0 <= j < PAGE ensures a[j] == b[j]
    {
      PageOf(q, q + j);
      ImageMissed(file, ps[..k], delta, missed, missed + {(i, r)}, q + j);
    }
  }

  predicate AnyHas(ps: seq<Segment>, delta: int, q: int) { exists j :: 0 <= j < |ps| && HasPage(ps[j], delta, q) }

  /** Segment j copies bytes into page q, which an earlier segment has. */
  predicate Shared(fileLen: nat, ps: seq<Segment>, delta: int, j: nat, q: int) {
    j < |ps| && HasPage(ps[j], delta, q) && AnyHas(ps[..j], delta, q) && Copies(fileLen, ps[j], delta, q)
  }

  /** Some segment on the page is writable; some is executable. */
  predicate AnyWritable(ps: seq<Segment>, delta: int, q: int) {
    exists j :: 0 <= j < |ps| && HasPage(ps[j], delta, q) && ps[j].writable
  }

  predicate AnyExecutable(ps: seq<Segment>, delta: int, q: int) {
    exists j :: 0 <= j < |ps| && HasPage(ps[j], delta, q) && ps[j].executable
  }

  ghost function SegmentPages(p: Segment, delta: int): set<int> {
    set q | Start(p, delta) <= q < End(p, delta) && HasPage(p, delta, q)
  }

  /** The pages of the segments, each once. */
  ghost function PageSet(ps: seq<Segment>, delta: int): set<int> {
    if ps == [] then {} else PageSet(ps[..|ps| - 1], delta) + SegmentPages(ps[|ps| - 1], delta)
  }

  lemma {:induction false} InPageSet(ps: seq<Segment>, delta: int, q: int)
    ensures q in PageSet(ps, delta) <==> AnyHas(ps, delta, q)
  {
    hide HasPage;
    if ps != [] {
      var n := |ps| - 1;
      assert ps[..n + 1] == ps;
      AnyStep(ps, n, delta, q);
      InPageSet(ps[..n], delta, q);
      if HasPage(ps[n], delta, q) { PagesAreBetween(ps[n], delta, q); }
    }
  }

  lemma PagesAreBetween(p: Segment, delta: int, q: int)
    requires HasPage(p, delta, q)
    ensures Start(p, delta) <= q < End(p, delta)
  {}

  lemma AnyHasMore(ps: seq<Segment>, i: nat, k: nat, delta: int, q: int)
    requires i <= k <= |ps| && AnyHas(ps[..i], delta, q)
    ensures AnyHas(ps[..k], delta, q)
  {
    var j :| 0 <= j < i && HasPage(ps[..i][j], delta, q);
    assert ps[..k][j] == ps[j];
  }

  lemma AnyStep(ps: seq<Segment>, i: nat, delta: int, q: int)
    requires i < |ps|
    ensures AnyHas(ps[..i + 1], delta, q) <==> AnyHas(ps[..i], delta, q) || HasPage(ps[i], delta, q)
    ensures AnyWritable(ps[..i + 1], delta, q) <==> AnyWritable(ps[..i], delta, q) || (HasPage(ps[i], delta, q) && ps[i].writable)
    ensures AnyExecutable(ps[..i + 1], delta, q) <==> AnyExecutable(ps[..i], delta, q) || (HasPage(ps[i], delta, q) && ps[i].executable)
  {
    hide HasPage;
    var before, after := ps[..i], ps[..i + 1];
    assert forall j :: 0 <= j < i ==> before[j] == after[j];
    assert after[i] == ps[i];
  }

  // ------------------------------------------------------------ how many pages, and where

  /** The number of pages of a segment. */
  function Size(p: Segment, delta: int): (n: nat)
    ensures n * PAGE == if End(p, delta) > Start(p, delta) then End(p, delta) - Start(p, delta) else 0
  {
    if End(p, delta) > Start(p, delta) then (End(p, delta) - Start(p, delta)) / PAGE else 0
  }

  /** The sum of the segments' page counts. */
  function Count(ps: seq<Segment>, delta: int): nat {
    if ps == [] then 0 else Count(ps[..|ps| - 1], delta) + Size(ps[|ps| - 1], delta)
  }

  lemma {:induction false} CountGrows(ps: seq<Segment>, i: nat, delta: int)
    requires i <= |ps|
    ensures Count(ps[..i], delta) <= Count(ps, delta)
    decreases |ps|
  {
    if i < |ps| {
      assert ps[..|ps| - 1][..i] == ps[..i];
      CountGrows(ps[..|ps| - 1], i, delta);
    } else {
      assert ps[..i] == ps;
    }
  }

  /** A shift by whole pages does not change the count. */
  lemma {:induction false} CountShift(ps: seq<Segment>, delta: int)
    requires delta % PAGE == 0
    ensures Count(ps, delta) == Count(ps, 0)
  {
    if ps != [] {
      var p := ps[|ps| - 1];
      PageShift(p.vaddr, delta);
      PageShift(p.vaddr + p.memsz, delta);
      hide PageDown, PageUp;
      CountShift(ps[..|ps| - 1], delta);
    }
  }

  function Min(ps: seq<Segment>): (m: nat)
    requires ps != []
    ensures forall i :: 0 <= i < |ps| ==> m <= ps[i].vaddr
    ensures exists i :: 0 <= i < |ps| && m == ps[i].vaddr
  {
    var n := |ps| - 1;
    if n == 0 then ps[0].vaddr
    else
      var m := Min(ps[..n]);
      if ps[n].vaddr < m then ps[n].vaddr else m
  }

  function MaxEnd(ps: seq<Segment>): (m: nat)
    ensures forall i :: 0 <= i < |ps| ==> ps[i].vaddr + ps[i].memsz <= m
  {
    if ps == [] then 0
    else
      var m := MaxEnd(ps[..|ps| - 1]);
      var end := ps[|ps| - 1].vaddr + ps[|ps| - 1].memsz;
      if end > m then end else m
  }

  /** The room that is set aside for the image. */
  function Span(ps: seq<Segment>): int
    requires ps != []
  {
    if MaxEnd(ps) == 0 then 0 else PageUp(MaxEnd(ps)) - PageDown(Min(ps))
  }

  /** With a shift by whole pages, every page of the image lies within the span of the first. */
  lemma PagesInSpan(ps: seq<Segment>, delta: int, q: int)
    requires ps != [] && delta % PAGE == 0 && AnyHas(ps, delta, q)
    ensures PageDown(Min(ps) + delta) <= q < PageDown(Min(ps) + delta) + Span(ps)
  {
    hide PageDown, PageUp, Min, MaxEnd;
    var j :| 0 <= j < |ps| && HasPage(ps[j], delta, q);
    SpanScalar(Min(ps), ps[j].vaddr, ps[j].vaddr + ps[j].memsz, MaxEnd(ps), delta, q);
  }

  lemma SpanScalar(min: nat, v: nat, end: nat, max: nat, delta: int, q: int)
    requires delta % PAGE == 0 && min <= v <= end <= max && PageDown(v + delta) <= q < PageUp(end + delta)
    ensures PageDown(min + delta) <= q < PageDown(min + delta) + PageUp(max) - PageDown(min) && max != 0
  {
    PageShift(min, delta);
    PageShift(v, delta);
    PageShift(end, delta);
    hide PageDown, PageUp;
    PageOrder(min, v);
    PageOrder(end, max);
    assert end == 0 ==> PageDown(v) == 0 == PageUp(end) by { PageOf(0, 0); PageUpZero(); }
  }

  lemma PageUpZero()
    ensures PageUp(0) == 0
  {}

  // ------------------------------------------------------------ relative relocations

  datatype Rela = Rela(offset: nat, addend: int)

  function Target(r: Rela, delta: int): int { r.offset + delta }

  /** The word that the loader stores. */
  function Value(r: Rela, base: nat): nat { Wrap(base + r.addend) }

  /** The word does not cross the end of its page. */
  predicate Contained(r: Rela, delta: int) { Target(r, delta) - PageDown(Target(r, delta)) + 8 <= PAGE }

  ghost predicate AllContained(rs: seq<Rela>, delta: int) { forall i :: 0 <= i < |rs| ==> Contained(rs[i], delta) }

  function PutWord(page: seq<Byte>, off: nat, v: nat): (r: seq<Byte>)
    requires off + 8 <= |page|
    ensures |r| == |page| && r[off..off + 8] == Encode(v, 8)
    ensures forall k :: 0 <= k < |page| && !(off <= k < off + 8) ==> r[k] == page[k]
  {
    page[..off] + Encode(v, 8) + page[off + 8..]
  }

  /** A page after the given relocations, in order. */
  ghost function Relocated(rs: seq<Rela>, delta: int, base: nat, q: int, page: seq<Byte>): (r: seq<Byte>)
    requires AllContained(rs, delta) && |page| == PAGE
    ensures |r| == PAGE
  {
    if rs == [] then page
    else
      var n := |rs| - 1;
      var before := Relocated(rs[..n], delta, base, q, page);
      var t := Target(rs[n], delta);
      if PageDown(t) == q then PutWord(before, t - q, Value(rs[n], base)) else before
  }

  /** No later entry overlaps the given one. */
  ghost predicate LastWord(rs: seq<Rela>, i: nat)
    requires i < |rs|
  {
    forall j :: i < j < |rs| ==> Apart(rs[i], rs[j])
  }

  predicate Apart(r: Rela, s: Rela) { r.offset + 8 <= s.offset || s.offset + 8 <= r.offset }

  /** An entry that no later one overlaps leaves its word at its target. */
  lemma {:induction false} RelocatedWord(rs: seq<Rela>, delta: int, base: nat, page: seq<Byte>, i: nat)
    requires AllContained(rs, delta) && |page| == PAGE && i < |rs| && LastWord(rs, i)
    ensures var t := Target(rs[i], delta);
            var q := PageDown(t);
            Decode(Relocated(rs, delta, base, q, page)[t - q..t - q + 8]) == Value(rs[i], base)
  {
    hide PageDown, Encode, Decode;
    var n := |rs| - 1;
    var t := Target(rs[i], delta);
    var q := PageDown(t);
    if i == n {
      WordRoundTrip(Value(rs[i], base));
    } else {
      RelocatedWord(rs[..n], delta, base, page, i);
      var before, after := Relocated(rs[..n], delta, base, q, page), Relocated(rs, delta, base, q, page);
      assert Apart(rs[i], rs[n]);
      assert before[t - q..t - q + 8] == after[t - q..t - q + 8];
    }
  }

  /** A byte that no entry targets stays. */
  lemma {:induction false} RelocatedElsewhere(rs: seq<Rela>, delta: int, base: nat, q: int, page: seq<Byte>, k: nat)
    requires AllContained(rs, delta) && |page| == PAGE && k < PAGE
    requires forall j :: 0 <= j < |rs| ==> !(Target(rs[j], delta) <= q + k < Target(rs[j], delta) + 8)
    ensures Relocated(rs, delta, base, q, page)[k] == page[k]
  {
    hide PageDown, Encode;
    if rs != [] {
      RelocatedElsewhere(rs[..|rs| - 1], delta, base, q, page, k);
    }
  }

  // ------------------------------------------------------------ copies into shared pages

  ghost predicate Targeted(rs: seq<Rela>, delta: int, a: int) {
    exists j :: 0 <= j < |rs| && Target(rs[j], delta) <= a < Target(rs[j], delta) + 8
  }

  /** If segment i provides the byte at a, and an earlier segment has the page, the byte is there already. */
  predicate Redundant(file: seq<Byte>, ps: seq<Segment>, delta: int, i: nat, a: int)
    requires i < |ps|
  {
    Covers(|file|, ps[i], delta, a) && AnyHas(ps[..i], delta, PageDown(a)) ==>
      SourceByte(file, ps[i], delta, a) == Image(file, ps[..i], delta, {}, a)
  }

  ghost predicate AllRedundant(file: seq<Byte>, ps: seq<Segment>, delta: int, a: int) {
    forall i: nat :: i < |ps| ==> Redundant(file, ps, delta, i, a)
  }

  /** Every copy into a page that an earlier segment has changes nothing, except perhaps where a
      relocation will put its word. */
  ghost predicate Harmless(file: seq<Byte>, ps: seq<Segment>, delta: int, rs: seq<Rela>) {
    forall a :: Targeted(rs, delta, a) || AllRedundant(file, ps, delta, a)
  }

  ghost predicate AllShared(fileLen: nat, ps: seq<Segment>, delta: int, missed: set<(nat, int)>) {
    forall m :: m in missed ==> Shared(fileLen, ps, delta, m.0, m.1)
  }

  /** Then it does not matter which of these copies are missed. */
  lemma {:induction false} RedundantImage(file: seq<Byte>, ps: seq<Segment>, k: nat, delta: int, missed: set<(nat, int)>, a: int)
    requires k <= |ps| && AllShared(|file|, ps, delta, missed) && AllRedundant(file, ps, delta, a)
    ensures Image(file, ps[..k], delta, missed, a) == Image(file, ps[..k], delta, {}, a)
  {
    hide Covers, HasPage, Copies, AnyHas;
    if 0 < k {
      var i := k - 1;
      RedundantImage(file, ps, i, delta, missed, a);
      ImageStep(file, ps, i, delta, missed, a);
      ImageStep(file, ps, i, delta, {}, a);
      assert Redundant(file, ps, delta, i, a);
    }
  }

  lemma HarmlessPage(file: seq<Byte>, ps: seq<Segment>, delta: int, base: nat, rs: seq<Rela>, missed: set<(nat, int)>, q: int)
    requires AllContained(rs, delta) && q % PAGE == 0 && AllShared(|file|, ps, delta, missed) && Harmless(file, ps, delta, rs)
    ensures Relocated(rs, delta, base, q, ImagePage(file, ps, delta, missed, q)) == Relocated(rs, delta, base, q, ImagePage(file, ps, delta, {}, q))
  {
    hide AllShared, AllRedundant, Targeted, AllContained, Image, Relocated;
    var p1, p2 := ImagePage(file, ps, delta, missed, q), ImagePage(file, ps, delta, {}, q);
    forall k | 0 <= k < PAGE
      ensures p1[k] == p2[k] || Targeted(rs, delta, q + k)
    {
      if !Targeted(rs, delta, q + k) {
        assert ps[..|ps|] == ps;
        RedundantImage(file, ps, |ps|, delta, missed, q + k);
      }
    }
    RelocatedSame(rs, delta, base, q, p1, p2);
  }

  lemma HarmlessWhole(file: seq<Byte>, ps: seq<Segment>, delta: int, missed: set<(nat, int)>, q: int)
    requires q % PAGE == 0 && AllShared(|file|, ps, delta, missed) && Harmless(file, ps, delta, [])
    ensures ImagePage(file, ps, delta, missed, q) == ImagePage(file, ps, delta, {}, q)
  {
    hide AllShared, Harmless, ImagePage;
    HarmlessPage(file, ps, delta, 0, [], missed, q);
  }

  /** Relocation makes pages equal that differ in the relocated words only. */
  lemma RelocatedSame(rs: seq<Rela>, delta: int, base: nat, q: int, p1: seq<Byte>, p2: seq<Byte>)
    requires AllContained(rs, delta) && q % PAGE == 0 && |p1| == |p2| == PAGE
    requires forall k :: 0 <= k < PAGE ==> p1[k] == p2[k] || Targeted(rs, delta, q + k)
    ensures Relocated(rs, delta, base, q, p1) == Relocated(rs, delta, base, q, p2)
  {
    hide Relocated, Targeted;
    var r1, r2 := Relocated(rs, delta, base, q, p1), Relocated(rs, delta, base, q, p2);
    forall k | 0 <= k < PAGE ensures r1[k] == r2[k] { RelocatedSameAt(rs, delta, base, q, p1, p2, k); }
  }

  lemma {:induction false} RelocatedSameAt(rs: seq<Rela>, delta: int, base: nat, q: int, p1: seq<Byte>, p2: seq<Byte>, k: nat)
    requires AllContained(rs, delta) && q % PAGE == 0 && |p1| == |p2| == PAGE && k < PAGE
    requires p1[k] == p2[k] || Targeted(rs, delta, q + k)
    ensures Relocated(rs, delta, base, q, p1)[k] == Relocated(rs, delta, base, q, p2)[k]
  {
    hide Encode, PageDown;
    if rs != [] {
      var n := |rs| - 1;
      var t := Target(rs[n], delta);
      if t <= q + k < t + 8 {
        assert Contained(rs[n], delta);
        PageOf(q, t);
        PageOf(PageDown(t), q + k);
        PageOf(q, q + k);
        SameInWord(Relocated(rs[..n], delta, base, q, p1), Relocated(rs[..n], delta, base, q, p2), t - q, Value(rs[n], base), k);
      } else {
        assert Targeted(rs, delta, q + k) ==> Targeted(rs[..n], delta, q + k);
        RelocatedSameAt(rs[..n], delta, base, q, p1, p2, k);
      }
    }
  }

  lemma SameInWord(a: seq<Byte>, b: seq<Byte>, off: nat, v: nat, k: nat)
    requires |a| == |b| && off + 8 <= |a| && off <= k < off + 8
    ensures PutWord(a, off, v)[k] == PutWord(b, off, v)[k]
  {}

  /** Copies missed from segment `from` on, on the page of a: the byte is that of the earlier segments. */
  lemma {:induction false} MissedFrom(file: seq<Byte>, ps: seq<Segment>, k: nat, delta: int, missed: set<(nat, int)>, from: nat, a: int)
    requires from <= k <= |ps|
    requires forall j: nat :: j < |ps| && Covers(|file|, ps[j], delta, a) ==> ((j, PageDown(a)) in missed <==> from <= j)
    ensures Image(file, ps[..k], delta, missed, a) == Image(file, ps[..from], delta, {}, a)
    decreases k
  {
    hide Covers;
    if from < k {
      ImageStep(file, ps, k - 1, delta, missed, a);
      MissedFrom(file, ps, k - 1, delta, missed, from, a);
    } else {
      NoneMissed(file, ps, k, delta, missed, a);
    }
  }

  lemma {:induction false} NoneMissed(file: seq<Byte>, ps: seq<Segment>, k: nat, delta: int, missed: set<(nat, int)>, a: int)
    requires k <= |ps|
    requires forall j: nat :: j < k && Covers(|file|, ps[j], delta, a) ==> (j, PageDown(a)) !in missed
    ensures Image(file, ps[..k], delta, missed, a) == Image(file, ps[..k], delta, {}, a)
  {
    hide Covers;
    if 0 < k {
      ImageStep(file, ps, k - 1, delta, missed, a);
      ImageStep(file, ps, k - 1, delta, {}, a);
      NoneMissed(file, ps, k - 1, delta, missed, a);
    }
  }

  /** In a well-formed image, a copy is redundant exactly if the byte is zero or nobody had the page. */
  lemma RedundantIff(file: seq<Byte>, ps: seq<Segment>, delta: int, i: nat, a: int)
    requires WellFormed(|file|, ps) && i < |ps|
    ensures Redundant(file, ps, delta, i, a) <==>
            !FileBacked(ps[i], delta, a) || !AnyHas(ps[..i], delta, PageDown(a)) || file[a - delta - ps[i].vaddr + ps[i].offset] == 0
  {
    hide AnyHas;
    CoversIff(|file|, ps[i], delta, a);
    hide Covers;
    if FileBacked(ps[i], delta, a) {
      assert WellFormed(|file|, ps[..i]);
      ZeroBytes(file, ps[..i], delta, a);
    }
  }

  /** The stored word is B + A, where B is what was added to the addresses, exactly when the lowest
      address of the image is 0. */
  lemma RelativeIsBPlusA(r: Rela, base: nat, min: nat)
    requires min < TWO64
    ensures Value(r, base) == Wrap(base - min + r.addend) <==> min == 0
  {
    WrapSame(base + r.addend, base - min + r.addend);
  }
}

/** Loading a PE image: its headers and sections page by page, then its base relocations.  The page
    table and the way a page is filled, merged and protected are those of the ELF loader. */
module PeLoader {
  import opened Common
  import opened Bytes
  import I = ElfImage
  import E = ElfLoader
  import P = PeImage
  import Sets

  const MAX_PAGES: nat := 512
  const MAX_SECTIONS: nat := 32

  datatype Section = Section(rva: nat, vsize: nat, rawAt: nat, rawSize: nat, writable: bool, executable: bool, discardable: bool)

  datatype Kind = Absolute | Dir64 | Other

  datatype Reloc = Reloc(kind: Kind, offset: nat)

  datatype Block = Block(rva: nat, entries: seq<Reloc>)

  // ------------------------------------------------------------ what is loaded

  function Size(s: Section): nat { if s.vsize > 0 then s.vsize else s.rawSize }

  predicate Skipped(s: Section) { s.discardable || Size(s) == 0 }

  function SectionPart(s: Section): I.Segment { I.Segment(s.rva, s.rawAt, s.rawSize, Size(s), s.writable, s.executable) }

  /** The headers: whole pages, read-only, as much as the file has. */
  function HeaderPart(fileLen: nat, headers: nat): I.Segment {
    var end := PageUp(headers);
    I.Segment(0, 0, if end < fileLen then end else fileLen, end, false, false)
  }

  /** What a page of the headers takes from the file, cut off at the end of the page and of the file. */
  lemma HeaderPage(fileLen: nat, headers: nat, base: int, k: nat)
    requires base % PAGE == 0 && k * PAGE < PageUp(headers)
    ensures var p, q := HeaderPart(fileLen, headers), base + k * PAGE;
            if k * PAGE < fileLen then
              I.Copies(fileLen, p, base, q) && I.CopyLo(p, base, q) == q
              && I.CopyHi(p, base, q) - q == if fileLen - k * PAGE < PAGE then fileLen - k * PAGE else PAGE
            else !I.Copies(fileLen, p, base, q)
  {
    WholePages(headers, k);
  }

  lemma WholePages(headers: nat, k: nat)
    requires k * PAGE < PageUp(headers)
    ensures k * PAGE + PAGE <= PageUp(headers)
  {}

  function SectionParts(secs: seq<Section>): seq<I.Segment> {
    if secs == [] then []
    else
      var n := |secs| - 1;
      SectionParts(secs[..n]) + if Skipped(secs[n]) then [] else [SectionPart(secs[n])]
  }

  /** The parts of an image in the order in which they are loaded. */
  function PartsOf(fileLen: nat, headers: nat, secs: seq<Section>): seq<I.Segment> {
    [HeaderPart(fileLen, headers)] + SectionParts(secs)
  }

  /** The page belongs to a section that is kept and has a size in memory or, failing that, in the file. */
  ghost predicate InSection(secs: seq<Section>, base: int, q: int) {
    exists i :: 0 <= i < |secs| && !secs[i].discardable && (secs[i].vsize > 0 || secs[i].rawSize > 0)
                && I.HasPage(SectionPart(secs[i]), base, q)
  }

  lemma {:induction false} SectionPages(secs: seq<Section>, base: int, q: int)
    ensures I.AnyHas(SectionParts(secs), base, q) <==> InSection(secs, base, q)
  {
    hide I.HasPage;
    if secs != [] {
      var n := |secs| - 1;
      SectionPages(secs[..n], base, q);
      var before, all := SectionParts(secs[..n]), SectionParts(secs);
      assert forall j :: 0 <= j < |before| ==> all[j] == before[j];
      if !Skipped(secs[n]) { assert all[|before|] == SectionPart(secs[n]); }
      assert forall i :: 0 <= i < n ==> secs[..n][i] == secs[i];
    }
  }

  /** What an image maps: the pages of its headers and of the sections it keeps. */
  lemma MappedPages(fileLen: nat, headers: nat, secs: seq<Section>, base: int, q: int)
    ensures I.AnyHas(PartsOf(fileLen, headers, secs), base, q)
            <==> I.HasPage(HeaderPart(fileLen, headers), base, q) || InSection(secs, base, q)
  {
    hide I.HasPage, InSection;
    SectionPages(secs, base, q);
    var ps, more := PartsOf(fileLen, headers, secs), SectionParts(secs);
    assert ps[0] == HeaderPart(fileLen, headers) && forall j :: 0 <= j < |more| ==> ps[j + 1] == more[j];
    if j :| 0 <= j < |ps| && I.HasPage(ps[j], base, q) {
      if 0 < j { assert I.HasPage(more[j - 1], base, q); }
    }
    if j :| 0 <= j < |more| && I.HasPage(more[j], base, q) { assert I.HasPage(ps[j + 1], base, q); }
  }

  /** The offsets from the base of the words that are relocated. */
  function TargetsOf(blocks: seq<Block>): seq<nat> {
    if blocks == [] then []
    else TargetsOf(blocks[..|blocks| - 1]) + BlockTargets(blocks[|blocks| - 1].rva, blocks[|blocks| - 1].entries)
  }

  function BlockTargets(rva: nat, es: seq<Reloc>): seq<nat> {
    if es == [] then []
    else
      var n := |es| - 1;
      BlockTargets(rva, es[..n]) + if es[n].kind == Dir64 then [rva + es[n].offset] else []
  }

  // ------------------------------------------------------------ loading

  /** Loads the pages of one part, as long as the page table has room. */
  method LoadPart(l: E.Loader, file: seq<Byte>, ps: seq<I.Segment>, i: nat, base: int) returns (r: E.Result<()>)
    requires i < |ps| && l.Loaded(file, ps, i, base) && |l.pages| <= MAX_PAGES
    modifies l
    ensures l.TableOk()
    ensures r.Ok? ==> l.Loaded(file, ps, i + 1, base) && |l.pages| <= MAX_PAGES
    ensures E.FatalSucceed(l.fails) && 0 < old(l.nextFrame) && |I.PageSet(ps, base)| <= MAX_PAGES ==> r.Ok? && 0 < l.nextFrame
  {
    hide E.Loader.Upto, E.Loader.Loaded, PageDown, PageUp, E.Loader.Valid, E.Loader.TableOk;
    l.LoadedIsOk(file, ps, i, base);
    l.SegmentBegins(file, ps, i, base);
    var v := I.Start(ps[i], base);
    while v < I.End(ps[i], base)
      invariant I.Start(ps[i], base) <= v && v % PAGE == 0 && l.Upto(file, ps, i, base, v) && |l.pages| <= MAX_PAGES
      invariant l.TableOk()
      invariant E.FatalSucceed(l.fails) && 0 < old(l.nextFrame) ==> 0 < l.nextFrame
      decreases I.End(ps[i], base) - v
    {
      var idx := l.FindPage(v);
      if idx == |l.pages| && |l.pages| >= MAX_PAGES {
        TooMany(l, file, ps, i, base, v);
        return E.Err(E.OutOfMemory);
      }
      r := Next(l, file, ps, i, base, v);
      if r.Err? {
        return;
      }
      v := v + PAGE;
    }
    l.SegmentEnds(file, ps, i, base, v);
    r := E.Ok(());
  }

  /** One page, for which the table has room if it needs any. */
  method Next(l: E.Loader, file: seq<Byte>, ps: seq<I.Segment>, i: nat, base: int, v: int) returns (r: E.Result<()>)
    requires i < |ps| && l.Upto(file, ps, i, base, v) && I.HasPage(ps[i], base, v)
    requires |l.pages| <= MAX_PAGES && (l.Listed(v) || |l.pages| < MAX_PAGES)
    modifies l
    ensures l.TableOk()
    ensures r.Ok? ==> l.Upto(file, ps, i, base, v + PAGE) && |l.pages| <= MAX_PAGES
    ensures E.FatalSucceed(l.fails) && 0 < old(l.nextFrame) ==> r.Ok? && 0 < l.nextFrame
  {
    hide E.Loader.Upto, E.Loader.TableOk, I.HasPage;
    r := l.Step(file, ps, i, base, v, |l.pages| + 1);
  }

  /** A full table that lacks a page of the image: the image has more pages than the table. */
  lemma TooMany(l: E.Loader, file: seq<Byte>, ps: seq<I.Segment>, i: nat, base: int, v: int)
    requires i < |ps| && l.Upto(file, ps, i, base, v) && I.HasPage(ps[i], base, v) && !l.Listed(v)
    ensures |l.pages| < |I.PageSet(ps, base)|
  {
    hide I.ImagePage, I.PageSet, E.PageFlags, I.HasPage;
    KeysAreRows(l);
    assert v !in l.child;
    forall q | q in l.child.Keys + {v}
      ensures q in I.PageSet(ps, base)
    {
      I.InPageSet(ps, base, q);
      if q == v {
        assert I.HasPage(ps[i], base, v);
      } else {
        PageOfChild(l, file, ps, i, base, v, q);
      }
    }
    Sets.SubsetSize(l.child.Keys + {v}, I.PageSet(ps, base));
  }

  lemma PageOfChild(l: E.Loader, file: seq<Byte>, ps: seq<I.Segment>, i: nat, base: int, v: int, q: int)
    requires i < |ps| && l.Upto(file, ps, i, base, v) && q in l.child
    ensures I.AnyHas(ps, base, q)
  {
    hide I.ImagePage, E.PageFlags, I.HasPage;
    assert l.Listed(q);
    assert q % PAGE == 0;
    var k := E.Reached(ps, i, base, v, q);
    assert l.PageOk(file, ps, k, base, q);
    I.AnyHasMore(ps, k, |ps|, base, q);
    assert ps[..|ps|] == ps;
  }

  lemma KeysAreRows(l: E.Loader)
    requires l.Valid()
    ensures |l.child.Keys| == |l.pages|
  {
    var vs := seq(|l.pages|, j requires 0 <= j < |l.pages| reads l => l.pages[j].vaddr);
    forall q ensures q in l.child.Keys <==> q in vs {
      if q in l.child {
        assert l.Listed(q);
        var j :| 0 <= j < |l.pages| && l.pages[j].vaddr == q;
        assert vs[j] == q;
      }
      if q in vs {
        var j :| 0 <= j < |vs| && vs[j] == q;
        assert l.EntryOk(l.pages[j]);
      }
    }
    assert l.child.Keys == set q | q in vs;
    DistinctSize(vs);
  }

  lemma {:induction false} DistinctSize(vs: seq<int>)
    requires forall j, k :: 0 <= j < k < |vs| ==> vs[j] != vs[k]
    ensures |set q | q in vs| == |vs|
  {
    if vs != [] {
      var n := |vs| - 1;
      assert vs == vs[..n] + [vs[n]];
      assert (set q | q in vs) == (set q | q in vs[..n]) + {vs[n]};
      DistinctSize(vs[..n]);
    }
  }

  /** All parts in turn.  If no kernel call fails that matters, this succeeds exactly if the image has no
      more pages than the table has rows. */
  method LoadParts(l: E.Loader, file: seq<Byte>, ps: seq<I.Segment>, base: int) returns (r: E.Result<()>)
    requires l.Valid() && l.pages == [] && l.child == map[] && l.missed == {}
    modifies l
    ensures l.TableOk()
    ensures r.Ok? ==> l.Loaded(file, ps, |ps|, base) && |I.PageSet(ps, base)| <= MAX_PAGES
    ensures E.FatalSucceed(l.fails) && 0 < old(l.nextFrame) && |I.PageSet(ps, base)| <= MAX_PAGES ==> r.Ok?
  {
    l.NothingLoaded(file, ps, base);
    hide E.Loader.Loaded, E.Loader.Valid, E.Loader.TableOk, I.PageSet;
    l.LoadedIsOk(file, ps, 0, base);
    var i := 0;
    while i < |ps|
      invariant i <= |ps| && l.Loaded(file, ps, i, base) && |l.pages| <= MAX_PAGES && l.TableOk()
      invariant E.FatalSucceed(l.fails) && 0 < old(l.nextFrame) && |I.PageSet(ps, base)| <= MAX_PAGES ==> 0 < l.nextFrame
    {
      r := LoadPart(l, file, ps, i, base);
      if r.Err? {
        return;
      }
      i := i + 1;
    }
    NotTooMany(l, file, ps, base);
    r := E.Ok(());
  }

  lemma NotTooMany(l: E.Loader, file: seq<Byte>, ps: seq<I.Segment>, base: int)
    requires l.Loaded(file, ps, |ps|, base)
    ensures |I.PageSet(ps, base)| == |l.pages|
  {
    hide E.Loader.Loaded, E.Loader.Valid, I.PageSet, I.AnyHas, I.ImagePage, E.PageFlags;
    l.WhenLoaded(file, ps, base, 0);
    KeysAreRows(l);
    forall q ensures q in l.child.Keys <==> q in I.PageSet(ps, base) { I.InPageSet(ps, base, q); }
    assert l.child.Keys == I.PageSet(ps, base);
  }

  /** The pages of the given words are mapped. */
  ghost predicate Mapped(l: E.Loader, base: int, ts: seq<nat>)
    reads l`child
  {
    forall t :: t in ts ==> PageDown(base + t) in l.child
  }

  /** Adds delta to one word. */
  method RebaseOne(l: E.Loader, target: nat, base: int, delta: nat) returns (r: E.Result<()>)
    requires l.Valid()
    modifies l`frames, l`relocs
    ensures l.Valid() && (r.Ok? ==> PageDown(base + target) in l.child && P.Contained(base, target))
    ensures r.Ok? ==> forall q :: q in l.child ==>
                        l.Contents(q) == if PageDown(base + target) == q
                                         then P.AddWord(old(l.Contents(q)), base + target - q, delta)
                                         else old(l.Contents(q))
    ensures E.FatalSucceed(l.fails) && PageDown(base + target) in l.child && P.Contained(base, target) ==> r.Ok?
  {
    hide PageDown, P.AddWord;
    var t := base + target;
    var q := PageDown(t);
    var idx := l.FindPage(q);
    if idx == |l.pages| {
      return E.Err(E.RelocFailed);
    }
    assert l.EntryOk(l.pages[idx]);
    l.relocs := l.relocs + 1;
    if !E.Succeeds(l.fails, E.Reloc(l.relocs)) {
      return E.Err(E.RelocFailed);
    }
    if t - q + 8 > PAGE {
      return E.Err(E.Overrun);
    }
    var page := P.AddWord(l.frames[l.pages[idx].at.frame], t - q, delta);
    hide E.Loader.Valid;
    l.SetBytes(idx, page);
    r := E.Ok(());
  }

  /** The words at the given targets have had delta added, on every page. */
  twostate predicate Added(l: E.Loader, base: int, delta: nat, ts: seq<nat>)
    requires old(l.Valid()) && l.child == old(l.child)
    reads l
  {
    && l.Valid() && P.AllContained(base, ts) && Mapped(l, base, ts)
    && forall q :: q in l.child ==> l.Contents(q) == P.Rebased(ts, base, delta, q, old(l.Contents(q)))
  }

  /** The entries of one block; padding and kinds that are not supported are passed over. */
  method RebaseBlock(l: E.Loader, rva: nat, es: seq<Reloc>, base: int, delta: nat) returns (r: E.Result<()>)
    requires l.Valid()
    modifies l`frames, l`relocs
    ensures l.Valid() && (r.Ok? ==> Added(l, base, delta, BlockTargets(rva, es)))
    ensures E.FatalSucceed(l.fails) && P.AllContained(base, BlockTargets(rva, es)) && Mapped(l, base, BlockTargets(rva, es)) ==> r.Ok?
  {
    hide PageDown, P.AddWord, E.Loader.Valid, P.Contained, P.Rebased, BlockTargets;
    NoneRebased(l, base, delta);
    NoTargets(rva, es);
    var i := 0;
    while i < |es|
      invariant i <= |es| && Added(l, base, delta, BlockTargets(rva, es[..i]))
    {
      BlockStep(rva, es, i);
      if es[i].kind == Dir64 {
        r := RebaseOne(l, rva + es[i].offset, base, delta);
        if r.Err? {
          return;
        }
        OneMore(l, BlockTargets(rva, es[..i]), rva + es[i].offset, base);
        forall q | q in l.child
          ensures l.Contents(q) == P.Rebased(BlockTargets(rva, es[..i + 1]), base, delta, q, old(l.Contents(q)))
        {
          P.RebasedSnoc(BlockTargets(rva, es[..i]), rva + es[i].offset, base, delta, q, old(l.Contents(q)));
        }
      }
      i := i + 1;
    }
    assert es[..i] == es;
    r := E.Ok(());
  }

  lemma OneMore(l: E.Loader, ts: seq<nat>, t: nat, base: int)
    requires P.AllContained(base, ts) && P.Contained(base, t) && Mapped(l, base, ts) && PageDown(base + t) in l.child
    ensures P.AllContained(base, ts + [t]) && Mapped(l, base, ts + [t])
  {
    hide P.Contained, PageDown;
  }

  lemma NoneRebased(l: E.Loader, base: int, delta: nat)
    requires l.Valid()
    ensures forall q :: q in l.child ==> l.Contents(q) == P.Rebased([], base, delta, q, l.Contents(q))
  {}

  lemma NoTargets(rva: nat, es: seq<Reloc>)
    ensures BlockTargets(rva, es[..0]) == []
  {}

  lemma {:induction false} BlockPrefix(rva: nat, es: seq<Reloc>, i: nat)
    requires i <= |es|
    ensures BlockTargets(rva, es[..i]) <= BlockTargets(rva, es)
    decreases |es|
  {
    if i < |es| {
      var n := |es| - 1;
      assert es[..n][..i] == es[..i];
      BlockPrefix(rva, es[..n], i);
    } else {
      assert es[..i] == es;
    }
  }

  lemma BlockStep(rva: nat, es: seq<Reloc>, i: nat)
    requires i < |es|
    ensures BlockTargets(rva, es[..i + 1]) ==
            if es[i].kind == Dir64 then BlockTargets(rva, es[..i]) + [rva + es[i].offset] else BlockTargets(rva, es[..i])
    ensures es[i].kind == Dir64 ==> rva + es[i].offset in BlockTargets(rva, es)
  {
    BlockPrefix(rva, es, i + 1);
    var ts := BlockTargets(rva, es[..i + 1]);
    assert es[..i + 1][i] == es[i] && es[..i + 1][..i] == es[..i];
    if es[i].kind == Dir64 { assert BlockTargets(rva, es)[|ts| - 1] == ts[|ts| - 1] == rva + es[i].offset; }
  }

  /** All blocks in turn. */
  method Rebase(l: E.Loader, blocks: seq<Block>, base: int, delta: nat) returns (r: E.Result<()>)
    requires l.Valid()
    modifies l`frames, l`relocs
    ensures l.Valid() && (r.Ok? ==> Added(l, base, delta, TargetsOf(blocks)))
    ensures E.FatalSucceed(l.fails) && P.AllContained(base, TargetsOf(blocks)) && Mapped(l, base, TargetsOf(blocks)) ==> r.Ok?
  {
    hide PageDown, E.Loader.Valid, P.Contained, P.Rebased, BlockTargets;
    NoneRebased(l, base, delta);
    var i := 0;
    while i < |blocks|
      invariant i <= |blocks| && Added(l, base, delta, TargetsOf(blocks[..i]))
    {
      var b := blocks[i];
      TargetsStep(l, blocks, i, base);
      r := RebaseBlock(l, b.rva, b.entries, base, delta);
      if r.Err? {
        return;
      }
      Together(l, TargetsOf(blocks[..i]), BlockTargets(b.rva, b.entries), base);
      forall q | q in l.child
        ensures l.Contents(q) == P.Rebased(TargetsOf(blocks[..i + 1]), base, delta, q, old(l.Contents(q)))
      {
        P.RebasedAppend(TargetsOf(blocks[..i]), BlockTargets(b.rva, b.entries), base, delta, q, old(l.Contents(q)));
      }
      i := i + 1;
    }
    assert blocks[..i] == blocks;
    r := E.Ok(());
  }

  lemma Together(l: E.Loader, ts: seq<nat>, us: seq<nat>, base: int)
    requires P.AllContained(base, ts) && P.AllContained(base, us) && Mapped(l, base, ts) && Mapped(l, base, us)
    ensures P.AllContained(base, ts + us) && Mapped(l, base, ts + us)
  {
    hide P.Contained, PageDown;
  }

  lemma {:induction false} TargetsPrefix(blocks: seq<Block>, i: nat)
    requires i <= |blocks|
    ensures TargetsOf(blocks[..i]) <= TargetsOf(blocks)
    decreases |blocks|
  {
    if i < |blocks| {
      var n := |blocks| - 1;
      assert blocks[..n][..i] == blocks[..i];
      TargetsPrefix(blocks[..n], i);
    } else {
      assert blocks[..i] == blocks;
    }
  }

  lemma TargetsStep(l: E.Loader, blocks: seq<Block>, i: nat, base: int)
    requires i < |blocks|
    ensures TargetsOf(blocks[..i + 1]) == TargetsOf(blocks[..i]) + BlockTargets(blocks[i].rva, blocks[i].entries)
    ensures P.AllContained(base, TargetsOf(blocks)) ==> P.AllContained(base, BlockTargets(blocks[i].rva, blocks[i].entries))
    ensures Mapped(l, base, TargetsOf(blocks)) ==> Mapped(l, base, BlockTargets(blocks[i].rva, blocks[i].entries))
  {
    TargetsSnoc(blocks, i);
    TargetsPrefix(blocks, i + 1);
    hide *;
    Within(l, TargetsOf(blocks), TargetsOf(blocks[..i]), BlockTargets(blocks[i].rva, blocks[i].entries), base);
  }

  lemma TargetsSnoc(blocks: seq<Block>, i: nat)
    requires i < |blocks|
    ensures TargetsOf(blocks[..i + 1]) == TargetsOf(blocks[..i]) + BlockTargets(blocks[i].rva, blocks[i].entries)
  {
    hide BlockTargets;
    assert blocks[..i + 1][i] == blocks[i] && blocks[..i + 1][..i] == blocks[..i];
  }

  lemma Within(l: E.Loader, all: seq<nat>, before: seq<nat>, more: seq<nat>, base: int)
    requires before + more <= all
    ensures P.AllContained(base, all) ==> P.AllContained(base, more)
    ensures Mapped(l, base, all) ==> Mapped(l, base, more)
  {
    hide P.Contained, PageDown;
    forall k | 0 <= k < |more| ensures more[k] == all[|before| + k] { assert more[k] == (before + more)[|before| + k]; }
    forall t | t in more ensures t in all {
      var k :| 0 <= k < |more| && more[k] == t;
      assert all[|before| + k] == t;
    }
  }

  // ------------------------------------------------------------ the whole image

  /** An image as a file, what its headers say, and its relocation blocks. */
  datatype Pe = Pe(file: seq<Byte>, headers: nat, sections: seq<Section>, imageBase: nat, blocks: seq<Block>) {
    function Parts(): seq<I.Segment> { PartsOf(|file|, headers, sections) }
    function Targets(): seq<nat> { TargetsOf(blocks) }
  }

  /** The relocated words lie within mapped pages, unless nothing is relocated. */
  ghost predicate TargetsOk(l: E.Loader, pe: Pe, base: int)
    reads l`child
  {
    P.Moved(base, pe.imageBase) != 0 ==> P.AllContained(base, pe.Targets()) && Mapped(l, base, pe.Targets())
  }

  /** The child's address space is the image at the base: the pages of its parts, with their rights, and
      their bytes relocated. */
  ghost predicate IsLoaded(l: E.Loader, pe: Pe, base: int)
    reads l
  {
    && l.Valid() && TargetsOk(l, pe, base) && l.PagesAre(pe.Parts(), base)
    && (forall q :: q in l.child ==> l.Contents(q) == P.Page(pe.file, pe.Parts(), pe.Targets(), base, pe.imageBase, q))
  }

  /** Nothing but the kernel keeps the image from being loaded at the base. */
  ghost predicate Loadable(pe: Pe, base: int) {
    && |pe.sections| <= MAX_SECTIONS && |I.PageSet(pe.Parts(), base)| <= MAX_PAGES
    && (P.Moved(base, pe.imageBase) != 0 ==>
          P.AllContained(base, pe.Targets()) && forall t :: t in pe.Targets() ==> I.AnyHas(pe.Parts(), base, PageDown(base + t)))
  }

  /** No copy was lost, or none that matters. */
  ghost predicate Dependable(l: E.Loader, pe: Pe, base: int)
    reads l`missed
  {
    l.missed == {} || I.Harmless(pe.file, pe.Parts(), base, [])
  }

  /** Loads an image.  The child's address space is the image at the base, except for the copies lost into
      pages that are there already; where such copies change nothing, it is the image whatever fails. */
  method Load(l: E.Loader, pe: Pe, base: int) returns (r: E.Result<()>)
    requires l.Valid() && l.pages == [] && l.child == map[] && l.missed == {}
    modifies l
    ensures l.TableOk()
    ensures r.Ok? ==> Loadable(pe, base) && l.Valid() && l.PagesAre(pe.Parts(), base) && TargetsOk(l, pe, base)
    ensures r.Ok? ==> forall q :: q in l.child ==>
                        l.Contents(q) == P.Placed(pe.Targets(), base, pe.imageBase, q, I.ImagePage(pe.file, pe.Parts(), base, l.missed, q))
    ensures r.Ok? ==> l.MissedLost(|pe.file|, pe.Parts(), base) && (E.AllSucceed(l.fails) ==> l.missed == {})
    ensures r.Ok? && Dependable(l, pe, base) ==> IsLoaded(l, pe, base)
    ensures E.FatalSucceed(l.fails) && 0 < old(l.nextFrame) && Loadable(pe, base) ==> r.Ok?
  {
    hide E.Loader.Valid, E.Loader.Loaded, I.ImagePage, I.AnyHas, E.PageFlags, PageDown, P.Rebased, PartsOf, TargetsOf, E.Lost, I.Harmless, I.PageSet;
    hide P.AllContained, E.Loader.TableOk;
    l.ValidIff();
    if |pe.sections| > MAX_SECTIONS {
      return E.Err(E.NoLoad);
    }
    r := LoadParts(l, pe.file, pe.Parts(), base);
    if r.Err? {
      return;
    }
    l.WhenLoaded(pe.file, pe.Parts(), base, 0);
    l.NoneApplied(pe.file, pe.Parts(), base, 0);
    hide E.Loader.Holds, E.Loader.MissedLost;
    var delta := P.Moved(base, pe.imageBase);
    if delta != 0 {
      r := Rebase(l, pe.blocks, base, delta);
      l.ValidIff();
      if r.Err? {
        return;
      }
    }
    if E.AllSucceed(l.fails) { l.NothingMissed(|pe.file|, pe.Parts(), base); }
    if Dependable(l, pe, base) {
      NothingShows(l, pe, base);
    }
  }

  lemma NothingShows(l: E.Loader, pe: Pe, base: int)
    requires l.Valid() && TargetsOk(l, pe, base)
    requires forall q :: q in l.child ==> q % PAGE == 0 && l.Contents(q) == P.Placed(pe.Targets(), base, pe.imageBase, q, I.ImagePage(pe.file, pe.Parts(), base, l.missed, q))
    requires l.MissedLost(|pe.file|, pe.Parts(), base)
    requires Dependable(l, pe, base)
    ensures forall q :: q in l.child ==> l.Contents(q) == P.Page(pe.file, pe.Parts(), pe.Targets(), base, pe.imageBase, q)
  {
    hide E.Loader.Valid, I.Harmless, I.ImagePage, I.Shared, P.AllContained, PartsOf, TargetsOf, P.Placed, PageDown;
    if l.missed != {} {
      assert forall m :: m in l.missed ==> E.Lost(l.fails, |pe.file|, pe.Parts(), base, m.0, m.1);
      forall q | q in l.child
        ensures I.ImagePage(pe.file, pe.Parts(), base, l.missed, q) == I.ImagePage(pe.file, pe.Parts(), base, {}, q)
      {
        I.HarmlessWhole(pe.file, pe.Parts(), base, l.missed, q);
      }
    }
  }

  /** The other way round: if some copy into a page that is there already changes a byte, a load succeeds
      and is not the image.  All that fails are scratch mappings of that page. */
  method FaultyLoad(pe: Pe, base: int, i: nat, a: int) returns (l: E.Loader, r: E.Result<()>)
    requires i < |pe.Parts()| && Loadable(pe, base) && !I.Redundant(pe.file, pe.Parts(), base, i, a)
    ensures r.Ok? && E.FatalSucceed(l.fails) && (forall c :: !E.Succeeds(l.fails, c) ==> c.Add? && c.q == PageDown(a))
    ensures l.Valid() && PageDown(a) in l.child
    ensures l.Contents(PageDown(a)) != P.Page(pe.file, pe.Parts(), pe.Targets(), base, pe.imageBase, PageDown(a))
    ensures !IsLoaded(l, pe, base)
  {
    var q, ps := PageDown(a), pe.Parts();
    hide I.Image, I.Covers, I.Copies, I.HasPage, I.AnyHas, PageDown, P.AllContained, P.Rebased, P.Placed, E.Loader.Valid, PartsOf, TargetsOf;
    hide I.PageSet, I.Harmless, E.PageFlags;
    var from := if I.Image(pe.file, ps, base, {}, a) == I.Image(pe.file, ps[..i], base, {}, a) then i + 1 else i;
    var fails := (c: E.Call) => c.Add? && c.q == q && c.i >= from;
    assert forall c: E.Call :: !E.Succeeds(fails, c) <==> c.Add? && c.q == q && c.i >= from;
    hide E.Succeeds;
    l := new E.Loader(fails, true, false, 1);
    r := Load(l, pe, base);
    E.LostFrom(fails, pe.file, ps, base, l.missed, i, from, a);
    I.AnyHasMore(ps, i, |ps|, base, q);
    assert ps[..|ps|] == ps;
    DifferentPages(pe, base, l.missed, a);
  }

  /** A section on the page of the headers, its scratch mapping failing: the load succeeds without it. */
  method MissedSectionShows() returns (l: E.Loader, r: E.Result<()>)
    ensures r.Ok? && !IsLoaded(l, SectionOnHeaders(), 0)
  {
    SectionOnHeadersFacts();
    hide Loadable, I.Redundant, IsLoaded, E.Loader.Valid, P.Page;
    l, r := FaultyLoad(SectionOnHeaders(), 0, 1, 16);
  }

  function SectionOnHeaders(): Pe { Pe([7, 9], 1, [Section(16, 1, 1, 1, true, false, false)], 0, []) }

  lemma SectionOnHeadersFacts()
    ensures var pe := SectionOnHeaders();
            |pe.Parts()| == 2 && Loadable(pe, 0) && !I.Redundant(pe.file, pe.Parts(), 0, 1, 16)
  {
    var pe := SectionOnHeaders();
    var ps := [I.Segment(0, 0, 2, PAGE, false, false), I.Segment(16, 1, 1, 1, true, false)];
    assert PageUp(1) == PAGE;
    assert SectionParts([]) == [] && pe.sections[..0] == [];
    assert pe.Parts() == ps;
    hide PartsOf, I.PageSet, I.Redundant;
    OnlyPageZero(ps);
    SectionByteIsNew(ps);
  }

  lemma SectionByteIsNew(ps: seq<I.Segment>)
    requires ps == [I.Segment(0, 0, 2, PAGE, false, false), I.Segment(16, 1, 1, 1, true, false)]
    ensures !I.Redundant([7, 9], ps, 0, 1, 16)
  {
    assert PageDown(16) == 0 && ps[..1][0] == ps[0] && I.HasPage(ps[0], 0, 0);
    assert ps[..1][..0] == [] && !I.Covers(2, ps[0], 0, 16);
    assert I.Image([7, 9], ps[..1], 0, {}, 16) == 0;
  }

  lemma OnlyPageZero(ps: seq<I.Segment>)
    requires forall j :: 0 <= j < |ps| ==> ps[j].vaddr + ps[j].memsz <= PAGE
    ensures |I.PageSet(ps, 0)| <= 1
  {
    hide I.PageSet, I.HasPage;
    forall q | q in I.PageSet(ps, 0) ensures q == 0 {
      I.InPageSet(ps, 0, q);
      var j :| 0 <= j < |ps| && I.HasPage(ps[j], 0, q);
      InPageZero(ps[j], q);
    }
    Sets.SubsetSize(I.PageSet(ps, 0), {0});
  }

  lemma InPageZero(p: I.Segment, q: int)
    requires p.vaddr + p.memsz <= PAGE && I.HasPage(p, 0, q)
    ensures q == 0
  {
    PageOrder(p.vaddr + p.memsz, PAGE);
    assert PageUp(PAGE) == PAGE;
    hide PageUp, PageDown;
    PageOf(0, q);
    PageOf(q, q);
  }

  lemma DifferentPages(pe: Pe, base: int, missed: set<(nat, int)>, a: int)
    requires P.Moved(base, pe.imageBase) != 0 ==> P.AllContained(base, pe.Targets())
    requires I.Image(pe.file, pe.Parts(), base, missed, a) != I.Image(pe.file, pe.Parts(), base, {}, a)
    ensures var q := PageDown(a);
            P.Placed(pe.Targets(), base, pe.imageBase, q, I.ImagePage(pe.file, pe.Parts(), base, missed, q))
            != P.Page(pe.file, pe.Parts(), pe.Targets(), base, pe.imageBase, q)
  {
    hide I.Image, P.Rebased, PartsOf, TargetsOf, P.AllContained;
    var q := PageDown(a);
    var p1, p2 := I.ImagePage(pe.file, pe.Parts(), base, missed, q), I.ImagePage(pe.file, pe.Parts(), base, {}, q);
    assert p1[a - q] != p2[a - q];
    var delta := P.Moved(base, pe.imageBase);
    if delta != 0 && P.Rebased(pe.Targets(), base, delta, q, p1) == P.Rebased(pe.Targets(), base, delta, q, p2) {
      P.RebasedInjective(pe.Targets(), base, delta, q, p1, p2);
    }
  }

  /** Two loads of one image at different bases: the same pages with the same rights. */
  lemma SamePages(a: E.Loader, b: E.Loader, pe: Pe, l: int, m: int, q: int)
    requires l % PAGE == 0 && m % PAGE == 0 && q % PAGE == 0 && a.PagesAre(pe.Parts(), l) && b.PagesAre(pe.Parts(), m)
    ensures q + l in a.child <==> q + m in b.child
    ensures q + l in a.child ==> a.child[q + l].flags == b.child[q + m].flags
  {
    hide PartsOf, I.HasPage;
    var ps := pe.Parts();
    forall j | 0 <= j < |ps| ensures I.HasPage(ps[j], l, q + l) <==> I.HasPage(ps[j], m, q + m) {
      P.ShiftHasPage(ps[j], l, m, q);
    }
  }

  /** The words at offset t from the two bases differ by the distance of the bases, modulo 2^64. */
  ghost predicate WordMoved(a: E.Loader, b: E.Loader, l: int, m: int, t: nat)
    reads a, b
  {
    var q := PageDown(t);
    && a.Valid() && b.Valid() && q + l in a.child && q + m in b.child && t - q + 8 <= PAGE
    && Wrap(P.WordAt(a.Contents(q + l), t - q) - P.WordAt(b.Contents(q + m), t - q)) == Wrap(l - m)
  }

  ghost predicate ByteKept(a: E.Loader, b: E.Loader, l: int, m: int, q: int, k: nat)
    reads a, b
  {
    && a.Valid() && b.Valid() && q + l in a.child && q + m in b.child && k < PAGE
    && a.Contents(q + l)[k] == b.Contents(q + m)[k]
  }

  /** The words of the image lie in mapped pages at both bases, if they are relocated at one. */
  lemma TargetsAtBoth(a: E.Loader, b: E.Loader, pe: Pe, l: int, m: int, t: nat)
    requires l % PAGE == 0 && m % PAGE == 0 && IsLoaded(a, pe, l) && IsLoaded(b, pe, m) && t in pe.Targets()
    requires P.Moved(l, pe.imageBase) != 0
    ensures P.AllContained(l, pe.Targets()) && P.AllContained(m, pe.Targets())
    ensures PageDown(t) + l in a.child && PageDown(t) + m in b.child
  {
    hide E.Loader.Valid, I.ImagePage, P.Rebased, P.Placed, PartsOf, TargetsOf, I.HasPage, I.AnyHas, E.PageFlags, P.Page, P.Contained;
    PageShift(t, l);
    P.ContainedShift(l, m, pe.Targets());
    assert Mapped(a, l, pe.Targets());
    assert PageDown(l + t) in a.child;
    SamePages(a, b, pe, l, m, PageDown(t));
  }

  /** Each relocated word is moved. */
  lemma WordsMoved(a: E.Loader, b: E.Loader, pe: Pe, l: int, m: int, i: nat)
    requires l % PAGE == 0 && m % PAGE == 0 && IsLoaded(a, pe, l) && IsLoaded(b, pe, m)
    requires P.NoOverlap(pe.Targets()) && i < |pe.Targets()|
    requires P.Moved(l, pe.imageBase) != 0 || P.Moved(m, pe.imageBase) != 0
    ensures WordMoved(a, b, l, m, pe.Targets()[i])
  {
    hide E.Loader.Valid, I.ImagePage, P.Rebased, P.Placed, PartsOf, TargetsOf, I.HasPage, I.AnyHas, E.PageFlags, P.WordAt, P.Page, TargetsOk, PageDown, P.NoOverlap, P.Moved, P.Contained;
    var t := pe.Targets()[i];
    if P.Moved(l, pe.imageBase) != 0 { TargetsAtBoth(a, b, pe, l, m, t); } else { TargetsAtBoth(b, a, pe, m, l, t); }
    P.WordsDiffer(pe.file, pe.Parts(), pe.Targets(), l, m, pe.imageBase, i);
  }

  /** Every other byte is kept. */
  lemma BytesKept(a: E.Loader, b: E.Loader, pe: Pe, l: int, m: int, q: int, k: nat)
    requires l % PAGE == 0 && m % PAGE == 0 && IsLoaded(a, pe, l) && IsLoaded(b, pe, m)
    requires q + l in a.child && q + m in b.child && k < PAGE
    requires P.Away(pe.Targets(), q + k)
    ensures ByteKept(a, b, l, m, q, k)
  {
    hide E.Loader.Valid, I.ImagePage, P.Rebased, PartsOf, TargetsOf, I.HasPage, I.AnyHas, E.PageFlags, P.Page;
    P.OtherBytesEqual(pe.file, pe.Parts(), pe.Targets(), l, m, pe.imageBase, q, k);
  }

  /** Two children have the same pages, relative to the bases, with the same rights. */
  ghost predicate SameMapping(a: E.Loader, b: E.Loader, l: int, m: int)
    reads a`child, b`child
  {
    && (forall q :: q % PAGE == 0 ==> (q + l in a.child <==> q + m in b.child))
    && (forall q :: q % PAGE == 0 && q + l in a.child && q + m in b.child ==> a.child[q + l].flags == b.child[q + m].flags)
  }

  lemma PagesAgree(a: E.Loader, b: E.Loader, pe: Pe, l: int, m: int)
    requires l % PAGE == 0 && m % PAGE == 0 && a.PagesAre(pe.Parts(), l) && b.PagesAre(pe.Parts(), m)
    ensures SameMapping(a, b, l, m)
  {
    hide E.Loader.PagesAre;
    forall q | q % PAGE == 0
      ensures q + l in a.child <==> q + m in b.child
      ensures q + l in a.child && q + m in b.child ==> a.child[q + l].flags == b.child[q + m].flags
    {
      SamePages(a, b, pe, l, m, q);
    }
  }

  /** They hold the image at the two bases: each relocated word is moved, every other byte is the same. */
  ghost predicate SameBytes(a: E.Loader, b: E.Loader, pe: Pe, l: int, m: int)
    reads a, b
  {
    && (P.NoOverlap(pe.Targets()) && (P.Moved(l, pe.imageBase) != 0 || P.Moved(m, pe.imageBase) != 0) ==>
          forall i :: 0 <= i < |pe.Targets()| ==> WordMoved(a, b, l, m, pe.Targets()[i]))
    && (forall q, k: nat :: q % PAGE == 0 && q + l in a.child && k < PAGE && P.Away(pe.Targets(), q + k) ==> ByteKept(a, b, l, m, q, k))
  }

  lemma BytesAgree(a: E.Loader, b: E.Loader, pe: Pe, l: int, m: int)
    requires l % PAGE == 0 && m % PAGE == 0 && IsLoaded(a, pe, l) && IsLoaded(b, pe, m)
    ensures SameBytes(a, b, pe, l, m)
  {
    PagesAgree(a, b, pe, l, m);
    hide IsLoaded, WordMoved, ByteKept, P.NoOverlap, P.Moved, TargetsOf, P.Away;
    if P.NoOverlap(pe.Targets()) && (P.Moved(l, pe.imageBase) != 0 || P.Moved(m, pe.imageBase) != 0) {
      forall i | 0 <= i < |pe.Targets()| ensures WordMoved(a, b, l, m, pe.Targets()[i]) { WordsMoved(a, b, pe, l, m, i); }
    }
    forall q, k: nat | q % PAGE == 0 && q + l in a.child && k < PAGE && P.Away(pe.Targets(), q + k)
      ensures ByteKept(a, b, l, m, q, k)
    {
      BytesKept(a, b, pe, l, m, q, k);
    }
  }

  /** Loads an image into two children at two bases.  If both loads succeed, whatever was lost, the children
      have the same pages and rights; if no copy was lost, or none that matters, they have the same bytes
      but for the relocated words.  They do succeed if the kernel lets them. */
  method TwoLoads(pe: Pe, l: int, m: int, failsA: E.Call -> bool, failsB: E.Call -> bool)
    returns (a: E.Loader, b: E.Loader, ra: E.Result<()>, rb: E.Result<()>)
    requires l % PAGE == 0 && m % PAGE == 0
    ensures ra.Ok? && rb.Ok? ==> SameMapping(a, b, l, m)
    ensures ra.Ok? && rb.Ok? && Dependable(a, pe, l) && Dependable(b, pe, m) ==> SameBytes(a, b, pe, l, m)
    ensures ra.Ok? ==> a.fails == failsA && a.MissedLost(|pe.file|, pe.Parts(), l) && (E.AllSucceed(failsA) ==> a.missed == {})
    ensures rb.Ok? ==> b.fails == failsB && b.MissedLost(|pe.file|, pe.Parts(), m) && (E.AllSucceed(failsB) ==> b.missed == {})
    ensures E.FatalSucceed(failsA) && Loadable(pe, l) ==> ra.Ok?
    ensures E.FatalSucceed(failsB) && Loadable(pe, m) ==> rb.Ok?
  {
    hide IsLoaded, E.Loader.PagesAre, SameMapping, SameBytes, Loadable, TargetsOk, I.Harmless, E.Loader.Valid, E.Loader.TableOk, P.Placed, I.ImagePage, E.Loader.MissedLost;
    hide PartsOf, TargetsOf;
    a := new E.Loader(failsA, true, false, 1);
    ra := Load(a, pe, l);
    b := new E.Loader(failsB, true, false, 1);
    rb := Load(b, pe, m);
    if ra.Ok? && rb.Ok? { PagesAgree(a, b, pe, l, m); }
    if IsLoaded(a, pe, l) && IsLoaded(b, pe, m) { BytesAgree(a, b, pe, l, m); }
  }
}

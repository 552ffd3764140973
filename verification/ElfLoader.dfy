/** Loading an ELF image page by page into a child's address space.  The kernel's answers are an oracle:
    it says of each call, by what the call is for, whether it fails.  No load makes a call twice, so that
    this allows every behaviour of the kernel. */
module ElfLoader {
  import opened Common
  import opened Bytes
  import I = ElfImage

  const MAX_PAGES: nat := 256

  type Segment = I.Segment

  /** Overrun: a relocated word would reach past the scratch page. */
  datatype Error = NoLoad | OutOfMemory | MapFailed | RelocFailed | Overrun

  datatype Result<T> = Ok(value: T) | Err(error: Error)

  datatype Flags = Flags(writable: bool, executable: bool)

  datatype Mapping = Mapping(frame: nat, flags: Flags)

  /** A row of the loader's page table. */
  datatype Entry = Entry(vaddr: int, at: Mapping)

  predicate NotBoth(f: Flags) { !(f.writable && f.executable) }

  /** W^X: a segment that is both writable and executable is mapped writable. */
  function SegmentFlags(p: Segment): (f: Flags)
    ensures NotBoth(f)
  {
    if p.writable then Flags(true, false) else Flags(false, p.executable)
  }

  function Merge(a: Flags, b: Flags): (f: Flags)
    ensures NotBoth(f)
  {
    var f := Flags(a.writable || b.writable, a.executable || b.executable);
    if f.writable && f.executable then f.(executable := false) else f
  }

  /** The flags a page has in the end: writable if any of its segments is, else executable if any is. */
  function PageFlags(ps: seq<Segment>, delta: int, q: int): Flags {
    var w := I.AnyWritable(ps, delta, q);
    Flags(w, !w && I.AnyExecutable(ps, delta, q))
  }

  /** The kernel calls of a load: for a new page its frame, the scratch mapping to fill it, the child's
      mapping and the report of it; for a page that is there the scratch mapping to add the bytes of
      segment i, the mapping with other rights and the report of that; the scratch mapping for the k-th
      relocation. */
  datatype Call =
    | Retype(q: int)
    | Fill(q: int)
    | MapChild(q: int)
    | Record(q: int)
    | Add(i: nat, q: int)
    | Remap(i: nat, q: int)
    | Report(i: nat, q: int)
    | Reloc(k: nat)

  predicate Succeeds(fails: Call -> bool, c: Call) { !fails(c) }

  ghost predicate AllSucceed(fails: Call -> bool) { forall c: Call :: Succeeds(fails, c) }

  /** All calls succeed whose failure ends the load. */
  ghost predicate FatalSucceed(fails: Call -> bool) { forall c: Call :: !c.Add? ==> Succeeds(fails, c) }

  /** The copy of segment j's bytes into page q is lost: an earlier segment has the page, and the scratch
      mapping fails. */
  ghost predicate Lost(fails: Call -> bool, fileLen: nat, ps: seq<Segment>, delta: int, j: nat, q: int) {
    I.Shared(fileLen, ps, delta, j, q) && !Succeeds(fails, Add(j, q))
  }

  /** The copies missed are those lost before page v of segment i. */
  ghost predicate MissedUpto(fails: Call -> bool, fileLen: nat, ps: seq<Segment>, delta: int, missed: set<(nat, int)>, i: nat, v: int) {
    forall j: nat, q: int :: (j, q) in missed <==> (j < i || (j == i && q < v)) && Lost(fails, fileLen, ps, delta, j, q)
  }

  lemma MissedStep(fails: Call -> bool, fileLen: nat, ps: seq<Segment>, delta: int, missed: set<(nat, int)>, i: nat, v: int)
    requires i < |ps| && I.HasPage(ps[i], delta, v) && MissedUpto(fails, fileLen, ps, delta, missed, i, v)
    ensures MissedUpto(fails, fileLen, ps, delta, if Lost(fails, fileLen, ps, delta, i, v) then missed + {(i, v)} else missed, i, v + PAGE)
  {
    hide I.Copies, I.AnyHas;
    forall q: int | Lost(fails, fileLen, ps, delta, i, q) && v <= q < v + PAGE ensures q == v {
      OnePage(ps[i], delta, v, q);
    }
  }

  lemma OnePage(p: Segment, delta: int, v: int, q: int)
    requires I.HasPage(p, delta, v) && I.HasPage(p, delta, q) && v <= q < v + PAGE
    ensures q == v
  {
    PageOf(v, q);
    PageOf(q, q);
  }

  class Loader {
    var pages: seq<Entry>
    var frames: map<nat, seq<Byte>>
    var child: map<int, Mapping>
    var nextFrame: nat
    var relocs: nat
    const fails: Call -> bool
    /** Whether the loader makes its frames itself, and whether it reports pages it maps again. */
    const retypes: bool
    const reportsRemaps: bool
    /** Copies, by segment and page, that a failed scratch mapping has skipped. */
    ghost var missed: set<(nat, int)>

    ghost predicate EntryOk(e: Entry)
      reads `frames, `child, `nextFrame
    {
      && e.vaddr % PAGE == 0 && e.vaddr in child && child[e.vaddr] == e.at
      && e.at.frame in frames && |frames[e.at.frame]| == PAGE && 0 < e.at.frame < nextFrame && NotBoth(e.at.flags)
    }

    predicate Listed(q: int)
      reads `pages
    {
      exists j :: 0 <= j < |pages| && pages[j].vaddr == q
    }

    ghost predicate RowOk(e: Entry)
      reads `frames, `nextFrame
    {
      && e.vaddr % PAGE == 0 && NotBoth(e.at.flags)
      && e.at.frame in frames && |frames[e.at.frame]| == PAGE && 0 < e.at.frame < nextFrame
    }

    predicate RowsApart()
      reads `pages
    {
      forall j, k :: 0 <= j < k < |pages| ==> pages[j].vaddr != pages[k].vaddr && pages[j].at.frame != pages[k].at.frame
    }

    /** A row of the table is the child's mapping at q. */
    predicate Backed(q: int)
      requires q in child
      reads `pages, `child
    {
      exists j :: 0 <= j < |pages| && pages[j] == Entry(q, child[q])
    }

    /** What holds however a load ends: the rows have distinct page-aligned addresses, each with a frame of
        its own and never both writable and executable, and the child has mapped nothing else. */
    ghost predicate TableOk()
      reads `pages, `frames, `child, `nextFrame
    {
      && (forall j :: 0 <= j < |pages| ==> RowOk(pages[j])) && RowsApart()
      && (forall q :: q in child ==> Backed(q))
    }

    /** The table, and every row of it is mapped. */
    ghost predicate Valid()
      reads `pages, `frames, `child, `nextFrame
    {
      && (forall j :: 0 <= j < |pages| ==> EntryOk(pages[j])) && RowsApart()
      && (forall q :: q in child ==> Listed(q))
    }

    /** That is the table and no row without a mapping. */
    lemma ValidIff()
      ensures Valid() <==> TableOk() && forall j :: 0 <= j < |pages| ==> pages[j].vaddr in child
    {
      if Valid() {
        forall q | q in child ensures Backed(q) {
          assert Listed(q);
          var j :| 0 <= j < |pages| && pages[j].vaddr == q;
          assert EntryOk(pages[j]) && pages[j] == Entry(q, child[q]);
        }
        assert forall j :: 0 <= j < |pages| ==> EntryOk(pages[j]) && RowOk(pages[j]);
      }
      if TableOk() && forall j :: 0 <= j < |pages| ==> pages[j].vaddr in child {
        forall j | 0 <= j < |pages| ensures EntryOk(pages[j]) {
          var q := pages[j].vaddr;
          assert RowOk(pages[j]) && Backed(q);
          var k :| 0 <= k < |pages| && pages[k] == Entry(q, child[q]);
          assert j == k;
        }
        forall q | q in child ensures Listed(q) { assert Backed(q); }
      }
    }

    /** Nothing that the child has mapped is both writable and executable. */
    lemma NeverBoth(q: int)
      requires TableOk() && q in child
      ensures q % PAGE == 0 && NotBoth(child[q].flags)
    {
      assert Backed(q);
    }

    /** The bytes of the child's page at q. */
    ghost function Contents(q: int): (r: seq<Byte>)
      requires Valid() && q in child
      reads `pages, `frames, `child, `nextFrame
      ensures |r| == PAGE
    {
      assert Listed(q);
      frames[child[q].frame]
    }

    constructor (fails: Call -> bool, retypes: bool, reportsRemaps: bool, nextFrame: nat)
      ensures Valid() && pages == [] && child == map[] && missed == {}
      ensures this.fails == fails && this.nextFrame == nextFrame
    {
      pages, frames, child, relocs, missed := [], map[], map[], 0, {};
      this.fails, this.retypes, this.reportsRemaps, this.nextFrame := fails, retypes, reportsRemaps, nextFrame;
    }

    /** A frame that no page has. */
    method NextFrame() returns (frame: nat)
      requires Valid()
      modifies this`nextFrame
      ensures Valid() && frame == old(nextFrame) && nextFrame == frame + 1
      ensures forall x :: x in child ==> Contents(x) == old(Contents(x))
      ensures forall j :: 0 <= j < |pages| ==> pages[j].at.frame != frame
    {
      frame := nextFrame;
      nextFrame := nextFrame + 1;
    }

    method FindPage(q: int) returns (idx: nat)
      ensures idx <= |pages| && (idx < |pages| ==> pages[idx].vaddr == q)
      ensures idx == |pages| <==> !Listed(q)
    {
      idx := 0;
      while idx < |pages|
        invariant idx <= |pages| && forall j :: 0 <= j < idx ==> pages[j].vaddr != q
      {
        if pages[idx].vaddr == q {
          return;
        }
        idx := idx + 1;
      }
    }

    /** Maps a filled frame at a new page and lists it. */
    method Append(q: int, m: Mapping, page: seq<Byte>)
      requires Valid() && !Listed(q) && q % PAGE == 0 && NotBoth(m.flags) && |page| == PAGE
      requires 0 < m.frame < nextFrame && forall j :: 0 <= j < |pages| ==> pages[j].at.frame != m.frame
      modifies this`pages, this`frames, this`child
      ensures Valid() && pages == old(pages) + [Entry(q, m)] && child == old(child)[q := m]
      ensures Contents(q) == page
      ensures forall x :: x in old(child) ==> child[x] == old(child[x]) && Contents(x) == old(Contents(x))
    {
      assert forall x :: x in child ==> old(Listed(x));
      frames, child, pages := frames[m.frame := page], child[q := m], pages + [Entry(q, m)];
      assert pages[|pages| - 1].vaddr == q;
      forall x | x in old(child) ensures Listed(x) {
        var j :| 0 <= j < |old(pages)| && old(pages)[j].vaddr == x;
        assert pages[j].vaddr == x;
      }
    }

    /** Writes the bytes of a listed page. */
    method SetBytes(idx: nat, page: seq<Byte>)
      requires Valid() && idx < |pages| && |page| == PAGE
      modifies this`frames
      ensures Valid() && pages[idx].vaddr in child && Contents(pages[idx].vaddr) == page
      ensures forall x :: x in child && x != pages[idx].vaddr ==> Contents(x) == old(Contents(x))
    {
      frames := frames[pages[idx].at.frame := page];
      forall x | x in child && x != pages[idx].vaddr ensures Contents(x) == old(Contents(x)) {
        assert Listed(x);
      }
    }

    /** Maps a listed page again, with other flags. */
    method SetFlags(idx: nat, flags: Flags)
      requires Valid() && idx < |pages| && NotBoth(flags)
      modifies this`pages, this`child
      ensures Valid() && |pages| == |old(pages)|
      ensures var q := old(pages)[idx].vaddr; q in old(child) && child == old(child)[q := old(child[q]).(flags := flags)]
      ensures forall x :: x in child ==> Contents(x) == old(Contents(x))
    {
      var e := pages[idx];
      var m := Mapping(e.at.frame, flags);
      assert forall x :: x in child ==> old(Listed(x));
      assert EntryOk(e);
      child, pages := child[e.vaddr := m], pages[idx := Entry(e.vaddr, m)];
      forall j | 0 <= j < |pages| ensures EntryOk(pages[j]) { assert old(EntryOk(pages[j])); }
      forall x | x in old(child) ensures Listed(x) {
        var j :| 0 <= j < |old(pages)| && old(pages)[j].vaddr == x;
        assert pages[j].vaddr == x;
      }
      hide EntryOk, Listed, RowsApart, NotBoth;
    }

    /** Unmaps a listed page; its row stays. */
    method Unmap(idx: nat)
      requires Valid() && idx < |pages|
      modifies this`child
      ensures TableOk() && child == old(child) - {pages[idx].vaddr}
    {
      ValidIff();
      child := child - {pages[idx].vaddr};
      forall q | q in child ensures Backed(q) { assert old(Backed(q)); }
    }

    /** Gets a frame and makes the kernel calls that fill it and map it. */
    method Prepare(q: int) returns (r: Result<nat>)
      requires Valid()
      modifies this`nextFrame
      ensures Valid() && (r.Ok? ==> 0 < r.value < nextFrame && forall j :: 0 <= j < |pages| ==> pages[j].at.frame != r.value)
      ensures forall x :: x in child ==> Contents(x) == old(Contents(x))
      ensures FatalSucceed(fails) && 0 < old(nextFrame) ==> r.Ok?
    {
      hide Valid;
      var frame := NextFrame();
      if frame == 0 {
        return Err(OutOfMemory);
      }
      if retypes && !Succeeds(fails, Retype(q)) {
        return Err(OutOfMemory);
      }
      if !Succeeds(fails, Fill(q)) {
        return Err(MapFailed);
      }
      if !Succeeds(fails, MapChild(q)) {
        return Err(MapFailed);
      }
      r := Ok(frame);
    }

    /** Puts a frame with the segment's bytes, and zeros around them, at a page nothing is mapped at. */
    method AddPage(file: seq<Byte>, p: Segment, delta: int, q: int) returns (r: Result<()>)
      requires Valid() && I.HasPage(p, delta, q) && !Listed(q)
      modifies this`pages, this`frames, this`child, this`nextFrame
      ensures Valid()
      ensures forall x :: x in old(child) ==> x in child && child[x] == old(child[x]) && Contents(x) == old(Contents(x))
      ensures r.Ok? ==> |pages| == |old(pages)| + 1 && child.Keys == old(child.Keys) + {q}
      ensures r.Ok? ==> child[q].flags == SegmentFlags(p) && Contents(q) == I.Patch(file, p, delta, q, I.Zeros())
      ensures FatalSucceed(fails) && 0 < old(nextFrame) ==> r.Ok? && 0 < nextFrame
    {
      hide I.Patch, Valid, I.Start, I.End;
      var frame := Prepare(q);
      if frame.Err? {
        return Err(frame.error);
      }
      var page := CopyInto(file, p, delta, q, I.Zeros());
      Append(q, Mapping(frame.value, SegmentFlags(p)), page);
      r := if Succeeds(fails, Record(q)) then Ok(()) else Err(OutOfMemory);
    }

    /** Adds a segment's bytes to a page that is mapped already.  When the scratch mapping fails they
        are skipped, and loading goes on. */
    method MergeBytes(file: seq<Byte>, p: Segment, i: nat, delta: int, q: int, idx: nat) returns (ghost skipped: bool)
      requires Valid() && I.HasPage(p, delta, q) && idx < |pages| && pages[idx].vaddr == q
      modifies this`frames, this`missed
      ensures Valid() && q in child
      ensures forall x :: x in child && x != q ==> Contents(x) == old(Contents(x))
      ensures Contents(q) == if skipped then old(Contents(q)) else I.Patch(file, p, delta, q, old(Contents(q)))
      ensures missed == if skipped then old(missed) + {(i, q)} else old(missed)
      ensures skipped <==> I.Copies(|file|, p, delta, q) && !Succeeds(fails, Add(i, q))
    {
      hide I.Start, I.End;
      assert EntryOk(pages[idx]);
      skipped := false;
      if I.Copies(|file|, p, delta, q) {
        var page := CopyInto(file, p, delta, q, frames[pages[idx].at.frame]);
        if Succeeds(fails, Add(i, q)) {
          hide Valid, I.Patch;
          SetBytes(idx, page);
        } else {
          missed := missed + {(i, q)};
          skipped := true;
        }
      }
    }

    /** Adds a segment's rights to a page that is mapped already.  The page is unmapped first, and stays so
        when it cannot be mapped again. */
    method MergeFlags(p: Segment, i: nat, q: int, idx: nat) returns (r: Result<()>)
      requires Valid() && idx < |pages| && pages[idx].vaddr == q && q in child
      modifies this`pages, this`child
      ensures TableOk() && |pages| == |old(pages)| && (r.Ok? ==> Valid())
      ensures var merged := Merge(old(child[q].flags), SegmentFlags(p));
              var failed := merged != old(child[q].flags) && !Succeeds(fails, Remap(i, q));
              && child == (if failed then old(child) - {q} else old(child)[q := old(child[q]).(flags := merged)])
              && (failed ==> r == Err(MapFailed) && pages == old(pages))
      ensures r.Ok? ==> forall x :: x in child ==> Contents(x) == old(Contents(x))
      ensures FatalSucceed(fails) ==> r.Ok?
    {
      assert EntryOk(pages[idx]);
      hide Merge, SegmentFlags, Valid;
      var merged := Merge(pages[idx].at.flags, SegmentFlags(p));
      if merged != pages[idx].at.flags {
        if !Succeeds(fails, Remap(i, q)) {
          Unmap(idx);
          return Err(MapFailed);
        }
        SetFlags(idx, merged);
        ValidIff();
        if reportsRemaps && !Succeeds(fails, Report(i, q)) {
          return Err(OutOfMemory);
        }
      }
      ValidIff();
      r := Ok(());
    }

    /** Loads one page of a segment: a new page, or more bytes and rights for one that is there. */
    method LoadPage(file: seq<Byte>, p: Segment, i: nat, delta: int, q: int, capacity: nat)
      returns (r: Result<()>, ghost skipped: bool)
      requires Valid() && I.HasPage(p, delta, q) && (Listed(q) || |pages| < capacity)
      modifies this
      ensures TableOk() && (r.Ok? ==> Valid() && child.Keys == old(child.Keys) + {q})
      ensures r.Ok? ==> |pages| == |old(pages)| + if q in old(child) then 0 else 1
      ensures r.Ok? ==> forall x :: x in old(child) && x != q ==> child[x] == old(child[x]) && Contents(x) == old(Contents(x))
      ensures r.Ok? ==> child[q].flags == if q in old(child) then Merge(old(child[q].flags), SegmentFlags(p)) else SegmentFlags(p)
      ensures r.Ok? ==> Contents(q) ==
                          var before := if q in old(child) then old(Contents(q)) else I.Zeros();
                          if skipped then before else I.Patch(file, p, delta, q, before)
      ensures r.Ok? ==> missed == (if skipped then old(missed) + {(i, q)} else old(missed))
      ensures skipped <==> q in old(child) && I.Copies(|file|, p, delta, q) && !Succeeds(fails, Add(i, q))
      ensures FatalSucceed(fails) && 0 < old(nextFrame) ==> r.Ok? && 0 < nextFrame
    {
      hide Merge, SegmentFlags, I.Patch, I.HasPage;
      var idx := FindPage(q);
      skipped := false;
      if idx < |pages| {
        assert EntryOk(pages[idx]);
        hide Valid;
        skipped := MergeBytes(file, p, i, delta, q, idx);
        r := MergeFlags(p, i, q, idx);
      } else {
        if |pages| >= capacity {
          assert false;
          return Err(OutOfMemory), false;
        }
        hide Valid;
        r := AddPage(file, p, delta, q);
        ValidIff();
        hide TableOk;
      }
    }

    /** The page at q is as the first k segments make it: mapped if one of them has it, with the bytes
        and the rights that they give it. */
    ghost predicate PageOk(file: seq<Byte>, ps: seq<Segment>, k: nat, delta: int, q: int)
      requires Valid() && k <= |ps|
      reads `pages, `frames, `child, `nextFrame, `missed
    {
      && (q in child <==> I.AnyHas(ps[..k], delta, q))
      && (q in child ==> Contents(q) == I.ImagePage(file, ps[..k], delta, missed, q) && child[q].flags == PageFlags(ps[..k], delta, q))
    }

    /** Segment i is loaded up to page v, the segments before it are loaded. */
    ghost predicate Upto(file: seq<Byte>, ps: seq<Segment>, i: nat, delta: int, v: int)
      requires i < |ps|
      reads `pages, `frames, `child, `nextFrame, `missed
    {
      && Valid()
      && (forall q :: q % PAGE == 0 ==> PageOk(file, ps, Reached(ps, i, delta, v, q), delta, q))
      && MissedUpto(fails, |file|, ps, delta, missed, i, v)
    }

    ghost predicate Loaded(file: seq<Byte>, ps: seq<Segment>, k: nat, delta: int)
      requires k <= |ps|
      reads `pages, `frames, `child, `nextFrame, `missed
    {
      && Valid() && (forall q :: q % PAGE == 0 ==> PageOk(file, ps, k, delta, q))
      && (forall j: nat, q: int :: (j, q) in missed <==> j < k && Lost(fails, |file|, ps, delta, j, q))
    }

    lemma SegmentBegins(file: seq<Byte>, ps: seq<Segment>, i: nat, delta: int)
      requires i < |ps| && Loaded(file, ps, i, delta)
      ensures Upto(file, ps, i, delta, I.Start(ps[i], delta))
    {
      hide I.ImagePage, I.AnyHas, I.AnyWritable, I.AnyExecutable, Valid;
      var v := I.Start(ps[i], delta);
      forall q | q % PAGE == 0 ensures PageOk(file, ps, Reached(ps, i, delta, v, q), delta, q) {
        assert PageOk(file, ps, i, delta, q);
        if !I.HasPage(ps[i], delta, q) {
          I.SamePage(file, ps, i, delta, missed, q);
          I.AnyStep(ps, i, delta, q);
        }
      }
    }

    lemma SegmentEnds(file: seq<Byte>, ps: seq<Segment>, i: nat, delta: int, v: int)
      requires i < |ps| && Upto(file, ps, i, delta, v) && v >= I.End(ps[i], delta)
      ensures Loaded(file, ps, i + 1, delta)
    {
      hide I.ImagePage, I.AnyHas, I.AnyWritable, I.AnyExecutable, Valid;
      forall q | q % PAGE == 0 ensures PageOk(file, ps, i + 1, delta, q) {
        assert PageOk(file, ps, Reached(ps, i, delta, v, q), delta, q);
      }
    }

    lemma ListedIsMapped(q: int)
      requires Valid()
      ensures Listed(q) <==> q in child
    {
      if Listed(q) {
        var j :| 0 <= j < |pages| && pages[j].vaddr == q;
        assert EntryOk(pages[j]);
      }
    }

    /** Loads page v of segment i. */
    method Step(file: seq<Byte>, ps: seq<Segment>, i: nat, delta: int, v: int, capacity: nat) returns (r: Result<()>)
      requires i < |ps| && Upto(file, ps, i, delta, v) && I.HasPage(ps[i], delta, v) && |pages| < capacity
      modifies this
      ensures TableOk()
      ensures r.Ok? ==> Upto(file, ps, i, delta, v + PAGE) && |pages| <= |old(pages)| + if old(Listed(v)) then 0 else 1
      ensures FatalSucceed(fails) && 0 < old(nextFrame) ==> r.Ok? && 0 < nextFrame
    {
      hide I.ImagePage, I.AnyHas, I.AnyWritable, I.AnyExecutable, I.Patch, I.Start, I.End, Merge, SegmentFlags, PageFlags, Valid, TableOk, I.Copies;
      ListedIsMapped(v);
      MissedStep(fails, |file|, ps, delta, missed, i, v);
      assert (i, v) !in missed;
      hide MissedUpto;
      ghost var skipped;
      assert PageOk(file, ps, Reached(ps, i, delta, v, v), delta, v);
      r, skipped := LoadPage(file, ps[i], i, delta, v, capacity);
      assert skipped <==> Lost(fails, |file|, ps, delta, i, v);
      if r.Ok? {
        NewPage(file, ps, i, delta, old(missed), v, skipped);
        forall q | q % PAGE == 0 ensures PageOk(file, ps, Reached(ps, i, delta, v + PAGE, q), delta, q) {
          if q != v {
            var k := Reached(ps, i, delta, v, q);
            assert k == Reached(ps, i, delta, v + PAGE, q);
            assert old(PageOk(file, ps, k, delta, q));
            I.SameMissed(file, ps, k, i, v, delta, old(missed), q);
          }
        }
      }
    }

    method LoadSegment(file: seq<Byte>, ps: seq<Segment>, i: nat, delta: int, capacity: nat) returns (r: Result<()>)
      requires i < |ps| && Loaded(file, ps, i, delta) && |pages| <= I.Count(ps[..i], delta) && capacity == I.Count(ps, delta)
      modifies this
      ensures TableOk()
      ensures r.Ok? ==> Loaded(file, ps, i + 1, delta) && |pages| <= I.Count(ps[..i + 1], delta)
      ensures FatalSucceed(fails) && 0 < old(nextFrame) ==> r.Ok? && 0 < nextFrame
    {
      hide Upto, Loaded, PageDown, PageUp, TableOk;
      SegmentBegins(file, ps, i, delta);
      CapacityLeft(ps, i, delta);
      hide I.Size, I.Count;
      var v := I.Start(ps[i], delta);
      ghost var n := 0;
      while v < I.End(ps[i], delta)
        invariant v == I.Start(ps[i], delta) + n * PAGE && Upto(file, ps, i, delta, v)
        invariant n <= I.Size(ps[i], delta) && |pages| <= I.Count(ps[..i], delta) + n
        invariant FatalSucceed(fails) && 0 < old(nextFrame) ==> 0 < nextFrame
      {
        PageInSegment(ps[i], delta, v, n);
        r := Step(file, ps, i, delta, v, capacity);
        if r.Err? {
          return;
        }
        v := v + PAGE;
        n := n + 1;
      }
      SegmentEnds(file, ps, i, delta, v);
      LoadedIsOk(file, ps, i + 1, delta);
      r := Ok(());
    }

    lemma LoadedIsOk(file: seq<Byte>, ps: seq<Segment>, k: nat, delta: int)
      requires k <= |ps| && Loaded(file, ps, k, delta)
      ensures TableOk()
    {
      hide Valid, TableOk, PageOk;
      ValidIff();
    }

    /** Loads every segment.  The capacity that was worked out beforehand is never reached too early. */
    method LoadSegments(file: seq<Byte>, ps: seq<Segment>, delta: int) returns (r: Result<int>)
      requires Valid() && pages == [] && child == map[] && missed == {}
      modifies this
      ensures TableOk()
      ensures r.Ok? ==> Loaded(file, ps, |ps|, delta) && IsBreak(ps, delta, r.value)
      ensures I.Count(ps, delta) == 0 ==> r == Err(NoLoad)
      ensures I.Count(ps, delta) > MAX_PAGES ==> r == Err(OutOfMemory)
      ensures FatalSucceed(fails) && 0 < old(nextFrame) && 0 < I.Count(ps, delta) <= MAX_PAGES ==> r.Ok?
    {
      ValidIff();
      hide TableOk;
      var capacity := CountPages(ps, delta);
      if capacity == 0 {
        return Err(NoLoad);
      }
      if capacity > MAX_PAGES {
        return Err(OutOfMemory);
      }
      NothingLoaded(file, ps, delta);
      hide Loaded, PageDown, PageUp, Valid;
      var i, brk := 0, 0;
      while i < |ps|
        invariant i <= |ps| && Loaded(file, ps, i, delta) && |pages| <= I.Count(ps[..i], delta)
        invariant IsBreak(ps[..i], delta, brk) && TableOk()
        invariant FatalSucceed(fails) && 0 < old(nextFrame) ==> 0 < nextFrame
      {
        var end := I.End(ps[i], delta);
        BreakStep(ps, i, delta, brk);
        if end > brk {
          brk := end;
        }
        var done := LoadSegment(file, ps, i, delta, capacity);
        if done.Err? {
          return Err(done.error);
        }
        i := i + 1;
      }
      assert ps[..i] == ps;
      r := Ok(brk);
    }

    lemma NothingLoaded(file: seq<Byte>, ps: seq<Segment>, delta: int)
      requires Valid() && pages == [] && child == map[] && missed == {}
      ensures Loaded(file, ps, 0, delta)
    {
      forall q | q % PAGE == 0 ensures PageOk(file, ps, 0, delta, q) { assert q !in child; }
    }

    ghost predicate AllMapped(rs: seq<I.Rela>, delta: int)
      reads `child
    {
      forall i :: 0 <= i < |rs| ==> PageDown(I.Target(rs[i], delta)) in child
    }

    /** Stores each relative relocation's word through the page table. */
    method Relocate(rs: seq<I.Rela>, delta: int, base: nat) returns (r: Result<()>)
      requires Valid()
      modifies this`frames, this`relocs
      ensures Valid()
      ensures r.Ok? ==>
                && I.AllContained(rs, delta)
                && forall q :: q in child ==> Contents(q) == I.Relocated(rs, delta, base, q, old(Contents(q)))
      ensures r.Ok? ==> AllMapped(rs, delta)
      ensures r == Err(Overrun) ==> !I.AllContained(rs, delta)
      ensures FatalSucceed(fails) && I.AllContained(rs, delta) && AllMapped(rs, delta) ==> r.Ok?
    {
      hide PageDown, I.Relocated, I.Contained, Valid;
      NoneRelocated(delta, base);
      var i := 0;
      while i < |rs|
        invariant i <= |rs| && Valid() && I.AllContained(rs[..i], delta)
        invariant forall q :: q in child ==> Contents(q) == I.Relocated(rs[..i], delta, base, q, old(Contents(q)))
        invariant forall j :: 0 <= j < i ==> PageDown(I.Target(rs[j], delta)) in child
      {
        r := RelocateOne(rs[i], delta, base);
        if r.Err? {
          return;
        }
        assert I.AllContained(rs[..i + 1], delta);
        forall q | q in child
          ensures Contents(q) == I.Relocated(rs[..i + 1], delta, base, q, old(Contents(q)))
        {
          RelocatedStep(rs, i, delta, base, q, old(Contents(q)));
        }
        i := i + 1;
      }
      assert rs[..i] == rs;
      r := Ok(());
    }

    /** Only a position-independent image is relocated. */
    method RelocatePie(ghost file: seq<Byte>, ghost ps: seq<Segment>, pie: bool, rs: seq<I.Rela>, delta: int, base: nat)
      returns (r: Result<()>)
      requires Holds(file, ps, delta, base, [], missed)
      modifies this`frames, this`relocs
      ensures Valid()
      ensures r.Ok? ==> Holds(file, ps, delta, base, Applied(pie, rs), missed) && AllMapped(Applied(pie, rs), delta)
      ensures FatalSucceed(fails) && I.AllContained(Applied(pie, rs), delta) && AllMapped(Applied(pie, rs), delta) ==> r.Ok?
    {
      NoneApplied(file, ps, delta, base);
      hide Valid, I.Relocated, I.ImagePage, I.AllContained, PageDown;
      r := Ok(());
      if pie {
        r := Relocate(rs, delta, base);
      }
    }

    lemma NoneApplied(file: seq<Byte>, ps: seq<Segment>, delta: int, base: nat)
      requires Valid()
      ensures Holds(file, ps, delta, base, [], missed) <==> forall q :: q in child ==> Contents(q) == I.ImagePage(file, ps, delta, missed, q)
    {
      hide Valid, I.ImagePage;
    }

    lemma NoneRelocated(delta: int, base: nat)
      requires Valid()
      ensures forall q :: q in child ==> Contents(q) == I.Relocated([], delta, base, q, Contents(q))
    {}

    method RelocateOne(rela: I.Rela, delta: int, base: nat) returns (r: Result<()>)
      requires Valid()
      modifies this`frames, this`relocs
      ensures Valid() && (r.Ok? ==> PageDown(I.Target(rela, delta)) in child && I.Contained(rela, delta))
      ensures r.Ok? ==> forall q :: q in child ==>
                          Contents(q) == if PageDown(I.Target(rela, delta)) == q
                                         then I.PutWord(old(Contents(q)), I.Target(rela, delta) - q, I.Value(rela, base))
                                         else old(Contents(q))
      ensures r == Err(Overrun) ==> !I.Contained(rela, delta)
      ensures FatalSucceed(fails) && PageDown(I.Target(rela, delta)) in child && I.Contained(rela, delta) ==> r.Ok?
    {
      hide PageDown, I.PutWord;
      var target := rela.offset + delta;
      var q := PageDown(target);
      var idx := FindPage(q);
      if idx == |pages| {
        return Err(RelocFailed);
      }
      assert EntryOk(pages[idx]);
      relocs := relocs + 1;
      if !Succeeds(fails, Reloc(relocs)) {
        return Err(RelocFailed);
      }
      if target - q + 8 > PAGE {
        return Err(Overrun);
      }
      var page := I.PutWord(frames[pages[idx].at.frame], target - q, I.Value(rela, base));
      hide Valid;
      SetBytes(idx, page);
      r := Ok(());
    }

    /** The child has mapped the segments' pages, no others, with the rights that they have. */
    ghost predicate PagesAre(ps: seq<Segment>, delta: int)
      reads `child
    {
      && (forall q :: q in child ==> q % PAGE == 0 && I.AnyHas(ps, delta, q) && child[q].flags == PageFlags(ps, delta, q))
      && (forall q :: I.AnyHas(ps, delta, q) ==> q in child)
    }

    /** Its pages have the bytes of the image without the missed copies, with the given relocations applied. */
    ghost predicate Holds(file: seq<Byte>, ps: seq<Segment>, delta: int, base: nat, rs: seq<I.Rela>, missed: set<(nat, int)>)
      reads `pages, `frames, `child, `nextFrame
    {
      && Valid() && I.AllContained(rs, delta)
      && forall q :: q in child ==> Contents(q) == I.Relocated(rs, delta, base, q, I.ImagePage(file, ps, delta, missed, q))
    }

    /** Just those copies were missed that are lost into pages that are there already. */
    ghost predicate MissedLost(fileLen: nat, ps: seq<Segment>, delta: int)
      reads `missed
    {
      forall j: nat, q: int :: (j, q) in missed <==> Lost(fails, fileLen, ps, delta, j, q)
    }

    /** Loads an image: every page as its segments make it, then the relocations of a position-independent
        image.  The result is the end of the last segment. */
    method Load(file: seq<Byte>, ps: seq<Segment>, pie: bool, base: nat, rs: seq<I.Rela>)
      returns (r: Result<int>, delta: int)
      requires Valid() && pages == [] && child == map[] && missed == {}
      modifies this
      ensures ps == [] ==> r == Err(NoLoad)
      ensures ps != [] ==> delta == Delta(pie, base, ps)
      ensures ps != [] && !pie ==> delta == 0
      ensures pie ==> forall m :: IsLowest(ps, m) ==> delta + m == base
      ensures TableOk()
      ensures r.Ok? ==> Valid() && ps != [] && IsBreak(ps, delta, r.value) && PagesAre(ps, delta)
      ensures r.Ok? ==> Holds(file, ps, delta, base, Applied(pie, rs), missed) && AllMapped(Applied(pie, rs), delta)
      ensures r.Ok? ==> MissedLost(|file|, ps, delta) && (AllSucceed(fails) ==> missed == {})
      ensures r.Ok? && (missed == {} || I.Harmless(file, ps, delta, Applied(pie, rs))) ==>
                Holds(file, ps, delta, base, Applied(pie, rs), {})
      ensures FatalSucceed(fails) && 0 < old(nextFrame) && Loadable(ps, delta, Applied(pie, rs)) ==> r.Ok?
    {
      delta := 0;
      ValidIff();
      hide TableOk, Holds, PagesAre, MissedLost, AllMapped, IsBreak, Valid, I.Harmless, I.AllContained, AllSucceed, FatalSucceed;
      if ps == [] {
        return Err(NoLoad), 0;
      }
      var min := FindMin(ps);
      delta := if pie then base - min else 0;
      r := LoadSegments(file, ps, delta);
      if r.Err? {
        return;
      }
      WhenLoaded(file, ps, delta, base);
      if Loadable(ps, delta, Applied(pie, rs)) { TargetsMapped(ps, delta, Applied(pie, rs)); }
      var done := RelocatePie(file, ps, pie, rs, delta, base);
      ValidIff();
      if done.Err? {
        return Err(done.error), delta;
      }
      if AllSucceed(fails) { NothingMissed(|file|, ps, delta); }
      if missed == {} || I.Harmless(file, ps, delta, Applied(pie, rs)) {
        NothingShows(file, ps, delta, base, Applied(pie, rs));
      }
    }

    lemma NothingMissed(fileLen: nat, ps: seq<Segment>, delta: int)
      requires MissedLost(fileLen, ps, delta) && AllSucceed(fails)
      ensures missed == {}
    {
      assert forall m :: m in missed ==> Lost(fails, fileLen, ps, delta, m.0, m.1);
    }

    /** Lost copies do not show if the copies into pages that are there already change nothing. */
    lemma NothingShows(file: seq<Byte>, ps: seq<Segment>, delta: int, base: nat, rs: seq<I.Rela>)
      requires Holds(file, ps, delta, base, rs, missed) && PagesAre(ps, delta) && MissedLost(|file|, ps, delta)
      requires missed == {} || I.Harmless(file, ps, delta, rs)
      ensures Holds(file, ps, delta, base, rs, {})
    {
      hide Valid, I.Harmless, I.Relocated, I.ImagePage, I.Shared, I.AllContained, I.AnyHas, PageFlags;
      if missed != {} {
        assert forall m :: m in missed ==> Lost(fails, |file|, ps, delta, m.0, m.1);
        forall q | q in child
          ensures Contents(q) == I.Relocated(rs, delta, base, q, I.ImagePage(file, ps, delta, {}, q))
        {
          I.HarmlessPage(file, ps, delta, base, rs, missed, q);
        }
      }
    }

    lemma TargetsMapped(ps: seq<Segment>, delta: int, rs: seq<I.Rela>)
      requires Loadable(ps, delta, rs) && PagesAre(ps, delta)
      ensures I.AllContained(rs, delta) && AllMapped(rs, delta)
    {
      hide I.AnyHas, I.Contained, PageDown, PageFlags;
    }

    lemma WhenLoaded(file: seq<Byte>, ps: seq<Segment>, delta: int, base: nat)
      requires Loaded(file, ps, |ps|, delta)
      ensures PagesAre(ps, delta) && MissedLost(|file|, ps, delta) && Holds(file, ps, delta, base, [], missed)
    {
      forall q | I.AnyHas(ps, delta, q) ensures q % PAGE == 0 {}
      hide I.ImagePage, PageFlags, I.AnyHas, Holds;
      assert ps[..|ps|] == ps;
      forall q | q in child ensures q % PAGE == 0 && PageOk(file, ps, |ps|, delta, q) { assert Listed(q); }
      forall q | I.AnyHas(ps, delta, q) ensures q in child { assert PageOk(file, ps, |ps|, delta, q); }
      NoneApplied(file, ps, delta, base);
    }
  }

  /** The relocations that a load applies. */
  function Applied(pie: bool, rs: seq<I.Rela>): seq<I.Rela> { if pie then rs else [] }

  /** Nothing but the kernel keeps the image from being loaded: it has pages, not too many, and the
      relocations are words of them. */
  ghost predicate Loadable(ps: seq<Segment>, delta: int, rs: seq<I.Rela>) {
    && ps != [] && 0 < I.Count(ps, delta) <= MAX_PAGES && I.AllContained(rs, delta)
    && forall i :: 0 <= i < |rs| ==> I.AnyHas(ps, delta, PageDown(I.Target(rs[i], delta)))
  }

  function Delta(pie: bool, base: nat, ps: seq<Segment>): int
    requires ps != []
  {
    if pie then base - I.Min(ps) else 0
  }

  /** A completely loaded image, byte by byte: of a well-formed image, every file-backed byte that is not
      relocated is mapped and is its file byte, every other such byte is zero, and each relocation that no
      later one overlaps has its word. */
  lemma LoadedBytes(l: Loader, file: seq<Byte>, ps: seq<Segment>, delta: int, base: nat, rs: seq<I.Rela>, a: int)
    requires I.WellFormed(|file|, ps) && l.Holds(file, ps, delta, base, rs, {}) && l.AllMapped(rs, delta) && l.PagesAre(ps, delta)
    ensures !I.Targeted(rs, delta, a) ==> BytesAre(l, file, ps, delta, a)
    ensures forall j: nat :: j < |rs| && I.LastWord(rs, j) ==> WordIs(l, I.Target(rs[j], delta), I.Value(rs[j], base))
  {
    hide Loader.Valid, I.Image, I.Relocated;
    if !I.Targeted(rs, delta, a) {
      var q := PageDown(a);
      I.RelocatedElsewhere(rs, delta, base, q, I.ImagePage(file, ps, delta, {}, q), a - q);
      forall i | 0 <= i < |ps| && I.FileBacked(ps[i], delta, a)
        ensures ByteIs(l, a, file[a - delta - ps[i].vaddr + ps[i].offset])
      {
        I.CoversIff(|file|, ps[i], delta, a);
        assert I.AnyHas(ps, delta, q);
        I.FileBytes(file, ps, delta, a, i);
      }
      if forall i :: 0 <= i < |ps| ==> !I.FileBacked(ps[i], delta, a) { I.ZeroBytes(file, ps, delta, a); }
    }
    forall j: nat | j < |rs| && I.LastWord(rs, j)
      ensures WordIs(l, I.Target(rs[j], delta), I.Value(rs[j], base))
    {
      var q := PageDown(I.Target(rs[j], delta));
      assert I.Contained(rs[j], delta);
      I.RelocatedWord(rs, delta, base, I.ImagePage(file, ps, delta, {}, q), j);
    }
  }

  /** The child's byte at a. */
  ghost predicate ByteIs(l: Loader, a: int, v: Byte)
    reads l
  {
    l.Valid() && PageDown(a) in l.child && l.Contents(PageDown(a))[a - PageDown(a)] == v
  }

  /** At a the child has the byte that the file has for it, and if the file has none it is zero if mapped. */
  ghost predicate BytesAre(l: Loader, file: seq<Byte>, ps: seq<Segment>, delta: int, a: int)
    requires I.WellFormed(|file|, ps)
    reads l
  {
    && (forall i :: 0 <= i < |ps| && I.FileBacked(ps[i], delta, a) ==> ByteIs(l, a, file[a - delta - ps[i].vaddr + ps[i].offset]))
    && (PageDown(a) in l.child && (forall i :: 0 <= i < |ps| ==> !I.FileBacked(ps[i], delta, a)) ==> ByteIs(l, a, 0))
  }

  /** The child's word at t. */
  ghost predicate WordIs(l: Loader, t: int, v: nat)
    reads l
  {
    var q := PageDown(t);
    l.Valid() && q in l.child && t - q + 8 <= PAGE && Decode(l.Contents(q)[t - q..t - q + 8]) == v
  }

  ghost predicate HasImage(l: Loader, file: seq<Byte>, ps: seq<Segment>, delta: int, base: nat, rs: seq<I.Rela>)
    requires I.WellFormed(|file|, ps)
    reads l
  {
    && (forall a :: !I.Targeted(rs, delta, a) ==> BytesAre(l, file, ps, delta, a))
    && (forall j: nat :: j < |rs| && I.LastWord(rs, j) ==> WordIs(l, I.Target(rs[j], delta), I.Value(rs[j], base)))
  }

  // Where the image is, said of the segments' own fields.

  predicate IsLowest(ps: seq<Segment>, m: nat) {
    && (forall i :: 0 <= i < |ps| ==> m <= ps[i].vaddr)
    && (exists i :: 0 <= i < |ps| && m == ps[i].vaddr)
  }

  /** Segment p has an address on the page at q when it is moved by shift. */
  predicate OnPage(p: Segment, shift: int, q: int) {
    q % PAGE == 0 && p.vaddr + shift < q + PAGE && q < p.vaddr + shift + p.memsz
  }

  /** No relocation stores into the byte at a. */
  predicate Left(rs: seq<I.Rela>, shift: int, a: int) {
    forall j :: 0 <= j < |rs| ==> a < rs[j].offset + shift || rs[j].offset + shift + 8 <= a
  }

  /** Byte k of segment i: its file byte, or zero past the file part if no other segment has a file byte there. */
  ghost predicate SegmentByte(l: Loader, file: seq<Byte>, ps: seq<Segment>, shift: int, i: nat, k: nat)
    requires i < |ps| && I.WellFormed(|file|, ps)
    reads l
  {
    var a := ps[i].vaddr + shift + k;
    && (k < ps[i].filesz ==> ByteIs(l, a, file[ps[i].offset + k]))
    && (ps[i].filesz <= k < ps[i].memsz && NoFileByte(ps, shift, a) ==> ByteIs(l, a, 0))
  }

  predicate NoFileByte(ps: seq<Segment>, shift: int, a: int) {
    forall j :: 0 <= j < |ps| ==> a < ps[j].vaddr + shift || ps[j].vaddr + shift + ps[j].filesz <= a
  }

  /** A page is mapped exactly if a segment has an address on it: writable if one of these is, else executable
      if one is. */
  ghost predicate PagesAt(l: Loader, ps: seq<Segment>, shift: int)
    reads l
  {
    && (forall q :: q in l.child <==> exists i :: 0 <= i < |ps| && OnPage(ps[i], shift, q))
    && forall q :: q in l.child ==>
         var w := exists i :: 0 <= i < |ps| && OnPage(ps[i], shift, q) && ps[i].writable;
         && l.child[q].flags.writable == w
         && (l.child[q].flags.executable <==> !w && exists i :: 0 <= i < |ps| && OnPage(ps[i], shift, q) && ps[i].executable)
  }

  /** The whole image, moved by shift: its pages, its bytes apart from the relocated ones, and the word of each
      relocation that no later one overlaps. */
  ghost predicate ImageAt(l: Loader, file: seq<Byte>, ps: seq<Segment>, shift: int, base: nat, rs: seq<I.Rela>)
    requires I.WellFormed(|file|, ps)
    reads l
  {
    && PagesAt(l, ps, shift)
    && (forall i: nat, k: nat :: i < |ps| && Left(rs, shift, ps[i].vaddr + shift + k) ==> SegmentByte(l, file, ps, shift, i, k))
    && (forall j: nat :: j < |rs| && I.LastWord(rs, j) ==> WordIs(l, rs[j].offset + shift, (base + rs[j].addend) % 0x1_0000_0000_0000_0000))
  }

  lemma OnPageIff(p: Segment, shift: int, q: int)
    ensures I.HasPage(p, shift, q) <==> OnPage(p, shift, q)
  {
    var a, b := p.vaddr + shift, p.vaddr + shift + p.memsz;
    if q % PAGE == 0 {
      assert PageDown(a) <= q <==> a < q + PAGE by { AlignedApart(PageDown(a), q); }
      assert q < PageUp(b) <==> q < b by { AlignedApart(q, PageUp(b) - PAGE); }
    }
  }

  lemma AlignedApart(q: int, r: int)
    requires q % PAGE == 0 && r % PAGE == 0
    ensures q < r + PAGE <==> q <= r
  {}

  lemma PagesPlaced(l: Loader, ps: seq<Segment>, shift: int)
    requires l.PagesAre(ps, shift)
    ensures PagesAt(l, ps, shift)
  {
    forall p: Segment, q ensures I.HasPage(p, shift, q) <==> OnPage(p, shift, q) { OnPageIff(p, shift, q); }
    hide I.HasPage, OnPage;
  }

  lemma BytePlaced(l: Loader, file: seq<Byte>, ps: seq<Segment>, shift: int, rs: seq<I.Rela>, i: nat, k: nat)
    requires I.WellFormed(|file|, ps) && i < |ps| && l.PagesAre(ps, shift)
    requires Left(rs, shift, ps[i].vaddr + shift + k)
    requires !I.Targeted(rs, shift, ps[i].vaddr + shift + k) ==> BytesAre(l, file, ps, shift, ps[i].vaddr + shift + k)
    ensures SegmentByte(l, file, ps, shift, i, k)
  {
    var a := ps[i].vaddr + shift + k;
    hide ByteIs, PageFlags, I.HasPage;
    assert !I.Targeted(rs, shift, a);
    if k < ps[i].filesz { assert I.FileBacked(ps[i], shift, a); }
    if k < ps[i].memsz {
      OnPageIff(ps[i], shift, PageDown(a));
      assert I.AnyHas(ps, shift, PageDown(a));
    }
  }

  lemma ImagePlaced(l: Loader, file: seq<Byte>, ps: seq<Segment>, shift: int, base: nat, rs: seq<I.Rela>)
    requires I.WellFormed(|file|, ps) && l.PagesAre(ps, shift) && HasImage(l, file, ps, shift, base, rs)
    ensures ImageAt(l, file, ps, shift, base, rs)
  {
    hide BytesAre, WordIs, Loader.PagesAre, PagesAt, SegmentByte, I.LastWord, I.Targeted, I.WellFormed;
    PagesPlaced(l, ps, shift);
    forall i: nat, k: nat | i < |ps| && Left(rs, shift, ps[i].vaddr + shift + k)
      ensures SegmentByte(l, file, ps, shift, i, k)
    {
      BytePlaced(l, file, ps, shift, rs, i, k);
    }
  }

  /** A position-dependent image is at its own addresses and is not relocated; any other one is moved so that its
      lowest address is base. */
  ghost predicate Placed(l: Loader, file: seq<Byte>, ps: seq<Segment>, pie: bool, base: nat, rs: seq<I.Rela>)
    requires I.WellFormed(|file|, ps)
    reads l
  {
    if pie then forall m :: IsLowest(ps, m) ==> ImageAt(l, file, ps, base - m, base, rs)
    else ImageAt(l, file, ps, 0, base, [])
  }

  lemma WhenComplete(l: Loader, file: seq<Byte>, ps: seq<Segment>, pie: bool, base: nat, rs: seq<I.Rela>, delta: int)
    requires I.WellFormed(|file|, ps) && ps != [] && delta == Delta(pie, base, ps) && l.PagesAre(ps, delta)
    requires l.Holds(file, ps, delta, base, Applied(pie, rs), {}) && l.AllMapped(Applied(pie, rs), delta)
    ensures HasImage(l, file, ps, delta, base, Applied(pie, rs)) && Placed(l, file, ps, pie, base, rs)
  {
    hide Loader.Valid, Loader.Holds, Loader.PagesAre, Loader.AllMapped, BytesAre, WordIs, I.WellFormed, I.Targeted, I.LastWord, ImageAt;
    forall a ensures !I.Targeted(Applied(pie, rs), delta, a) ==> BytesAre(l, file, ps, delta, a) {
      LoadedBytes(l, file, ps, delta, base, Applied(pie, rs), a);
    }
    LoadedBytes(l, file, ps, delta, base, Applied(pie, rs), 0);
    ImagePlaced(l, file, ps, delta, base, Applied(pie, rs));
  }

  /** Loads a well-formed image into a new child.  If that succeeds, and no copy was lost or none that
      matters, every byte and every relocated word is as above; nothing is ever both writable and
      executable. */
  method LoadImage(fails: Call -> bool, file: seq<Byte>, ps: seq<Segment>, pie: bool, base: nat, rs: seq<I.Rela>)
    returns (l: Loader, r: Result<int>, delta: int)
    requires I.WellFormed(|file|, ps)
    ensures forall q :: q in l.child ==> q % PAGE == 0 && NotBoth(l.child[q].flags)
    ensures r.Ok? && (l.missed == {} || I.Harmless(file, ps, delta, Applied(pie, rs))) ==>
              HasImage(l, file, ps, delta, base, Applied(pie, rs))
    ensures r.Ok? && (l.missed == {} || I.Harmless(file, ps, delta, Applied(pie, rs))) ==>
              Placed(l, file, ps, pie, base, rs)
    ensures ps != [] ==> delta == Delta(pie, base, ps)
    ensures r.Ok? ==> l.fails == fails && l.MissedLost(|file|, ps, delta) && (AllSucceed(fails) ==> l.missed == {})
    ensures FatalSucceed(fails) && Loadable(ps, delta, Applied(pie, rs)) ==> r.Ok?
  {
    hide Loader.Valid, Loader.TableOk, Loader.Holds, Loader.PagesAre, Loader.MissedLost, Loader.AllMapped, I.Harmless;
    hide BytesAre, WordIs, IsBreak, I.WellFormed, I.Targeted, I.LastWord;
    l := new Loader(fails, true, true, 1);
    r, delta := l.Load(file, ps, pie, base, rs);
    forall q | q in l.child ensures q % PAGE == 0 && NotBoth(l.child[q].flags) { l.NeverBoth(q); }
    hide HasImage, Placed;
    if r.Ok? && (l.missed == {} || I.Harmless(file, ps, delta, Applied(pie, rs))) {
      WhenComplete(l, file, ps, pie, base, rs, delta);
    }
  }

  /** The other way round: if some copy into a page that is there already changes a byte that no relocation
      overwrites, a load succeeds and has a wrong byte at that address.  All that fails are scratch mappings
      of that page. */
  method FaultyLoad(file: seq<Byte>, ps: seq<Segment>, pie: bool, base: nat, rs: seq<I.Rela>, i: nat, a: int)
    returns (l: Loader, r: Result<int>, delta: int)
    requires i < |ps| && Loadable(ps, Delta(pie, base, ps), Applied(pie, rs))
    requires !I.Redundant(file, ps, Delta(pie, base, ps), i, a) && !I.Targeted(Applied(pie, rs), Delta(pie, base, ps), a)
    ensures r.Ok? && FatalSucceed(l.fails) && (forall c :: !Succeeds(l.fails, c) ==> c.Add? && c.q == PageDown(a))
    ensures delta == Delta(pie, base, ps) && l.Valid() && PageDown(a) in l.child
    ensures l.Contents(PageDown(a))[a - PageDown(a)] != I.Image(file, ps, delta, {}, a)
  {
    delta := Delta(pie, base, ps);
    hide I.Image, I.Covers, I.Copies, I.HasPage, I.AnyHas, I.Targeted, PageDown, Loadable;
    var q := PageDown(a);
    var from := if I.Image(file, ps, delta, {}, a) == I.Image(file, ps[..i], delta, {}, a) then i + 1 else i;
    var fails := (c: Call) => c.Add? && c.q == q && c.i >= from;
    assert forall c: Call :: !Succeeds(fails, c) <==> c.Add? && c.q == q && c.i >= from;
    hide Succeeds;
    l, r := LoadWith(fails, file, ps, pie, base, rs, a);
    LostFrom(fails, file, ps, delta, l.missed, i, from, a);
    I.AnyHasMore(ps, i, |ps|, delta, q);
    assert ps[..|ps|] == ps;
  }

  /** A load with a given oracle that lets it succeed: what it misses, and what it leaves at an address that
      no relocation overwrites. */
  method LoadWith(fails: Call -> bool, file: seq<Byte>, ps: seq<Segment>, pie: bool, base: nat, rs: seq<I.Rela>, ghost a: int)
    returns (l: Loader, r: Result<int>)
    requires ps != [] && FatalSucceed(fails) && Loadable(ps, Delta(pie, base, ps), Applied(pie, rs))
    requires !I.Targeted(Applied(pie, rs), Delta(pie, base, ps), a)
    ensures r.Ok? && l.fails == fails && l.Valid() && l.MissedLost(|file|, ps, Delta(pie, base, ps))
    ensures I.AnyHas(ps, Delta(pie, base, ps), PageDown(a)) ==> ByteIs(l, a, I.Image(file, ps, Delta(pie, base, ps), l.missed, a))
  {
    hide Loader.Valid, Loader.TableOk, Loader.Holds, Loader.PagesAre, Loader.MissedLost, Loader.AllMapped, I.Harmless, Loadable;
    hide I.Image, I.AnyHas, I.Targeted, IsBreak, AllSucceed, FatalSucceed, ByteIs;
    l := new Loader(fails, true, true, 1);
    var delta;
    r, delta := l.Load(file, ps, pie, base, rs);
    if I.AnyHas(ps, delta, PageDown(a)) { HeldByte(l, file, ps, delta, base, Applied(pie, rs), a); }
  }

  lemma HeldByte(l: Loader, file: seq<Byte>, ps: seq<Segment>, delta: int, base: nat, rs: seq<I.Rela>, a: int)
    requires l.Holds(file, ps, delta, base, rs, l.missed) && l.PagesAre(ps, delta)
    requires I.AnyHas(ps, delta, PageDown(a)) && !I.Targeted(rs, delta, a)
    ensures ByteIs(l, a, I.Image(file, ps, delta, l.missed, a))
  {
    hide Loader.Valid, I.Image, I.Relocated, I.AnyHas, I.AllContained, I.Targeted, PageFlags;
    UntargetedByte(rs, delta, base, PageDown(a), I.ImagePage(file, ps, delta, l.missed, PageDown(a)), a);
  }

  lemma UntargetedByte(rs: seq<I.Rela>, delta: int, base: nat, q: int, page: seq<Byte>, a: int)
    requires I.AllContained(rs, delta) && |page| == PAGE && q <= a < q + PAGE && !I.Targeted(rs, delta, a)
    ensures I.Relocated(rs, delta, base, q, page)[a - q] == page[a - q]
  {
    hide I.Relocated, I.Contained;
    I.RelocatedElsewhere(rs, delta, base, q, page, a - q);
  }

  /** What is lost when the copies of the segments from `from` on into a's page are. */
  lemma LostFrom(fails: Call -> bool, file: seq<Byte>, ps: seq<Segment>, delta: int, missed: set<(nat, int)>, i: nat, from: nat, a: int)
    requires i < |ps| && !I.Redundant(file, ps, delta, i, a)
    requires from == if I.Image(file, ps, delta, {}, a) == I.Image(file, ps[..i], delta, {}, a) then i + 1 else i
    requires forall c: Call :: !Succeeds(fails, c) <==> c.Add? && c.q == PageDown(a) && c.i >= from
    requires forall j: nat, q: int :: (j, q) in missed <==> Lost(fails, |file|, ps, delta, j, q)
    ensures I.AnyHas(ps[..i], delta, PageDown(a)) && I.Image(file, ps, delta, missed, a) != I.Image(file, ps, delta, {}, a)
  {
    hide I.Image, I.Copies, I.HasPage, I.AnyHas, PageDown;
    var q := PageDown(a);
    forall j: nat | j < |ps| && I.Covers(|file|, ps[j], delta, a)
      ensures (j, q) in missed <==> from <= j
    {
      if from <= j { I.AnyHasMore(ps, i, j, delta, q); }
      assert (j, q) in missed <==> Lost(fails, |file|, ps, delta, j, q);
    }
    I.MissedFrom(file, ps, |ps|, delta, missed, from, a);
    assert ps[..|ps|] == ps;
    I.ImageStep(file, ps, i, delta, {}, a);
  }

  /** Two segments on one page, the second one's scratch mapping failing: the load succeeds, and the byte 9
      of the file is not there. */
  method MissedCopyShows() returns (l: Loader, r: Result<int>)
    ensures r.Ok? && l.Valid() && 0 in l.child && l.Contents(0)[16] != 9
    ensures I.WellFormed(2, TwoOnOnePage()) && I.FileBacked(TwoOnOnePage()[1], 0, 16) && [7, 9][16 - 16 + 1] == 9
  {
    var ps := TwoOnOnePage();
    TwoOnOnePageFacts();
    hide I.Redundant, I.Image, Loadable, Loader.Valid;
    var delta;
    l, r, delta := FaultyLoad([7, 9], ps, false, 0, [], 1, 16);
  }

  function TwoOnOnePage(): seq<Segment> { [I.Segment(0, 0, 1, 1, false, true), I.Segment(16, 1, 1, 1, true, false)] }

  lemma TwoOnOnePageFacts()
    ensures var ps := TwoOnOnePage();
            && I.WellFormed(2, ps) && I.FileBacked(ps[1], 0, 16) && Loadable(ps, 0, []) && PageDown(16) == 0
            && !I.Redundant([7, 9], ps, 0, 1, 16) && I.Image([7, 9], ps, 0, {}, 16) == 9
  {
    var ps := TwoOnOnePage();
    assert PageDown(16) == 0;
    I.FileBytes([7, 9], ps, 0, 16, 1);
    I.RedundantIff([7, 9], ps, 0, 1, 16);
    assert ps[..1][0] == ps[0] && I.HasPage(ps[0], 0, 0);
    assert ps[..1][..0] == [] && I.Size(ps[0], 0) == 1 && I.Size(ps[1], 0) == 1;
    assert I.Count(ps[..1], 0) == 1;
  }

  lemma RelocatedStep(rs: seq<I.Rela>, i: nat, delta: int, base: nat, q: int, page: seq<Byte>)
    requires i < |rs| && I.AllContained(rs[..i], delta) && I.AllContained(rs[..i + 1], delta) && |page| == PAGE
    ensures I.Contained(rs[i], delta)
    ensures var before := I.Relocated(rs[..i], delta, base, q, page);
            I.Relocated(rs[..i + 1], delta, base, q, page)
            == if PageDown(I.Target(rs[i], delta)) == q then I.PutWord(before, I.Target(rs[i], delta) - q, I.Value(rs[i], base)) else before
  {
    assert rs[..i + 1][..i] == rs[..i] && rs[..i + 1][i] == rs[i];
  }

  /** The lowest address of a segment. */
  method FindMin(ps: seq<Segment>) returns (min: nat)
    requires ps != []
    ensures min == I.Min(ps)
  {
    min := ps[0].vaddr;
    assert ps[..1] == [ps[0]];
    var i := 1;
    while i < |ps|
      invariant 0 < i <= |ps| && min == I.Min(ps[..i])
    {
      assert ps[..i + 1][..i] == ps[..i];
      if ps[i].vaddr < min {
        min := ps[i].vaddr;
      }
      i := i + 1;
    }
    assert ps[..i] == ps;
  }

  lemma CapacityLeft(ps: seq<Segment>, i: nat, delta: int)
    requires i < |ps|
    ensures I.Count(ps[..i], delta) + I.Size(ps[i], delta) == I.Count(ps[..i + 1], delta) <= I.Count(ps, delta)
  {
    hide PageDown, PageUp, I.Size;
    assert ps[..i + 1][..i] == ps[..i];
    I.CountGrows(ps, i + 1, delta);
  }

  lemma PageInSegment(p: Segment, delta: int, v: int, n: nat)
    requires v == I.Start(p, delta) + n * PAGE && v < I.End(p, delta)
    ensures I.HasPage(p, delta, v) && n < I.Size(p, delta)
  {}

  /** The break is the largest end of a segment, or 0. */
  ghost predicate IsBreak(ps: seq<Segment>, delta: int, brk: int) {
    && (forall j :: 0 <= j < |ps| ==> I.End(ps[j], delta) <= brk) && 0 <= brk
    && (brk == 0 || exists j :: 0 <= j < |ps| && I.End(ps[j], delta) == brk)
  }

  lemma BreakStep(ps: seq<Segment>, i: nat, delta: int, brk: int)
    requires i < |ps| && IsBreak(ps[..i], delta, brk)
    ensures IsBreak(ps[..i + 1], delta, if I.End(ps[i], delta) > brk then I.End(ps[i], delta) else brk)
  {
    hide I.End;
    var before, after := ps[..i], ps[..i + 1];
    assert forall j :: 0 <= j < i ==> before[j] == after[j];
    assert after[i] == ps[i];
  }

  /** The page capacity: the sum of the segments' page counts. */
  method CountPages(ps: seq<Segment>, delta: int) returns (total: nat)
    ensures total == I.Count(ps, delta)
  {
    total := 0;
    var i := 0;
    while i < |ps|
      invariant i <= |ps| && total == I.Count(ps[..i], delta)
    {
      var start, end := I.Start(ps[i], delta), I.End(ps[i], delta);
      assert ps[..i + 1][..i] == ps[..i];
      if end > start {
        total := total + (end - start) / PAGE;
      }
      i := i + 1;
    }
    assert ps[..i] == ps;
  }

  /** What loading a page of segment i does to the page's bytes and rights. */
  lemma NewPage(file: seq<Byte>, ps: seq<Segment>, i: nat, delta: int, missed: set<(nat, int)>, q: int, skipped: bool)
    requires i < |ps| && I.HasPage(ps[i], delta, q) && (i, q) !in missed
    ensures I.AnyHas(ps[..i + 1], delta, q)
    ensures !I.AnyHas(ps[..i], delta, q) ==>
              && I.ImagePage(file, ps[..i], delta, missed, q) == I.Zeros()
              && PageFlags(ps[..i + 1], delta, q) == SegmentFlags(ps[i])
    ensures PageFlags(ps[..i + 1], delta, q) == Merge(PageFlags(ps[..i], delta, q), SegmentFlags(ps[i]))
    ensures var before := I.ImagePage(file, ps[..i], delta, missed, q);
            I.ImagePage(file, ps[..i + 1], delta, if skipped then missed + {(i, q)} else missed, q)
            == if skipped then before else I.Patch(file, ps[i], delta, q, before)
  {
    I.AnyStep(ps, i, delta, q);
    if !I.AnyHas(ps[..i], delta, q) {
      I.ZeroPage(file, ps[..i], delta, missed, q);
    }
    hide I.ImagePage, I.Patch;
    if skipped {
      I.SameMissed(file, ps, i, i, q, delta, missed, q);
      I.SamePage(file, ps, i, delta, missed + {(i, q)}, q);
    } else {
      I.PatchPage(file, ps, i, delta, missed, q);
    }
  }

  /** How many segments have reached page q when segment i is loaded up to page v. */
  function Reached(ps: seq<Segment>, i: nat, delta: int, v: int, q: int): nat
    requires i < |ps|
  {
    if I.HasPage(ps[i], delta, q) && q >= v then i else i + 1
  }

  /** Copies n bytes of the file into a page. */
  method CopyBytes(file: seq<Byte>, src: nat, page: seq<Byte>, dst: nat, n: nat) returns (r: seq<Byte>)
    requires src + n <= |file| && dst + n <= |page|
    ensures r == page[..dst] + file[src..src + n] + page[dst + n..]
  {
    r := page;
    var k := 0;
    while k < n
      invariant k <= n && r == page[..dst] + file[src..src + k] + page[dst + k..]
    {
      r := r[dst + k := file[src + k]];
      k := k + 1;
    }
  }

  /** The part of a page that a segment fills, worked out and copied. */
  method CopyInto(file: seq<Byte>, p: Segment, delta: int, q: int, page: seq<Byte>) returns (r: seq<Byte>)
    requires |page| == PAGE && q % PAGE == 0 && I.HasPage(p, delta, q)
    ensures r == I.Patch(file, p, delta, q, page)
  {
    var start := p.vaddr + delta;
    var lo := if q > start then q else start;
    var hi := if q + PAGE < start + p.filesz then q + PAGE else start + p.filesz;
    r := page;
    if lo < hi {
      var src := lo - delta - p.vaddr + p.offset;
      if src + (hi - lo) <= |file| {
        r := CopyBytes(file, src, page, lo - q, hi - lo);
      }
    }
  }
}

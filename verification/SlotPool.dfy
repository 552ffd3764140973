/** A sequence of disjoint segments seen as one pool: the slots it covers and the slots in use. */
module SlotPool {
  import S = Segment
  import Sets

  type Segment = S.Segment

  ghost function Slots(seg: Segment): set<nat> { S.Range(seg.base, seg.base + seg.count) }

  ghost function LiveOf(seg: Segment): set<nat>
    requires S.Ok(seg)
  {
    set x | x in Slots(seg) && x - seg.base in S.Used(seg)
  }

  ghost predicate AllOk(segs: seq<Segment>) { forall k :: 0 <= k < |segs| ==> S.Ok(segs[k]) }

  /** No slot belongs to two segments. */
  ghost predicate Disjoint(segs: seq<Segment>) {
    forall j, k :: 0 <= j < k < |segs| ==> Slots(segs[j]) !! Slots(segs[k])
  }

  ghost function Universe(segs: seq<Segment>): set<nat> {
    if segs == [] then {} else Universe(segs[..|segs| - 1]) + Slots(segs[|segs| - 1])
  }

  ghost function Live(segs: seq<Segment>): set<nat>
    requires AllOk(segs)
  {
    if segs == [] then {} else Live(segs[..|segs| - 1]) + LiveOf(segs[|segs| - 1])
  }

  lemma {:induction false} InUniverse(segs: seq<Segment>, x: nat)
    ensures x in Universe(segs) <==> exists k :: 0 <= k < |segs| && x in Slots(segs[k])
  {
    if segs != [] {
      var n := |segs| - 1;
      InUniverse(segs[..n], x);
      assert x in Slots(segs[n]) || forall k :: 0 <= k < |segs| && x in Slots(segs[k]) ==> k < n;
      if x in Universe(segs[..n]) {
        var k :| 0 <= k < n && x in Slots(segs[..n][k]);
        assert x in Slots(segs[k]);
      }
      if k :| 0 <= k < |segs| && x in Slots(segs[k]) {
        if k < n { assert x in Slots(segs[..n][k]); }
      }
    }
  }

  /** What is in use in a segment is in use in the pool. */
  lemma {:induction false} LiveHas(segs: seq<Segment>, k: nat, x: nat)
    requires AllOk(segs) && k < |segs| && x in LiveOf(segs[k])
    ensures x in Live(segs)
  {
    hide LiveOf;
    var n := |segs| - 1;
    if k < n { LiveHas(segs[..n], k, x); }
  }

  lemma {:induction false} LiveFrom(segs: seq<Segment>, x: nat) returns (k: nat)
    requires AllOk(segs) && x in Live(segs)
    ensures k < |segs| && x in LiveOf(segs[k])
  {
    hide LiveOf;
    var n := |segs| - 1;
    if x in LiveOf(segs[n]) {
      k := n;
    } else {
      k := LiveFrom(segs[..n], x);
    }
  }

  lemma InLive(segs: seq<Segment>, x: nat)
    requires AllOk(segs)
    ensures x in Live(segs) <==> exists k :: 0 <= k < |segs| && x in LiveOf(segs[k])
  {
    hide LiveOf, Live;
    if x in Live(segs) { var k := LiveFrom(segs, x); }
    if k :| 0 <= k < |segs| && x in LiveOf(segs[k]) { LiveHas(segs, k, x); }
  }

  lemma LiveInUniverse(segs: seq<Segment>)
    requires AllOk(segs)
    ensures Live(segs) <= Universe(segs)
  {
    hide S.Used, S.Range, Universe, Live;
    forall x | x in Live(segs) ensures x in Universe(segs) {
      InLive(segs, x);
      InUniverse(segs, x);
      var k :| 0 <= k < |segs| && x in LiveOf(segs[k]);
      assert x in Slots(segs[k]);
    }
  }

  ghost predicate AllFull(segs: seq<Segment>)
    requires AllOk(segs)
  {
    forall k :: 0 <= k < |segs| ==> S.AllUsed(segs[k], 0, segs[k].count)
  }

  /** The pool is full exactly when each of its segments is. */
  lemma FullIff(segs: seq<Segment>)
    requires AllOk(segs) && Disjoint(segs)
    ensures Live(segs) == Universe(segs) <==> AllFull(segs)
  {
    hide S.Used, S.Range, Universe, Live, LiveOf;
    LiveInUniverse(segs);
    if Live(segs) == Universe(segs) {
      forall k | 0 <= k < |segs| ensures S.AllUsed(segs[k], 0, segs[k].count) {
        forall i | 0 <= i < segs[k].count ensures i in S.Used(segs[k]) { UsedWhenLive(segs, k, i); }
      }
    }
    if AllFull(segs) {
      forall x | x in Universe(segs) ensures x in Live(segs) {
        InUniverse(segs, x);
        var k :| 0 <= k < |segs| && x in Slots(segs[k]);
        assert S.AllUsed(segs[k], 0, segs[k].count);
        UsedWhenLive(segs, k, x - segs[k].base);
      }
    }
  }

  lemma UsedWhenLive(segs: seq<Segment>, k: nat, i: nat)
    requires AllOk(segs) && Disjoint(segs) && k < |segs| && i < segs[k].count
    ensures segs[k].base + i in Universe(segs)
    ensures segs[k].base + i in Live(segs) <==> i in S.Used(segs[k])
  {
    hide S.Ok, S.Used, S.Range, Universe, Live, LiveOf, Disjoint;
    var x := segs[k].base + i;
    assert x in Slots(segs[k]);
    hide Slots;
    InUniverse(segs, x);
    InLive(segs, x);
    LiveOfAt(segs[k], i);
    if x in Live(segs) {
      var j :| 0 <= j < |segs| && x in LiveOf(segs[j]);
      LiveOfInSlots(segs[j]);
      OneOwner(segs, j, k, x);
    }
  }

  lemma OneOwner(segs: seq<Segment>, j: nat, k: nat, x: nat)
    requires Disjoint(segs) && j < |segs| && k < |segs| && x in Slots(segs[j]) && x in Slots(segs[k])
    ensures j == k
  {
    hide Slots;
  }

  lemma LiveOfAt(seg: Segment, i: nat)
    requires S.Ok(seg) && i < seg.count
    ensures seg.base + i in LiveOf(seg) <==> i in S.Used(seg)
  {
    hide S.IsUsed, S.Range;
  }

  /** Replacing one segment by one with the same slots changes the pool by what changed in it. */
  lemma Replace(segs: seq<Segment>, k: nat, seg: Segment)
    requires AllOk(segs) && Disjoint(segs) && k < |segs| && S.Ok(seg)
    requires seg.base == segs[k].base && seg.count == segs[k].count
    ensures AllOk(segs[k := seg]) && Disjoint(segs[k := seg])
    ensures Universe(segs[k := seg]) == Universe(segs)
    ensures Live(segs[k := seg]) == (Live(segs) - LiveOf(segs[k])) + LiveOf(seg)
  {
    var segs' := segs[k := seg];
    assert forall j :: 0 <= j < |segs| ==> Slots(segs'[j]) == Slots(segs[j]);
    forall x: nat
      ensures x in Universe(segs') <==> x in Universe(segs)
      ensures x in Live(segs') <==> x in (Live(segs) - LiveOf(segs[k])) + LiveOf(seg)
    {
      InUniverse(segs, x);
      InUniverse(segs', x);
      ReplaceAt(segs, k, seg, x);
    }
  }

  lemma ReplaceAt(segs: seq<Segment>, k: nat, seg: Segment, x: nat)
    requires AllOk(segs) && Disjoint(segs) && k < |segs| && S.Ok(seg)
    requires seg.base == segs[k].base && seg.count == segs[k].count
    requires AllOk(segs[k := seg])
    ensures x in Live(segs[k := seg]) <==> x in (Live(segs) - LiveOf(segs[k])) + LiveOf(seg)
  {
    var segs' := segs[k := seg];
    InLive(segs, x);
    InLive(segs', x);
    if x in Live(segs') {
      var j :| 0 <= j < |segs'| && x in LiveOf(segs'[j]);
      if j != k {
        assert x in LiveOf(segs[j]) && x in Slots(segs[j]);
        assert x !in Slots(segs[k]);
      }
    }
    if x in LiveOf(seg) { assert x in LiveOf(segs'[k]); }
    if x in Live(segs) && x !in LiveOf(segs[k]) {
      var j :| 0 <= j < |segs| && x in LiveOf(segs[j]);
      assert x in LiveOf(segs'[j]);
    }
  }

  /** Adding a segment that is disjoint from the pool. */
  lemma Append(segs: seq<Segment>, seg: Segment)
    requires AllOk(segs) && Disjoint(segs) && S.Ok(seg)
    requires forall k :: 0 <= k < |segs| ==> Slots(segs[k]) !! Slots(seg)
    ensures AllOk(segs + [seg]) && Disjoint(segs + [seg])
    ensures Universe(segs + [seg]) == Universe(segs) + Slots(seg)
    ensures Live(segs + [seg]) == Live(segs) + LiveOf(seg)
  {
    assert (segs + [seg])[..|segs|] == segs;
  }

  /** The sum of what the segments have left is what the pool has left. */
  lemma {:induction false} RemainingIs(segs: seq<Segment>)
    requires AllOk(segs) && Disjoint(segs)
    ensures |Universe(segs)| - |Live(segs)| == Remaining(segs)
  {
    hide S.Used, S.Range, LiveOf, Disjoint;
    if segs != [] {
      var n := |segs| - 1;
      var last := segs[n];
      DisjointPrefix(segs);
      RemainingIs(segs[..n]);
      ApartFromRest(segs);
      LiveInUniverse(segs[..n]);
      LiveOfSize(last);
      S.RangeSize(last.base, last.base + last.count);
      S.UsedBound(last);
      LiveOfInSlots(last);
      assert Live(segs[..n]) !! LiveOf(last);
    }
  }

  lemma DisjointPrefix(segs: seq<Segment>)
    requires Disjoint(segs) && segs != []
    ensures Disjoint(segs[..|segs| - 1])
  {}

  ghost function Remaining(segs: seq<Segment>): nat
    requires AllOk(segs)
  {
    if segs == [] then 0
    else Remaining(segs[..|segs| - 1]) + (S.UsedBound(segs[|segs| - 1]); segs[|segs| - 1].count - segs[|segs| - 1].used)
  }

  lemma ApartFromRest(segs: seq<Segment>)
    requires Disjoint(segs) && segs != []
    ensures Universe(segs[..|segs| - 1]) !! Slots(segs[|segs| - 1])
  {
    var n := |segs| - 1;
    forall x | x in Universe(segs[..n]) ensures x !in Slots(segs[n]) {
      InUniverse(segs[..n], x);
      var k :| 0 <= k < n && x in Slots(segs[..n][k]);
      assert x in Slots(segs[k]);
    }
  }

  lemma LiveOfInSlots(seg: Segment)
    requires S.Ok(seg)
    ensures LiveOf(seg) <= Slots(seg)
  {}

  lemma LiveOfSize(seg: Segment)
    requires S.Ok(seg)
    ensures |LiveOf(seg)| == seg.used
  {
    ShiftSize(S.Used(seg), seg.base);
    assert LiveOf(seg) == Shift(S.Used(seg), seg.base);
  }

  ghost function Shift(a: set<nat>, d: nat): set<nat> { set x | x in a :: x + d }

  lemma {:induction false} ShiftSize(a: set<nat>, d: nat)
    ensures |Shift(a, d)| == |a|
  {
    if a != {} {
      var x :| x in a;
      ShiftSize(a - {x}, d);
      forall y ensures y in Shift(a, d) <==> y in Shift(a - {x}, d) + {x + d} {
        if y in Shift(a, d) && y != x + d {
          var z :| z in a && y == z + d;
          assert z in a - {x};
        }
      }
      assert Shift(a, d) == Shift(a - {x}, d) + {x + d};
      assert x + d !in Shift(a - {x}, d);
    }
  }

  /** A run taken in one segment is taken in the pool, and was free there. */
  lemma PoolTake(segs: seq<Segment>, k: nat, seg: Segment, i: nat, n: nat)
    requires AllOk(segs) && Disjoint(segs) && k < |segs| && S.Ok(seg)
    requires seg.base == segs[k].base && seg.count == segs[k].count
    requires S.FreeRun(segs[k], i, n) && S.Used(seg) == S.Used(segs[k]) + S.Range(i, i + n)
    ensures AllOk(segs[k := seg]) && Disjoint(segs[k := seg]) && Universe(segs[k := seg]) == Universe(segs)
    ensures var run := S.Range(seg.base + i, seg.base + i + n);
            run !! Live(segs) && run <= Universe(segs) && Live(segs[k := seg]) == Live(segs) + run
  {
    hide S.Used, S.Range, Universe, Live;
    Replace(segs, k, seg);
    var run := S.Range(seg.base + i, seg.base + i + n);
    LiveOfAdd(segs[k], seg, i, n);
    hide LiveOf, Disjoint;
    forall x | x in run ensures x !in Live(segs) && x in Universe(segs) { UsedWhenLive(segs, k, x - seg.base); }
    forall x | x in LiveOf(segs[k]) ensures x in Live(segs) { LiveHas(segs, k, x); }
  }

  lemma PoolFree(segs: seq<Segment>, k: nat, seg: Segment, i: nat)
    requires AllOk(segs) && Disjoint(segs) && k < |segs| && S.Ok(seg)
    requires seg.base == segs[k].base && seg.count == segs[k].count
    requires i in S.Used(segs[k]) && S.Used(seg) == S.Used(segs[k]) - {i}
    ensures AllOk(segs[k := seg]) && Disjoint(segs[k := seg]) && Universe(segs[k := seg]) == Universe(segs)
    ensures seg.base + i in Live(segs) && Live(segs[k := seg]) == Live(segs) - {seg.base + i}
  {
    hide S.Used, LiveOf, Universe, Live, Slots, Disjoint;
    Replace(segs, k, seg);
    LiveOfDrop(segs[k], seg, i);
    forall x | x in LiveOf(segs[k]) ensures x in Live(segs) { LiveHas(segs, k, x); }
  }

  lemma LiveOfAdd(was: Segment, seg: Segment, i: nat, n: nat)
    requires S.Ok(was) && S.Ok(seg) && seg.base == was.base && seg.count == was.count && i + n <= seg.count
    requires S.Used(seg) == S.Used(was) + S.Range(i, i + n)
    ensures LiveOf(seg) == LiveOf(was) + S.Range(was.base + i, was.base + i + n)
  {
    hide S.Used, S.Range;
  }

  lemma LiveOfDrop(was: Segment, seg: Segment, i: nat)
    requires S.Ok(was) && S.Ok(seg) && seg.base == was.base && seg.count == was.count
    requires i in S.Used(was) && S.Used(seg) == S.Used(was) - {i}
    ensures LiveOf(seg) == LiveOf(was) - {was.base + i} && was.base + i in LiveOf(was)
  {
    hide S.IsUsed, S.Range;
  }

  /** A slot outside every segment is not live. */
  lemma NotLive(segs: seq<Segment>, x: nat)
    requires AllOk(segs) && forall k :: 0 <= k < |segs| ==> x !in Slots(segs[k])
    ensures x !in Live(segs)
  {
    InLive(segs, x);
  }

  /** The same segments, as far as their ranges go, and perhaps more. */
  ghost predicate Extends(before: seq<Segment>, after: seq<Segment>) {
    && |before| <= |after|
    && (forall k :: 0 <= k < |before| ==> after[k].base == before[k].base && after[k].count == before[k].count)
  }

  /** The n slots from x on lie in segment k and none of them is in use. */
  ghost predicate Window(segs: seq<Segment>, k: nat, x: nat, n: nat)
    requires AllOk(segs)
  {
    && k < |segs| && segs[k].base <= x && x + n <= segs[k].base + segs[k].count
    && S.Range(x, x + n) !! Live(segs)
  }

  /** Some segment has n free slots in a row. */
  ghost predicate HasWindow(segs: seq<Segment>, n: nat)
    requires AllOk(segs)
  {
    exists k: nat, x: nat :: Window(segs, k, x, n)
  }

  lemma WindowIff(segs: seq<Segment>, k: nat, i: nat, n: nat)
    requires AllOk(segs) && Disjoint(segs) && k < |segs|
    ensures Window(segs, k, segs[k].base + i, n) <==> S.FreeRun(segs[k], i, n)
  {
    hide S.Used, S.Range, Universe, Live, LiveOf, Disjoint;
    if i + n <= segs[k].count {
      var x := segs[k].base + i;
      forall j | i <= j < i + n ensures segs[k].base + j in Live(segs) <==> j in S.Used(segs[k]) { UsedWhenLive(segs, k, j); }
      if Window(segs, k, x, n) {
        forall j | i <= j < i + n ensures j !in S.Used(segs[k]) { assert segs[k].base + j in S.Range(x, x + n); }
      }
      if S.FreeRun(segs[k], i, n) {
        forall y | y in S.Range(x, x + n) ensures y !in Live(segs) {
          var j := y - segs[k].base;
          assert j !in S.Used(segs[k]) && segs[k].base + j == y;
          UsedWhenLive(segs, k, j);
        }
      }
    }
  }

  lemma NoWindowIff(segs: seq<Segment>, n: nat)
    requires AllOk(segs) && Disjoint(segs)
    ensures !HasWindow(segs, n) <==> forall k :: 0 <= k < |segs| ==> S.NoRun(segs[k], n)
  {
    hide S.FreeRun, Disjoint, S.Range, Live, S.Used;
    if k: nat, x: nat :| Window(segs, k, x, n) {
      WindowIff(segs, k, x - segs[k].base, n);
    }
    forall k: nat, i: nat | k < |segs| && S.FreeRun(segs[k], i, n) ensures HasWindow(segs, n) {
      WindowIff(segs, k, i, n);
    }
  }
}

/** The linked list of page regions and its finger (memchk_virtmem.c). */
module PageIndex {
  import opened Chains
  import opened PageRegions
  import opened VmAreas

  class PageRegion {
    var start: nat
    var end: nat
    var next: PageRegion?
    ghost var live: bool

    constructor (start: nat, end: nat)
      ensures this.start == start && this.end == end && next == null && live
    {
      this.start, this.end, this.next, live := start, end, null, true;
    }

    /** Reading a field of a region that was given back is not allowed. */
    function Start(): nat
      requires live
      reads `start, `live
    {
      start
    }

    function End(): nat
      requires live
      reads `end, `live
    {
      end
    }

    function Next(): PageRegion?
      requires live
      reads `next, `live
    {
      next
    }
  }

  /** Give a region back to its pool. From here on nothing is known about its fields. */
  method FreePageRegion(r: PageRegion)
    requires r.live
    modifies r
    ensures !r.live
  {
    r.live := false;
    r.start, r.end, r.next := *, *, *;
  }

  ghost function RegionAt(s: seq<PageRegion>, i: nat): PageRegion?
  {
    if i < |s| then s[i] else null
  }

  class Index {
    const head: PageRegion
    var cand: PageRegion?
    var prevCand: PageRegion?
    ghost var nodes: seq<PageRegion>
    ghost var regions: seq<Region>

    /** The list from `head` visits `nodes` in order; they hold `regions`, which are gapped. */
    ghost predicate Valid()
      reads `nodes, `regions, head`next, nodes
    {
      && Intact(0, 0) && Gapped(regions)
    }

    /** As `Valid`, but what is at positions `i` up to but not including `j` is in the pool already. */
    ghost predicate Intact(i: nat, j: nat)
      reads `nodes, `regions, head`next, nodes
    {
      && head !in nodes && |regions| == |nodes| && head.next == RegionAt(nodes, 0)
      && Distinct(nodes)
      && (forall k {:trigger nodes[k].live} :: 0 <= k < |nodes| && (k < i || j <= k) ==> nodes[k].live)
      && (forall k {:trigger nodes[k].next} :: 0 <= k < |nodes| && (k < i || j <= k) ==>
            nodes[k].next == RegionAt(nodes, k + 1))
      && (forall k {:trigger nodes[k].start} :: 0 <= k < |nodes| && (k < i || j <= k) ==>
            nodes[k].start == regions[k].start)
      && (forall k {:trigger nodes[k].end} :: 0 <= k < |nodes| && (k < i || j <= k) ==> nodes[k].end == regions[k].end)
    }

    /** The finger points where `finger` says. */
    ghost predicate FingerIs(finger: Finger)
      reads `nodes, `cand
    {
      match finger
      case On(f) => f < |nodes| && cand == nodes[f]
      case Dangling => cand !in nodes
    }

    constructor ()
      ensures Valid() && nodes == [] && fresh(head) && cand == null
    {
      head := new PageRegion(0, 0);
      cand, prevCand := null, null;
      nodes, regions := [], [];
      new;
      head.next := null;
    }

    /**
      Add the pages of a block to the list. The finger, if the list is not empty, has to be on a live
      region `f`; where it is afterwards is said exactly.
     */
    method RegisterBlock(b: Block, ghost f: nat)
      requires Valid() && b.size > 0 && (nodes != [] ==> FingerIs(On(f)))
      modifies this, head`next, nodes
      ensures Valid() && fresh(set n | n in nodes && n !in old(nodes))
      ensures regions == Insert(old(regions), First(b), Last(b))
      ensures FingerIs(FingerAfter(old(regions), f, First(b), Last(b)))
    {
      hide Valid, Gapped, Insert, FingerIs, FingerAfter, Before, PutAt;
      var start, end := PageDown(b.addr), PageUp(b.addr + b.size);
      Facts(b, f);
      if head.next == null {
        InsertHere(head, null, start, end, 0, f);
        return;
      }
      if cand.End() < start {
        FingerAhead(f, start);
        Place(cand, prevCand, start, end, f, f);
      } else {
        Place(head.next, head, start, end, 0, f);
      }
    }

    /**
      The search, from position `i` of the list. `prev` need not be right yet if `region` is one the
      search will pass over: it is overwritten before it is used.
     */
    method Place(first: PageRegion?, before: PageRegion?, start: nat, end: nat, ghost i0: nat, ghost f: nat)
      requires Valid() && Aligned(Region(start, end)) && regions != [] && FingerIs(On(f))
      requires i0 <= Before(regions, start) <= |nodes| && first == RegionAt(nodes, i0)
      requires i0 < Before(regions, start) || before == if i0 == 0 then head else nodes[i0 - 1]
      modifies this, head`next, nodes
      ensures Valid() && regions == Insert(old(regions), start, end)
      ensures fresh(set n | n in nodes && n !in old(nodes))
      ensures FingerIs(FingerAfter(old(regions), f, start, end))
    {
      hide Valid, Gapped, Insert, Absorb, Within, FingerAfter, Before, PutAt, DropRun, Distinct, Intact;
      ghost var rs := regions;
      Shape();
      var region, prev := first, before;
      ghost var i := i0;
      while region != null
        invariant Valid() && nodes == old(nodes) && regions == rs && cand == old(cand)
        invariant i <= Before(rs, start) <= |rs| == |nodes| && region == RegionAt(nodes, i)
        invariant i < Before(rs, start) || prev == if i == 0 then head else nodes[i - 1]
        decreases |nodes| - i
      {
        Stop(i, start, end);
        if end < region.Start() {
          InsertHere(prev, region, start, end, i, f);
          return;
        }
        if start <= region.End() {
          MergeHere(region, start, end, i, f);
          return;
        }
        prev := region;
        region := region.Next();
        i := i + 1;
      }
      var _ := Splice(prev, null, start, end, i);
      FingerAppended(old(nodes), rs, f, start, end);
      NewNodes(old(nodes), i);
    }

    /** A new region before `region`; the finger moves to it. */
    method InsertHere(prev: PageRegion, region: PageRegion?, start: nat, end: nat, ghost i: nat, ghost f: nat)
      requires Valid() && Aligned(Region(start, end))
      requires i == Before(regions, start) <= |nodes| && (i < |nodes| ==> end < nodes[i].start)
      requires prev == (if i == 0 then head else nodes[i - 1]) && region == RegionAt(nodes, i)
      requires i == |nodes| ==> nodes == []
      modifies this, head`next, nodes
      ensures Valid() && regions == Insert(old(regions), start, end)
      ensures fresh(set n | n in nodes && n !in old(nodes))
      ensures FingerIs(FingerAfter(old(regions), f, start, end))
    {
      hide Valid, Gapped, Insert, FingerIs, FingerAfter, Before, PutAt;
      Shape();
      if i < |nodes| {
        Stop(i, start, end);
      }
      var created := Splice(prev, region, start, end, i);
      cand, prevCand := created, prev;
      FingerPut(old(nodes), old(regions), f, start, end);
      NewNodes(old(nodes), i);
    }

    method MergeHere(region: PageRegion, start: nat, end: nat, ghost i: nat, ghost f: nat)
      requires Valid() && Aligned(Region(start, end)) && FingerIs(On(f))
      requires i == Before(regions, start) && i < |nodes| && region == nodes[i] && region.start <= end
      modifies `nodes, `regions, nodes
      ensures Valid() && regions == Insert(old(regions), start, end)
      ensures fresh(set n | n in nodes && n !in old(nodes))
      ensures FingerIs(FingerAfter(old(regions), f, start, end))
    {
      hide Valid, Gapped, Insert, FingerAfter, Before, DropRun, Within, Distinct;
      Shape();
      Stop(i, start, end);
      Merge(region, start, end, i);
      FingerMerged(old(nodes), old(regions), f, start, end);
      FewerNodes(old(nodes), i, i + 1 + Within(old(regions)[i + 1..], end));
    }

    lemma Shape()
      requires Valid()
      ensures |regions| == |nodes| && Gapped(regions)
      ensures Distinct(nodes)
    {
    }

    lemma NewNodes(was: seq<PageRegion>, i: nat)
      requires i <= |was| && i < |nodes| && nodes == PutAt(was, i, nodes[i])
      ensures forall n :: n in nodes ==> n in was || n == nodes[i]
    {
    }

    lemma FewerNodes(was: seq<PageRegion>, i: nat, j: nat)
      requires i < j <= |was| && nodes == DropRun(was, i, j)
      ensures forall n :: n in nodes ==> n in was
    {
    }

    lemma FingerPut(was: seq<PageRegion>, rs: seq<Region>, f: nat, start: nat, end: nat)
      requires |was| == |rs| && Gapped(rs) && start < end
      requires var i := Before(rs, start);
        && i <= |was| && (i < |rs| ==> end < rs[i].start) && (i == |rs| ==> rs == [])
        && i < |nodes| && nodes == PutAt(was, i, nodes[i]) && cand == nodes[i]
      ensures FingerIs(FingerAfter(rs, f, start, end))
    {
    }

    lemma FingerAppended(was: seq<PageRegion>, rs: seq<Region>, f: nat, start: nat, end: nat)
      requires |was| == |rs| && rs != [] && f < |was| && cand == was[f]
      requires Before(rs, start) == |rs| && |rs| < |nodes| && nodes == PutAt(was, |rs|, nodes[|rs|])
      ensures FingerIs(FingerAfter(rs, f, start, end))
    {
    }

    lemma FingerMerged(was: seq<PageRegion>, rs: seq<Region>, f: nat, start: nat, end: nat)
      requires |was| == |rs| && f < |was| && cand == was[f]
      requires Distinct(was)
      requires var i := Before(rs, start);
        && i < |rs| && rs[i].start <= end && nodes == DropRun(was, i, i + 1 + Within(rs[i + 1..], end))
      ensures FingerIs(FingerAfter(rs, f, start, end))
    {
      hide FingerAfter, Before, Within, DropRun;
      var i := Before(rs, start);
      var m := Within(rs[i + 1..], end);
      FingerAfterMerge(rs, f, start, end);
      NodesAfterMerge(was, i, i + 1 + m);
      if i < f <= i + m {
        assert forall k :: 0 <= k < |nodes| ==> nodes[k] == was[if k <= i then k else k + m] != was[f];
      }
    }

    lemma NodesAfterMerge(was: seq<PageRegion>, i: nat, j: nat)
      requires i < j <= |was| && nodes == DropRun(was, i, j)
      ensures |nodes| == |was| - (j - i - 1)
      ensures forall k {:trigger nodes[k]} :: 0 <= k < |nodes| ==>
        nodes[k] == was[if k <= i then k else k + (j - i - 1)]
    {
    }

    lemma Facts(b: Block, f: nat)
      requires Valid() && b.size > 0 && (nodes != [] ==> FingerIs(On(f)))
      ensures Aligned(Region(First(b), Last(b))) && Gapped(regions)
      ensures head.next == RegionAt(nodes, 0) && |regions| == |nodes|
      ensures nodes != [] ==> f < |nodes| && cand == nodes[f] && cand.end == regions[f].end && cand.live
      ensures Distinct(nodes)
      ensures Before(regions, First(b)) <= |regions|
    {
      BlockPages(b, 0);
    }

    lemma FingerAhead(f: nat, start: nat)
      requires Valid() && f < |nodes| && regions[f].end < start
      ensures f < Before(regions, start)
    {
    }

    /** What the search finds out at position `i`. */
    lemma Stop(i: nat, start: nat, end: nat)
      requires Valid() && i < |nodes| && i <= Before(regions, start) && start < end
      ensures Region(nodes[i].start, nodes[i].end) == regions[i] && nodes[i].next == RegionAt(nodes, i + 1)
      ensures nodes[i].live
      ensures i == Before(regions, start) <==> start <= nodes[i].end
      ensures end < nodes[i].start ==> start <= nodes[i].end
    {
    }

    lemma Tidy()
      requires Valid()
      ensures Gapped(regions) && |regions| == |nodes|
    {
    }

    /** Put a new region between `prev` and `region`. */
    method Splice(prev: PageRegion, region: PageRegion?, start: nat, end: nat, ghost i: nat)
      returns (created: PageRegion)
      requires Valid() && Aligned(Region(start, end))
      requires i == Before(regions, start) <= |nodes| && (i < |nodes| ==> end < nodes[i].start)
      requires prev == (if i == 0 then head else nodes[i - 1]) && region == RegionAt(nodes, i)
      modifies `nodes, `regions, head`next, nodes`next
      ensures Valid() && regions == Insert(old(regions), start, end)
      ensures i < |nodes| && fresh(nodes[i]) && created == nodes[i] && nodes == PutAt(old(nodes), i, nodes[i])
    {
      hide Intact, Gapped, Insert, Before, Within, Absorb, PutAt;
      Tidy();
      InsertIs(regions, start, end, 0);
      InsertAt(regions, start, end);
      if i < |nodes| {
        Stop(i, start, end);
      }
      created := Attach(prev, region, start, end, i);
    }

    method Attach(prev: PageRegion, region: PageRegion?, start: nat, end: nat, ghost i: nat)
      returns (created: PageRegion)
      requires Intact(0, 0) && i <= |nodes| == |regions|
      requires prev == (if i == 0 then head else nodes[i - 1]) && region == RegionAt(nodes, i)
      modifies `nodes, `regions, head`next, nodes`next
      ensures Intact(0, 0) && regions == PutAt(old(regions), i, Region(start, end))
      ensures i < |nodes| && fresh(nodes[i]) && created == nodes[i] && nodes == PutAt(old(nodes), i, nodes[i])
    {
      hide PutAt;
      created := new PageRegion(start, end);
      created.next := region;
      prev.next := created;
      ghost var t := PutAt(nodes, i, created);
      forall k | 0 <= k < |t|
        ensures t[k].next == RegionAt(t, k + 1)
      {
        assert t[k] == if k < i then nodes[k] else if k == i then created else nodes[k - 1];
        assert k + 1 < |t| ==> t[k + 1] == if k + 1 < i then nodes[k + 1] else if k + 1 == i then created else nodes[k];
      }
      ghost var rs := PutAt(regions, i, Region(start, end));
      forall k | 0 <= k < |t|
        ensures t[k].live && t[k].start == rs[k].start && t[k].end == rs[k].end
      {
        assert t[k] == if k < i then nodes[k] else if k == i then created else nodes[k - 1];
      }
      regions, nodes := rs, t;
    }

    /** Grow `region` over the block and over every following region the block reaches. */
    method Merge(region: PageRegion, start: nat, end: nat, ghost i: nat)
      requires Valid() && Aligned(Region(start, end))
      requires i == Before(regions, start) && i < |nodes| && region == nodes[i] && region.start <= end
      modifies `nodes, `regions, nodes
      ensures Valid() && regions == Insert(old(regions), start, end)
      ensures i < |old(regions)| == |old(nodes)|
      ensures nodes == DropRun(old(nodes), i, i + 1 + Within(old(regions)[i + 1..], end))
    {
      hide Intact, Gapped, Insert, Before, Within, Absorb, DropRun, MergeRun, Covers;
      Tidy();
      InsertIs(regions, start, end, 0);
      InsertAt(regions, start, end);
      Stop(i, start, end);
      var newStart: nat := if start < region.Start() then start else region.Start();
      var newEnd, next, j := AbsorbRun(newStart, region.End(), region.Next(), end, i);
      MergeRunIs(regions, i, j, Region(newStart, if newEnd > end then newEnd else end));
      Settle(region, newStart, if newEnd > end then newEnd else end, next, i, j);
    }

    /** Give back every region after position `i` that begins at or before `end`. */
    method AbsorbRun(newStart: nat, reach: nat, first: PageRegion?, end: nat, ghost i: nat)
      returns (newEnd: nat, next: PageRegion?, ghost j: nat)
      requires Valid() && i < |nodes| == |regions| && first == nodes[i].next && reach == nodes[i].end == regions[i].end
      requires first == RegionAt(nodes, i + 1)
      modifies nodes
      ensures i < j <= |nodes| == |regions| && Intact(i + 1, j) && next == RegionAt(nodes, j)
      ensures j == i + 1 + Within(regions[i + 1..], end)
      ensures Absorb(newStart, regions[i].end, regions[i + 1..], end) ==
        [Region(newStart, if newEnd > end then newEnd else end)] + regions[j..]
    {
      hide Intact, Gapped, Insert, Before, Within, Absorb;
      newEnd, next, j := reach, first, i + 1;
      IntactNow(i + 1);
      while next != null
        invariant i < j <= |nodes| == |regions| && Intact(i + 1, j) && next == RegionAt(nodes, j)
        invariant Absorb(newStart, regions[i].end, regions[i + 1..], end) == Absorb(newStart, newEnd, regions[j..], end)
        invariant Within(regions[i + 1..], end) == j - i - 1 + Within(regions[j..], end)
        decreases |nodes| - j
      {
        AbsorbRound(regions, newStart, newEnd, j, end);
        IntactAt(i + 1, j);
        if next.Start() > end {
          return;
        }
        newEnd := next.End();
        var tmp := next;
        next := next.Next();
        Drop(tmp, i + 1, j);
        j := j + 1;
      }
      AbsorbRound(regions, newStart, newEnd, j, end);
    }

    lemma IntactNow(i: nat)
      requires Intact(0, 0)
      ensures Intact(i, i)
    {
    }

    lemma IntactAt(i: nat, j: nat)
      requires Intact(i, j) && i <= j < |nodes|
      ensures |regions| == |nodes| && Region(nodes[j].start, nodes[j].end) == regions[j]
      ensures nodes[j].next == RegionAt(nodes, j + 1) && nodes[j].live
    {
    }

    method Drop(r: PageRegion, ghost i: nat, ghost j: nat)
      requires Intact(i, j) && i <= j < |nodes| && nodes[j] == r
      modifies r
      ensures Intact(i, j + 1) && !r.live
    {
      FreePageRegion(r);
    }

    /** Make `region`, at position `i`, take the place of everything up to position `j`. */
    method Settle(region: PageRegion, start: nat, end: nat, next: PageRegion?, ghost i: nat, ghost j: nat)
      requires i < j <= |nodes| && Intact(i + 1, j) && region == nodes[i] && next == RegionAt(nodes, j)
      modifies `nodes, `regions, region
      ensures Intact(0, 0) && |old(nodes)| == |old(regions)|
      ensures nodes == DropRun(old(nodes), i, j) && regions == MergeRun(old(regions), i, j, Region(start, end))
    {
      hide DropRun, MergeRun;
      region.start := start;
      region.end := end;
      region.next := next;
      ghost var t := DropRun(nodes, i, j);
      forall k | 0 <= k < |t|
        ensures t[k].next == RegionAt(t, k + 1)
      {
        assert t[k] == nodes[if k <= i then k else k - i - 1 + j];
        assert k + 1 < |t| ==> t[k + 1] == nodes[if k + 1 <= i then k + 1 else k - i + j];
      }
      ghost var rs := MergeRun(regions, i, j, Region(start, end));
      forall k | 0 <= k < |t|
        ensures t[k].live && t[k].start == rs[k].start && t[k].end == rs[k].end
      {
        assert t[k] == nodes[if k <= i then k else k - i - 1 + j];
      }
      regions, nodes := rs, t;
    }

    /** Spread every region over the areas and add up their sizes. */
    method CountVirtualMemorySize(areas: array<VmArea>) returns (total: nat)
      requires Valid() && Ascending(areas[..])
      modifies areas
      ensures total == TotalSize(regions) && GrownBy(old(areas[..]), areas[..], regions)
    {
      hide Valid, Intact, Gapped, Ascending, Grown, GrownBy, Share, Reach, TotalSize;
      Shape();
      ghost var was := areas[..];
      NothingGrown(was);
      var region := head.next;
      total := 0;
      ghost var k := 0;
      IntactHead();
      while region != null
        invariant Valid() && k <= |nodes| == |regions| && region == RegionAt(nodes, k)
        invariant total == TotalSize(regions[..k]) && GrownBy(was, areas[..], regions[..k]) && Ascending(areas[..])
        decreases |nodes| - k
      {
        Visit(k);
        ghost var now := areas[..];
        RegisterPageregion(areas, Region(region.Start(), region.End()));
        GrowOneMore(was, now, areas[..], regions[..k], regions[k]);
        StillAscending(now, areas[..], region.start, Reach(now, region.start, region.end));
        assert regions[..k + 1] == regions[..k] + [regions[k]];
        SizeAppend(regions[..k], regions[k]);
        total := total + (region.End() - region.Start());
        region := region.Next();
        k := k + 1;
      }
      assert regions[..k] == regions;
    }

    lemma IntactHead()
      requires Valid()
      ensures head.next == RegionAt(nodes, 0)
    {
    }

    lemma Visit(k: nat)
      requires Valid() && k < |nodes|
      ensures |regions| == |nodes| && Region(nodes[k].start, nodes[k].end) == regions[k]
      ensures nodes[k].live && nodes[k].next == RegionAt(nodes, k + 1) && nodes[k].start < nodes[k].end
    {
    }

    /** Give all regions back and empty the list. */
    lemma ListedOnce()
      requires Valid()
      ensures |nodes| == |regions| && Distinct(nodes)
    {
    }

    method FreeAllPageregions()
      requires Valid()
      modifies `nodes, `regions, head`next, nodes
      ensures Valid() && nodes == [] && regions == []
      ensures forall n :: n in old(nodes) ==> !n.live
    {
      hide Intact;
      ghost var all := nodes;
      IntactHead();
      IntactNow(0);
      var region := head.next;
      ghost var k := 0;
      while region != null
        invariant k <= |nodes| && nodes == all && Intact(0, k) && region == RegionAt(nodes, k)
        invariant forall i :: 0 <= i < k ==> !nodes[i].live
        decreases |nodes| - k
      {
        IntactAt(0, k);
        var tmp := region;
        region := region.Next();
        Drop(tmp, 0, k);
        k := k + 1;
      }
      HeadApart(0, k);
      head.next := null;
      nodes, regions := [], [];
      EmptyIntact();
    }

    lemma HeadApart(i: nat, j: nat)
      requires Intact(i, j)
      ensures head !in nodes
    {
    }

    lemma EmptyIntact()
      requires nodes == [] && regions == [] && head.next == null
      ensures Intact(0, 0) && Gapped(regions)
    {
    }
  }

  lemma NothingGrown(s: seq<VmArea>)
    ensures GrownBy(s, s, []) && TotalSize([]) == 0
  {
  }

  lemma StillAscending(was: seq<VmArea>, now: seq<VmArea>, lo: nat, hi: nat)
    requires Ascending(was) && Grown(was, now, lo, hi)
    ensures Ascending(now)
  {
    AscendingByBounds(was, now);
  }

  lemma {:induction false} SizeAppend(rs: seq<Region>, r: Region)
    ensures TotalSize(rs + [r]) == TotalSize(rs) + r.end - r.start
  {
    if rs == [] {
      assert rs + [r] == [r];
    } else {
      SizeAppend(rs[1..], r);
      assert (rs + [r])[0] == rs[0] && (rs + [r])[1..] == rs[1..] + [r];
    }
  }
}

/** Spreading page regions over the areas of the address space (memchk_virtmem.c). */
module VmAreas {
  import opened PageRegions

  datatype VmArea = VmArea(start: nat, end: nat, usage: nat)

  /** The areas come from the kernel's list: ascending and disjoint, though they may touch. */
  ghost predicate Ascending(s: seq<VmArea>)
  {
    && (forall i :: 0 <= i < |s| ==> s[i].start < s[i].end)
    && (forall i, j {:trigger s[i], s[j]} :: 0 <= i < j < |s| ==> s[i].end <= s[j].start)
  }

  ghost predicate Holds(s: seq<VmArea>, a: nat)
  {
    exists i :: 0 <= i < |s| && s[i].start <= a < s[i].end
  }

  /** How far the areas cover `[start, end)` without a hole, from `start` on. */
  ghost function Reach(s: seq<VmArea>, start: nat, end: nat): nat
  {
    if s == [] then start
    else if s[0].start <= start < s[0].end then
      if s[0].end >= end then end else Reach(s[1..], s[0].end, end)
    else Reach(s[1..], start, end)
  }

  /** `Reach` is where the first hole is, or else the end of the region. */
  lemma {:induction false} ReachIs(s: seq<VmArea>, start: nat, end: nat)
    requires Ascending(s) && start < end
    ensures start <= Reach(s, start, end) <= end
    ensures forall a :: start <= a < Reach(s, start, end) ==> Holds(s, a)
    ensures Reach(s, start, end) == end || !Holds(s, Reach(s, start, end))
  {
    if s != [] {
      var rest := s[1..];
      assert s == [s[0]] + rest;
      var from := if s[0].start <= start < s[0].end then s[0].end else start;
      if from < end {
        ReachIs(rest, from, end);
        var reach := Reach(rest, from, end);
        assert Reach(s, start, end) == reach;
        forall a | start <= a < reach
          ensures Holds(s, a)
        {
          if a < from {
            assert s[0].start <= a < s[0].end;
          } else {
            assert Holds(rest, a);
            var i :| 0 <= i < |rest| && rest[i].start <= a < rest[i].end;
            assert s[i + 1].start <= a < s[i + 1].end;
          }
        }
        LaterAreas(s, from, end);
        assert forall i :: 0 < i < |s| ==> s[i] == rest[i - 1];
      } else {
        forall a | start <= a < end
          ensures Holds(s, a)
        {
          assert s[0].start <= a < s[0].end;
        }
      }
    }
  }

  /** Past its first area a list cannot lead back into it. */
  lemma LaterAreas(s: seq<VmArea>, from: nat, end: nat)
    requires Ascending(s) && s != [] && !(s[0].start <= from < s[0].end) && from < end
    ensures var reach := Reach(s[1..], from, end); !(s[0].start <= reach < s[0].end)
  {
    if from < s[0].start {
      NoArea(s[1..], from, end);
    } else {
      ReachUp(s[1..], from, end);
    }
  }

  lemma {:induction false} NoArea(s: seq<VmArea>, from: nat, end: nat)
    requires forall i :: 0 <= i < |s| ==> from < s[i].start
    ensures Reach(s, from, end) == from
  {
    if s != [] {
      assert from < s[0].start;
      NoArea(s[1..], from, end);
    }
  }

  lemma {:induction false} ReachUp(s: seq<VmArea>, from: nat, end: nat)
    requires from < end
    ensures from <= Reach(s, from, end)
  {
    if s != [] {
      ReachUp(s[1..], if s[0].start <= from < s[0].end < end then s[0].end else from, end);
    }
  }

  /** How much of `[lo, hi)` lies in an area. */
  ghost function Overlap(area: VmArea, lo: nat, hi: nat): nat
  {
    var from := if area.start > lo then area.start else lo;
    var to := if area.end < hi then area.end else hi;
    if from < to then to - from else 0
  }

  /** Each area's usage has grown by its overlap with `[lo, hi)`; nothing else has changed. */
  ghost predicate Grown(was: seq<VmArea>, now: seq<VmArea>, lo: nat, hi: nat)
  {
    && |now| == |was|
    && forall i {:trigger now[i]} :: 0 <= i < |was| ==>
         now[i] == was[i].(usage := was[i].usage + Overlap(was[i], lo, hi))
  }

  /** Half-way: the first `i` areas have got their share of `[lo, start)`, the others are untouched. */
  ghost predicate Spread(was: seq<VmArea>, now: seq<VmArea>, lo: nat, start: nat, end: nat, i: nat)
  {
    && i <= |was| == |now| && lo <= start < end && Ascending(was)
    && Reach(was, lo, end) == Reach(was[i..], start, end)
    && (start == lo || exists k :: 0 <= k < i && was[k].end == start)
    && (forall k :: 0 <= k < i ==> was[k].end <= start || start < was[k].start)
    && (forall k {:trigger now[k]} :: 0 <= k < i ==>
          now[k] == was[k].(usage := was[k].usage + Overlap(was[k], lo, start)))
    && (forall k {:trigger now[k]} :: i <= k < |was| ==> now[k] == was[k])
  }

  lemma SpreadLast(was: seq<VmArea>, now: seq<VmArea>, lo: nat, start: nat, end: nat, i: nat)
    requires Spread(was, now, lo, start, end, i) && i < |was| && was[i].start <= start && was[i].end >= end
    ensures Grown(was, now[i := now[i].(usage := now[i].usage + (end - start))], lo, Reach(was, lo, end))
  {
    assert was[i..][0] == was[i];
  }

  lemma SpreadMore(was: seq<VmArea>, now: seq<VmArea>, lo: nat, start: nat, end: nat, i: nat)
    requires Spread(was, now, lo, start, end, i) && i < |was| && was[i].start <= start < was[i].end < end
    ensures Spread(was, now[i := now[i].(usage := now[i].usage + (was[i].end - start))], lo, was[i].end, end, i + 1)
  {
    assert was[i..][0] == was[i] && was[i..][1..] == was[i + 1..];
  }

  lemma SpreadSkip(was: seq<VmArea>, now: seq<VmArea>, lo: nat, start: nat, end: nat, i: nat)
    requires Spread(was, now, lo, start, end, i) && i < |was| && !(was[i].start <= start < was[i].end)
    ensures Spread(was, now, lo, start, end, i + 1)
  {
    assert was[i..][0] == was[i] && was[i..][1..] == was[i + 1..];
  }

  lemma SpreadDone(was: seq<VmArea>, now: seq<VmArea>, lo: nat, start: nat, end: nat)
    requires Spread(was, now, lo, start, end, |was|)
    ensures Grown(was, now, lo, Reach(was, lo, end))
  {
  }

  /**
    Add a region to the areas it runs through. It returns at the first area that holds all that is
    left of the region; what lies behind a hole is not added anywhere.
   */
  method RegisterPageregion(areas: array<VmArea>, region: Region)
    requires Ascending(areas[..]) && region.start < region.end
    modifies areas
    ensures Grown(old(areas[..]), areas[..], region.start, Reach(old(areas[..]), region.start, region.end))
  {
    hide Spread, Grown, Reach, Ascending, Overlap;
    ghost var was := areas[..];
    var start, end := region.start, region.end;
    SpreadNone(was, start, end);
    var i := 0;
    while i < areas.Length
      invariant i <= areas.Length && Spread(was, areas[..], region.start, start, end, i)
    {
      SpreadHere(was, areas[..], region.start, start, end, i);
      if areas[i].start <= start && areas[i].end >= end {
        SpreadLast(was, areas[..], region.start, start, end, i);
        areas[i] := areas[i].(usage := areas[i].usage + (end - start));
        return;
      }
      if areas[i].start <= start && areas[i].end > start {
        SpreadMore(was, areas[..], region.start, start, end, i);
        areas[i] := areas[i].(usage := areas[i].usage + (areas[i].end - start));
        start := areas[i].end;
      } else {
        SpreadSkip(was, areas[..], region.start, start, end, i);
      }
      i := i + 1;
    }
    SpreadDone(was, areas[..], region.start, start, end);
  }

  lemma SpreadNone(was: seq<VmArea>, lo: nat, end: nat)
    requires Ascending(was) && lo < end
    ensures Spread(was, was, lo, lo, end, 0)
  {
    assert was[0..] == was;
  }

  lemma SpreadHere(was: seq<VmArea>, now: seq<VmArea>, lo: nat, start: nat, end: nat, i: nat)
    requires Spread(was, now, lo, start, end, i) && i < |was|
    ensures |now| == |was| && now[i] == was[i] && start < end
  {
  }

  // ----- Conservation -----

  ghost function TotalOverlap(s: seq<VmArea>, lo: nat, hi: nat): nat
  {
    if s == [] then 0 else Overlap(s[0], lo, hi) + TotalOverlap(s[1..], lo, hi)
  }

  /** What the areas get of a region adds up to its covered prefix: all of it when there is no hole. */
  lemma {:induction false} PrefixConserved(s: seq<VmArea>, start: nat, end: nat)
    requires Ascending(s) && start < end
    ensures TotalOverlap(s, start, Reach(s, start, end)) == Reach(s, start, end) - start
  {
    ReachIs(s, start, end);
    if s != [] {
      var rest := s[1..];
      if s[0].start <= start < s[0].end {
        if s[0].end >= end {
          NoOverlap(rest, start, end);
        } else {
          var reach := Reach(rest, s[0].end, end);
          ReachIs(rest, s[0].end, end);
          PrefixConserved(rest, s[0].end, end);
          OverlapFrom(rest, start, s[0].end, reach);
        }
      } else {
        PrefixConserved(rest, start, end);
        LaterAreas(s, start, end);
        OutOfReach(s, start, end);
      }
    }
  }

  lemma OutOfReach(s: seq<VmArea>, start: nat, end: nat)
    requires Ascending(s) && s != [] && start < end && !(s[0].start <= start < s[0].end)
    ensures Overlap(s[0], start, Reach(s, start, end)) == 0
  {
    if start < s[0].start {
      NoArea(s[1..], start, end);
    }
  }

  lemma {:induction false} NoOverlap(s: seq<VmArea>, lo: nat, hi: nat)
    requires forall i :: 0 <= i < |s| ==> hi <= s[i].start
    ensures TotalOverlap(s, lo, hi) == 0
  {
    if s != [] {
      assert hi <= s[0].start;
      NoOverlap(s[1..], lo, hi);
    }
  }

  lemma {:induction false} OverlapFrom(s: seq<VmArea>, lo: nat, from: nat, hi: nat)
    requires lo <= from && forall i :: 0 <= i < |s| ==> from <= s[i].start
    ensures TotalOverlap(s, lo, hi) == TotalOverlap(s, from, hi)
  {
    if s != [] {
      assert from <= s[0].start;
      OverlapFrom(s[1..], lo, from, hi);
    }
  }

  /** What one area gets of a whole list of regions, each as far as the areas cover it. */
  ghost function Share(s: seq<VmArea>, area: VmArea, rs: seq<Region>): nat
  {
    if rs == [] then 0
    else Overlap(area, rs[0].start, Reach(s, rs[0].start, rs[0].end)) + Share(s, area, rs[1..])
  }

  /** However many gapped regions are registered, no area's usage exceeds its own size. */
  lemma {:induction false} ShareFits(s: seq<VmArea>, area: VmArea, rs: seq<Region>)
    requires Ascending(s) && Gapped(rs) && area.start <= area.end
    ensures Share(s, area, rs) <= Overlap(area, if rs == [] then area.end else rs[0].start, area.end)
    ensures Share(s, area, rs) <= area.end - area.start
  {
    if rs != [] {
      var r := rs[0];
      ReachIs(s, r.start, r.end);
      ShareFits(s, area, rs[1..]);
    }
  }

  /** Every area's usage has grown by its share of a list of regions. */
  ghost predicate GrownBy(was: seq<VmArea>, now: seq<VmArea>, rs: seq<Region>)
  {
    && |now| == |was|
    && forall i {:trigger now[i]} :: 0 <= i < |was| ==>
         now[i] == was[i].(usage := was[i].usage + Share(was, was[i], rs))
  }

  ghost predicate SameBounds(s: seq<VmArea>, t: seq<VmArea>)
  {
    |s| == |t| && forall i {:trigger t[i]} :: 0 <= i < |s| ==> t[i].start == s[i].start && t[i].end == s[i].end
  }

  lemma {:induction false} ReachByBounds(s: seq<VmArea>, t: seq<VmArea>, start: nat, end: nat)
    requires SameBounds(s, t)
    ensures Reach(s, start, end) == Reach(t, start, end)
  {
    if s != [] {
      ReachByBounds(s[1..], t[1..], start, end);
      ReachByBounds(s[1..], t[1..], s[0].end, end);
    }
  }

  lemma {:induction false} ShareAppend(s: seq<VmArea>, area: VmArea, rs: seq<Region>, r: Region)
    ensures Share(s, area, rs + [r]) == Share(s, area, rs) + Overlap(area, r.start, Reach(s, r.start, r.end))
  {
    if rs == [] {
      assert rs + [r] == [r];
    } else {
      ShareAppend(s, area, rs[1..], r);
      assert (rs + [r])[0] == rs[0] && (rs + [r])[1..] == rs[1..] + [r];
    }
  }

  lemma GrowOneMore(was: seq<VmArea>, now: seq<VmArea>, next: seq<VmArea>, rs: seq<Region>, r: Region)
    requires GrownBy(was, now, rs) && Grown(now, next, r.start, Reach(now, r.start, r.end))
    ensures GrownBy(was, next, rs + [r])
  {
    hide Share, Reach;
    ReachByBounds(was, now, r.start, r.end);
    forall i | 0 <= i < |was|
      ensures next[i] == was[i].(usage := was[i].usage + Share(was, was[i], rs + [r]))
    {
      ShareAppend(was, was[i], rs, r);
      assert now[i] == was[i].(usage := was[i].usage + Share(was, was[i], rs));
    }
  }

  lemma AscendingByBounds(s: seq<VmArea>, t: seq<VmArea>)
    requires SameBounds(s, t) && Ascending(s)
    ensures Ascending(t)
  {
  }

  /** From unused areas, after any gapped regions, usage stays within size and adds up to what is covered. */
  lemma UsageFits(was: seq<VmArea>, now: seq<VmArea>, rs: seq<Region>, i: nat)
    requires Ascending(was) && Gapped(rs) && GrownBy(was, now, rs) && i < |was| && was[i].usage == 0
    ensures now[i].usage <= now[i].end - now[i].start
  {
    ShareFits(was, was[i], rs);
    assert now[i] == was[i].(usage := was[i].usage + Share(was, was[i], rs));
  }

  ghost function TotalUsage(s: seq<VmArea>): nat
  {
    if s == [] then 0 else s[0].usage + TotalUsage(s[1..])
  }

  lemma {:induction false} GrownTotal(was: seq<VmArea>, now: seq<VmArea>, lo: nat, hi: nat)
    requires Grown(was, now, lo, hi)
    ensures TotalUsage(now) == TotalUsage(was) + TotalOverlap(was, lo, hi)
  {
    if was != [] {
      assert now[0] == was[0].(usage := was[0].usage + Overlap(was[0], lo, hi));
      GrownTotal(was[1..], now[1..], lo, hi);
    }
  }

  /** Registering one region adds to the total usage the length of its covered prefix. */
  lemma RegionConserved(was: seq<VmArea>, now: seq<VmArea>, r: Region)
    requires Ascending(was) && r.start < r.end && Grown(was, now, r.start, Reach(was, r.start, r.end))
    ensures TotalUsage(now) - TotalUsage(was) == Reach(was, r.start, r.end) - r.start
    ensures (forall a :: r.start <= a < r.end ==> Holds(was, a)) ==>
      TotalUsage(now) - TotalUsage(was) == r.end - r.start
  {
    GrownTotal(was, now, r.start, Reach(was, r.start, r.end));
    PrefixConserved(was, r.start, r.end);
    ReachIs(was, r.start, r.end);
  }
}

/**
  The page index on raw memory (memchk_virtmem.c): regions are slots of a pool, a freed slot keeps its
  fields, and the next allocation takes the lowest free slot. Nothing is assumed about the finger.
 */
module PageMemory {
  import opened Chains
  import opened PageRegions

  /** A pointer to a region: to none, to the list's head, or to a slot of the pool. */
  datatype Link = Null | Head | At(slot: nat)

  datatype Node = Node(start: nat, end: nat, next: Link, used: bool)

  datatype Memory = Memory(first: Link, slots: seq<Node>, cand: Link, prevCand: Link)

  /** What a loop has come to after a number of rounds. */
  datatype Result<T> = Done(value: T) | Running

  datatype Absorbed = Absorbed(memory: Memory, newEnd: nat, next: Link)

  const EMPTY := Memory(Null, [], Null, Null)

  // ----- The steps of the code -----

  /** The slot behind a link; what is read through any other pointer does not matter here. */
  function NodeOf(m: Memory, l: Link): Node
  {
    if l.At? && l.slot < |m.slots| then m.slots[l.slot] else Node(0, 0, Null, false)
  }

  function LowestFree(slots: seq<Node>): (w: nat)
    ensures w <= |slots| && (w < |slots| ==> !slots[w].used)
    ensures forall i :: 0 <= i < w ==> slots[i].used
  {
    if slots == [] || !slots[0].used then 0
    else
      assert forall i :: 0 < i < |slots| ==> slots[i] == slots[1..][i - 1];
      1 + LowestFree(slots[1..])
  }

  /** `__allocate_pageregion`: the new region is at slot `LowestFree(m.slots)`. */
  function Allocate(m: Memory, start: nat, end: nat): Memory
  {
    var w, created := LowestFree(m.slots), Node(start, end, Null, true);
    m.(slots := if w < |m.slots| then m.slots[w := created] else m.slots + [created])
  }

  function SetNext(m: Memory, l: Link, next: Link): Memory
  {
    match l
    case Head => m.(first := next)
    case At(i) => if i < |m.slots| then m.(slots := m.slots[i := m.slots[i].(next := next)]) else m
    case Null => m
  }

  /** Give a slot back to the pool; its fields stay as they are. */
  function FreeSlot(m: Memory, l: Link): Memory
  {
    if l.At? && l.slot < |m.slots| then m.(slots := m.slots[l.slot := m.slots[l.slot].(used := false)]) else m
  }

  /** The absorbing loop. */
  function AbsorbIn(m: Memory, next: Link, newEnd: nat, end: nat, rounds: nat): Result<Absorbed>
    decreases rounds
  {
    if next == Null || NodeOf(m, next).start > end then Done(Absorbed(m, newEnd, next))
    else if rounds == 0 then Running
    else AbsorbIn(FreeSlot(m, next), NodeOf(m, next).next, NodeOf(m, next).end, end, rounds - 1)
  }

  function MergeIn(m: Memory, region: Link, start: nat, end: nat, rounds: nat): Result<Memory>
  {
    var n := NodeOf(m, region);
    match AbsorbIn(m, n.next, n.end, end, rounds)
    case Running => Running
    case Done(a) =>
      if !region.At? || region.slot >= |a.memory.slots| then Done(a.memory)
      else
        var grown := Node(if start < n.start then start else n.start, if a.newEnd > end then a.newEnd else end,
                          a.next, NodeOf(a.memory, region).used);
        Done(a.memory.(slots := a.memory.slots[region.slot := grown]))
  }

  /** The search, and what it does where it stops. */
  function SearchIn(m: Memory, region: Link, prev: Link, start: nat, end: nat, rounds: nat): Result<Memory>
    decreases rounds
  {
    var created := At(LowestFree(m.slots));
    if region == Null then Done(SetNext(Allocate(m, start, end), prev, created))
    else if end < NodeOf(m, region).start then
      var linked := SetNext(Allocate(m, start, end), created, region);
      Done(SetNext(linked, prev, created).(cand := created, prevCand := prev))
    else if start <= NodeOf(m, region).end then MergeIn(m, region, start, end, rounds)
    else if rounds == 0 then Running
    else SearchIn(m, NodeOf(m, region).next, region, start, end, rounds - 1)
  }

  /** `__register_block`, with at most this many rounds of each loop. */
  function RegisterIn(m: Memory, b: Block, rounds: nat): Result<Memory>
  {
    var start, end := First(b), Last(b);
    if m.first == Null then
      var created := At(LowestFree(m.slots));
      Done(Allocate(m, start, end).(first := created, cand := created, prevCand := Head))
    else if NodeOf(m, m.cand).end < start then SearchIn(m, m.cand, m.prevCand, start, end, rounds)
    else SearchIn(m, m.first, Head, start, end, rounds)
  }

  function RegisterAllIn(m: Memory, blocks: seq<Block>, rounds: nat): Result<Memory>
    decreases |blocks|
  {
    if blocks == [] then Done(m)
    else
      match RegisterIn(m, blocks[0], rounds)
      case Running => Running
      case Done(next) => RegisterAllIn(next, blocks[1..], rounds)
  }

  /** The loop of `__count_virtual_memory_size`. */
  function SizeIn(m: Memory, region: Link, rounds: nat): Result<int>
    decreases rounds
  {
    if region == Null then Done(0)
    else if rounds == 0 then Running
    else
      match SizeIn(m, NodeOf(m, region).next, rounds - 1)
      case Running => Running
      case Done(size) => Done(size + NodeOf(m, region).end - NodeOf(m, region).start)
  }

  // ----- What the steps do to a list -----

  ghost function LinkAt(s: seq<nat>, i: nat): Link
  {
    if i < |s| then At(s[i]) else Null
  }

  ghost function PrevAt(s: seq<nat>, i: nat): Link
    requires i <= |s|
  {
    if i == 0 then Head else At(s[i - 1])
  }

  /** The list runs through the slots `s`, which hold `rs`; positions `i` up to but not including `j` are free. */
  ghost predicate ListsBut(m: Memory, s: seq<nat>, rs: seq<Region>, i: nat, j: nat)
  {
    && |s| == |rs| && Distinct(s) && m.first == LinkAt(s, 0)
    && (forall k {:trigger s[k]} :: 0 <= k < |s| ==> s[k] < |m.slots|)
    && (forall k {:trigger m.slots[s[k]]} :: 0 <= k < |s| && (k < i || j <= k) ==>
          m.slots[s[k]] == Node(rs[k].start, rs[k].end, LinkAt(s, k + 1), true))
  }

  ghost predicate Lists(m: Memory, s: seq<nat>, rs: seq<Region>)
  {
    ListsBut(m, s, rs, 0, 0)
  }

  /** A finger that has not been lost is on the slot of its region. */
  ghost predicate FingerHolds(m: Memory, s: seq<nat>, finger: Finger)
  {
    finger.On? ==> finger.index < |s| && m.cand == At(s[finger.index])
  }

  /** The slots of the list after a step. */
  ghost function SlotsAfter(m: Memory, s: seq<nat>, rs: seq<Region>, start: nat, end: nat): seq<nat>
    requires |s| == |rs|
  {
    var j := Before(rs, start);
    if j == |rs| || end < rs[j].start then PutAt(s, j, LowestFree(m.slots))
    else DropRun(s, j, j + 1 + Within(rs[j + 1..], end))
  }

  lemma NodeAtPlace(m: Memory, s: seq<nat>, rs: seq<Region>, k: nat)
    requires Lists(m, s, rs) && k < |s|
    ensures NodeOf(m, At(s[k])) == Node(rs[k].start, rs[k].end, LinkAt(s, k + 1), true)
  {
    assert m.slots[s[k]].used;
  }

  /** Allocating a slot and linking it in at position `j`. */
  lemma SplicedIn(m: Memory, s: seq<nat>, rs: seq<Region>, j: nat, start: nat, end: nat)
    requires Lists(m, s, rs) && j <= |s|
    ensures var w := LowestFree(m.slots);
      Lists(SetNext(SetNext(Allocate(m, start, end), At(w), LinkAt(s, j)), PrevAt(s, j), At(w)),
            PutAt(s, j, w), PutAt(rs, j, Region(start, end)))
  {
    hide PutAt, LowestFree, Allocate;
    var w := LowestFree(m.slots);
    var m1 := SetNext(Allocate(m, start, end), At(w), LinkAt(s, j));
    var m2 := SetNext(m1, PrevAt(s, j), At(w));
    var t, ts := PutAt(s, j, w), PutAt(rs, j, Region(start, end));
    Unused(m, s, rs);
    SlotWritten(m, start, end, LinkAt(s, j));
    StillDistinct(s, j, w);
    forall k | 0 <= k < |t|
      ensures t[k] < |m2.slots| && m2.slots[t[k]] == Node(ts[k].start, ts[k].end, LinkAt(t, k + 1), true)
    {
      var k0 := if k < j then k else k - 1;
      if k != j {
        assert t[k] == s[k0] && ts[k] == rs[k0];
        assert m.slots[s[k0]] == Node(rs[k0].start, rs[k0].end, LinkAt(s, k0 + 1), true);
      }
    }
  }

  lemma SlotWritten(m: Memory, start: nat, end: nat, next: Link)
    ensures var w := LowestFree(m.slots); var m1 := SetNext(Allocate(m, start, end), At(w), next);
      && m1.first == m.first && |m.slots| <= |m1.slots| && w < |m1.slots|
      && m1.slots[w] == Node(start, end, next, true)
      && forall k {:trigger m1.slots[k]} :: 0 <= k < |m.slots| && k != w ==> m1.slots[k] == m.slots[k]
  {
    hide LowestFree;
  }

  lemma StillDistinct(s: seq<nat>, j: nat, w: nat)
    requires Distinct(s) && j <= |s| && w !in s
    ensures Distinct(PutAt(s, j, w))
  {
    hide PutAt;
  }

  lemma Unused(m: Memory, s: seq<nat>, rs: seq<Region>)
    requires Lists(m, s, rs)
    ensures LowestFree(m.slots) !in s
  {
    var w := LowestFree(m.slots);
    forall k | 0 <= k < |s|
      ensures s[k] != w
    {
      assert m.slots[s[k]].used;
    }
  }

  /** The absorbing loop frees exactly the regions that begin at or before the end. */
  lemma {:induction false} AbsorbedIn(m: Memory, s: seq<nat>, rs: seq<Region>, j: nat, k: nat, start: nat, newEnd: nat,
                                      end: nat, rounds: nat)
    requires j < k <= |s| && ListsBut(m, s, rs, j + 1, k) && rounds >= |s| - k
    ensures var r := AbsorbIn(m, LinkAt(s, k), newEnd, end, rounds); var k' := k + Within(rs[k..], end);
      && r.Done? && k' <= |s| && ListsBut(r.value.memory, s, rs, j + 1, k') && r.value.next == LinkAt(s, k')
      && r.value.memory.cand == m.cand
      && Absorb(start, newEnd, rs[k..], end) ==
           [Region(start, if r.value.newEnd > end then r.value.newEnd else end)] + rs[k'..]
    decreases |s| - k
  {
    hide Absorb, Within;
    AbsorbRound(rs, start, newEnd, k, end);
    if k < |s| {
      assert m.slots[s[k]] == Node(rs[k].start, rs[k].end, LinkAt(s, k + 1), true);
      if rs[k].start <= end {
        Freed(m, s, rs, j, k);
        AbsorbedIn(FreeSlot(m, At(s[k])), s, rs, j, k + 1, start, rs[k].end, end, rounds - 1);
      }
    }
  }

  /** The absorbing loop changes no field of any slot, it only marks slots as free. */
  lemma {:induction false} AbsorbKeeps(m: Memory, next: Link, newEnd: nat, end: nat, rounds: nat)
    ensures var r := AbsorbIn(m, next, newEnd, end, rounds);
      r.Done? ==>
        && |r.value.memory.slots| == |m.slots|
        && forall x {:trigger r.value.memory.slots[x]} :: 0 <= x < |m.slots| ==>
          r.value.memory.slots[x].end == m.slots[x].end
    decreases rounds
  {
    if next != Null && NodeOf(m, next).start <= end && rounds > 0 {
      AbsorbKeeps(FreeSlot(m, next), NodeOf(m, next).next, NodeOf(m, next).end, end, rounds - 1);
    }
  }

  lemma MergeKeeps(m: Memory, region: Link, start: nat, end: nat, rounds: nat)
    ensures var r := MergeIn(m, region, start, end, rounds);
      r.Done? ==>
        && |r.value.slots| == |m.slots|
        && forall x {:trigger r.value.slots[x]} :: 0 <= x < |m.slots| && region != At(x) ==>
          r.value.slots[x].end == m.slots[x].end
  {
    AbsorbKeeps(m, NodeOf(m, region).next, NodeOf(m, region).end, end, rounds);
  }

  lemma Freed(m: Memory, s: seq<nat>, rs: seq<Region>, j: nat, k: nat)
    requires j < k < |s| && ListsBut(m, s, rs, j + 1, k)
    ensures ListsBut(FreeSlot(m, At(s[k])), s, rs, j + 1, k + 1)
  {
  }

  lemma MergedIn(m: Memory, s: seq<nat>, rs: seq<Region>, start: nat, end: nat, rounds: nat)
    requires Lists(m, s, rs) && Gapped(rs) && start < end
    requires var j := Before(rs, start); j < |rs| && rs[j].start <= end && rounds >= |s| - j
    ensures var r := MergeIn(m, At(s[Before(rs, start)]), start, end, rounds);
      r.Done? && r.value.cand == m.cand && Lists(r.value, SlotsAfter(m, s, rs, start, end), Insert(rs, start, end))
  {
    hide Insert, Before, Within, Absorb, DropRun, MergeRun, Gapped, AbsorbIn, Lists, ListsBut;
    var j := Before(rs, start);
    var first: nat := if start < rs[j].start then start else rs[j].start;
    var k := j + 1 + Within(rs[j + 1..], end);
    NoneFree(m, s, rs, j + 1);
    NodeAtPlace(m, s, rs, j);
    AbsorbedIn(m, s, rs, j, j + 1, first, rs[j].end, end, rounds);
    var a := AbsorbIn(m, LinkAt(s, j + 1), rs[j].end, end, rounds).value;
    var last: nat := if a.newEnd > end then a.newEnd else end;
    InsertAt(rs, start, end);
    MergeRunIs(rs, j, k, Region(first, last));
    GrownIn(a.memory, s, rs, j, k, Region(first, last));
  }

  lemma NoneFree(m: Memory, s: seq<nat>, rs: seq<Region>, i: nat)
    requires Lists(m, s, rs)
    ensures |s| == |rs| && ListsBut(m, s, rs, i, i)
    ensures forall k {:trigger s[k]} :: 0 <= k < |s| ==> s[k] < |m.slots|
  {
  }

  lemma GrownIn(m: Memory, s: seq<nat>, rs: seq<Region>, j: nat, k: nat, r: Region)
    requires j < k <= |s| && ListsBut(m, s, rs, j + 1, k)
    ensures s[j] < |m.slots| && m.slots[s[j]].used
    ensures Lists(m.(slots := m.slots[s[j] := Node(r.start, r.end, LinkAt(s, k), true)]),
                  DropRun(s, j, k), MergeRun(rs, j, k, r))
  {
    hide DropRun, MergeRun;
    assert m.slots[s[j]].used;
    var m' := m.(slots := m.slots[s[j] := Node(r.start, r.end, LinkAt(s, k), true)]);
    var t, ts := DropRun(s, j, k), MergeRun(rs, j, k, r);
    forall i | 0 <= i < |t|
      ensures m'.slots[t[i]] == Node(ts[i].start, ts[i].end, LinkAt(t, i + 1), true)
    {
      var i0 := if i <= j then i else i - j - 1 + k;
      assert t[i] == s[i0];
      if i != j {
        assert m.slots[s[i0]] == Node(rs[i0].start, rs[i0].end, LinkAt(s, i0 + 1), true);
      }
      assert i + 1 < |t| ==> t[i + 1] == s[if i + 1 <= j then i + 1 else i - j + k];
    }
  }

  /** Where the search has put the finger, and which slots it has left alone. */
  ghost predicate Searched(m: Memory, m': Memory, s: seq<nat>, rs: seq<Region>, start: nat, end: nat)
    requires |s| == |rs|
  {
    var j := Before(rs, start);
    && (m'.cand == if j < |rs| && end < rs[j].start then At(LowestFree(m.slots)) else m.cand)
    && (j < |rs| && rs[j].start <= end ==> OthersKeepEnds(m, m', s[j]))
  }

  /** Except for one slot, every slot's region ends where it did. */
  ghost predicate OthersKeepEnds(m: Memory, m': Memory, y: nat)
  {
    && |m'.slots| == |m.slots|
    && forall x {:trigger m'.slots[x]} :: 0 <= x < |m.slots| && x != y ==> m'.slots[x].end == m.slots[x].end
  }

  /** The search, from any place at or before the one where it stops. */
  lemma {:induction false} SearchedIn(m: Memory, s: seq<nat>, rs: seq<Region>, i: nat, prev: Link, start: nat, end: nat,
                                      rounds: nat)
    requires Lists(m, s, rs) && Gapped(rs) && start < end && i <= Before(rs, start) && rounds >= |s| - i
    requires i < Before(rs, start) || prev == PrevAt(s, i)
    ensures var r := SearchIn(m, LinkAt(s, i), prev, start, end, rounds);
      && r.Done? && Lists(r.value, SlotsAfter(m, s, rs, start, end), Insert(rs, start, end))
      && Searched(m, r.value, s, rs, start, end)
    decreases |s| - i
  {
    hide Insert, Before, SlotsAfter, Gapped, Lists;
    NoneFree(m, s, rs, i);
    Stops(rs, i, start, end);
    if i < Before(rs, start) {
      NodeAtPlace(m, s, rs, i);
      SearchedIn(m, s, rs, i + 1, At(s[i]), start, end, rounds - 1);
    } else {
      StoppedIn(m, s, rs, start, end, rounds);
    }
  }

  /** What the search does where it stops. */
  lemma StoppedIn(m: Memory, s: seq<nat>, rs: seq<Region>, start: nat, end: nat, rounds: nat)
    requires Lists(m, s, rs) && Gapped(rs) && start < end && rounds >= |s| - Before(rs, start)
    ensures var j := Before(rs, start); var r := SearchIn(m, LinkAt(s, j), PrevAt(s, j), start, end, rounds);
      && r.Done? && Lists(r.value, SlotsAfter(m, s, rs, start, end), Insert(rs, start, end))
      && Searched(m, r.value, s, rs, start, end)
  {
    hide Insert, Before, Within, Absorb, DropRun, PutAt, LowestFree, Allocate, Gapped;
    var j := Before(rs, start);
    Stops(rs, j, start, end);
    if j < |s| && rs[j].start <= end {
      NodeAtPlace(m, s, rs, j);
      MergedIn(m, s, rs, start, end, rounds);
      MergeKeeps(m, At(s[j]), start, end, rounds);
    } else {
      InsertAt(rs, start, end);
      SplicedIn(m, s, rs, j, start, end);
      NoNext(m, start, end);
      if j < |s| {
        NodeAtPlace(m, s, rs, j);
      }
    }
  }

  lemma Stops(rs: seq<Region>, i: nat, start: nat, end: nat)
    requires Gapped(rs) && start < end && i <= Before(rs, start)
    ensures Before(rs, start) <= |rs| && (i < |rs| ==> (i < Before(rs, start) <==> rs[i].end < start))
    ensures i < |rs| && end < rs[i].start ==> start <= rs[i].end
  {
    assert i < |rs| ==> Aligned(rs[i]);
  }

  /** A region just allocated has no successor yet. */
  lemma NoNext(m: Memory, start: nat, end: nat)
    ensures SetNext(Allocate(m, start, end), At(LowestFree(m.slots)), Null) == Allocate(m, start, end)
    ensures Allocate(m, start, end).cand == m.cand
  {
    var a := Allocate(m, start, end);
    assert SetNext(a, At(LowestFree(m.slots)), Null).slots == a.slots;
  }

  /**
    One block. If the finger is on the slot of a region of the list, or else is not used because the
    slot it is on ends at or behind the block's start, the list becomes what a search from its head gives.
   */
  lemma RegisteredIn(m: Memory, s: seq<nat>, rs: seq<Region>, f: nat, b: Block, rounds: nat)
    requires Lists(m, s, rs) && Gapped(rs) && b.size > 0 && rounds >= |s|
    requires rs == [] || (f < |s| && m.cand == At(s[f])) || First(b) <= NodeOf(m, m.cand).end
    ensures var r := RegisterIn(m, b, rounds); var start, end := First(b), Last(b);
      && r.Done? && Lists(r.value, SlotsAfter(m, s, rs, start, end), Insert(rs, start, end))
      && (rs == [] || (f < |s| && m.cand == At(s[f])) ==>
            FingerHolds(r.value, SlotsAfter(m, s, rs, start, end), FingerAfter(rs, f, start, end)))
      && (rs != [] ==> Searched(m, r.value, s, rs, start, end))
  {
    hide Insert, SearchIn, LowestFree, Allocate, PageDown, Gapped;
    var start, end := First(b), Last(b);
    BlockPages(b, 0);
    var w := LowestFree(m.slots);
    if rs == [] {
      SplicedIn(m, s, rs, 0, start, end);
      NoNext(m, start, end);
      FirstInsert(start, end);
      FirstSlot(s, rs, start, end, w);
    } else {
      if f < |s| && m.cand == At(s[f]) {
        NodeAtPlace(m, s, rs, f);
        if rs[f].end < start {
          Ahead(rs, f, start);
          SearchedIn(m, s, rs, f, m.prevCand, start, end, rounds);
        } else {
          SearchedIn(m, s, rs, 0, Head, start, end, rounds);
        }
        FingerMoves(m, s, rs, f, start, end);
      } else {
        SearchedIn(m, s, rs, 0, Head, start, end, rounds);
      }
    }
  }

  lemma Ahead(rs: seq<Region>, f: nat, start: nat)
    requires Gapped(rs) && f < |rs| && rs[f].end < start
    ensures f < Before(rs, start)
  {
  }

  lemma FirstSlot(s: seq<nat>, rs: seq<Region>, start: nat, end: nat, w: nat)
    requires s == [] && rs == []
    ensures PutAt(s, 0, w) == [w] && PutAt(rs, 0, Region(start, end)) == [Region(start, end)]
    ensures Before(rs, start) == 0
  {
  }

  lemma FingerMoves(m: Memory, s: seq<nat>, rs: seq<Region>, f: nat, start: nat, end: nat)
    requires |s| == |rs| && f < |s| && Gapped(rs) && start < end
    ensures var j, t := Before(rs, start), SlotsAfter(m, s, rs, start, end);
      var finger := FingerAfter(rs, f, start, end);
      finger.On? ==>
        && finger.index < |t|
        && t[finger.index] == if j < |rs| && end < rs[j].start then LowestFree(m.slots) else s[f]
  {
    hide Before, Within, PutAt, DropRun, LowestFree;
  }

  /** The list a run has built up, and how its size is counted. */
  lemma {:induction false} SizedIn(m: Memory, s: seq<nat>, rs: seq<Region>, i: nat, rounds: nat)
    requires Lists(m, s, rs) && i <= |s| && rounds >= |s| - i
    ensures SizeIn(m, LinkAt(s, i), rounds) == Done(TotalSize(rs[i..]))
    decreases |s| - i
  {
    if i < |s| {
      NodeAtPlace(m, s, rs, i);
      SizedIn(m, s, rs, i + 1, rounds - 1);
      assert rs[i..][0] == rs[i] && rs[i..][1..] == rs[i + 1..];
    }
  }

  // ----- Runs that do no harm -----

  /** Where the finger is: on a region of the list, or on a freed slot whose region ended at `end`. */
  datatype Aim = OnList(index: nat) | Stale(end: nat)

  ghost function AimAfter(rs: seq<Region>, aim: Aim, start: nat, end: nat): Aim
  {
    if rs == [] then OnList(0)
    else
      match aim
      case OnList(f) =>
        var finger := FingerAfter(rs, f, start, end);
        if finger.On? then OnList(finger.index) else Stale(if f < |rs| then rs[f].end else 0)
      case Stale(_) =>
        var i := Before(rs, start);
        if i < |rs| && end < rs[i].start then OnList(i) else aim
  }

  /** While the finger is lost, no block starts above the end of the slot it is on. */
  ghost predicate Harmless(rs: seq<Region>, aim: Aim, blocks: seq<Block>)
    decreases |blocks|
  {
    blocks == [] ||
    (var start, end := First(blocks[0]), Last(blocks[0]);
     && (rs == [] || aim.OnList? || start <= aim.end)
     && Harmless(Insert(rs, start, end), AimAfter(rs, aim, start, end), blocks[1..]))
  }

  ghost predicate AimHolds(m: Memory, s: seq<nat>, rs: seq<Region>, aim: Aim)
  {
    match aim
    case OnList(f) => f < |s| && m.cand == At(s[f])
    case Stale(e) =>
      && e > 0 && Covers(rs, e - 1)
      && m.cand.At? && m.cand.slot < |m.slots| && m.cand.slot !in s && m.slots[m.cand.slot].end == e
  }

  /** A harmless step makes the right list, and the finger is where `AimAfter` says. */
  lemma HarmlessStep(m: Memory, s: seq<nat>, rs: seq<Region>, aim: Aim, b: Block, rounds: nat)
    requires Lists(m, s, rs) && Gapped(rs) && b.size > 0 && rounds >= |s|
    requires rs == [] || (AimHolds(m, s, rs, aim) && (aim.OnList? || First(b) <= aim.end))
    ensures var r := RegisterIn(m, b, rounds); var start, end := First(b), Last(b);
      var t, ts := SlotsAfter(m, s, rs, start, end), Insert(rs, start, end);
      r.Done? && Lists(r.value, t, ts) && AimHolds(r.value, t, ts, AimAfter(rs, aim, start, end))
  {
    var start, end := First(b), Last(b);
    BlockPages(b, 0);
    RegisteredIn(m, s, rs, if aim.OnList? then aim.index else |s|, b, rounds);
    hide Lists, Insert, SlotsAfter, PageDown, Gapped, RegisterIn, Searched, First, Last;
    if rs != [] {
      Kept(m, s, rs, aim, b, rounds);
    }
  }

  lemma Kept(m: Memory, s: seq<nat>, rs: seq<Region>, aim: Aim, b: Block, rounds: nat)
    requires Lists(m, s, rs) && Gapped(rs) && b.size > 0 && rounds >= |s| && rs != []
    requires AimHolds(m, s, rs, aim) && (aim.OnList? || First(b) <= aim.end)
    requires RegisterIn(m, b, rounds).Done? && Searched(m, RegisterIn(m, b, rounds).value, s, rs, First(b), Last(b))
    ensures AimHolds(RegisterIn(m, b, rounds).value, SlotsAfter(m, s, rs, First(b), Last(b)),
                     Insert(rs, First(b), Last(b)), AimAfter(rs, aim, First(b), Last(b)))
  {
    BlockPages(b, 0);
    hide RegisterIn, Insert, SlotsAfter, First, Last, Lists, AimHolds, Searched;
    match aim
    case OnList(f) =>
      KeptOnList(m, RegisterIn(m, b, rounds).value, s, rs, f, First(b), Last(b));
    case Stale(e) =>
      KeptStale(m, RegisterIn(m, b, rounds).value, s, rs, e, First(b), Last(b));
  }

  lemma KeptOnList(m: Memory, m': Memory, s: seq<nat>, rs: seq<Region>, f: nat, start: nat, end: nat)
    requires Lists(m, s, rs) && Gapped(rs) && Aligned(Region(start, end)) && rs != []
    requires AimHolds(m, s, rs, OnList(f)) && Searched(m, m', s, rs, start, end)
    ensures AimHolds(m', SlotsAfter(m, s, rs, start, end), Insert(rs, start, end), AimAfter(rs, OnList(f), start, end))
  {
    hide Insert, SlotsAfter, Gapped, Covers, Before, FingerAfter, LowestFree;
    FingerMoves(m, s, rs, f, start, end);
    if FingerAfter(rs, f, start, end) == Dangling {
      StaleFrom(m, s, rs, f, start, end);
      StillCovered(rs, start, end, rs[f].end);
    }
  }

  lemma KeptStale(m: Memory, m': Memory, s: seq<nat>, rs: seq<Region>, e: nat, start: nat, end: nat)
    requires Lists(m, s, rs) && Gapped(rs) && Aligned(Region(start, end)) && rs != []
    requires AimHolds(m, s, rs, Stale(e)) && Searched(m, m', s, rs, start, end) && start <= e
    ensures AimHolds(m', SlotsAfter(m, s, rs, start, end), Insert(rs, start, end), AimAfter(rs, Stale(e), start, end))
  {
    hide Insert, SlotsAfter, Gapped, Covers, Before, LowestFree;
    NotBehindAll(rs, start, e);
    StillCovered(rs, start, end, e);
    if rs[Before(rs, start)].start <= end {
      OnlyFewer(m, s, rs, start, end, m.cand.slot);
    } else {
      NewFinger(m, s, rs, start, end);
    }
  }

  /** A freed slot keeps its end, and is not on the new list. */
  lemma StaleFrom(m: Memory, s: seq<nat>, rs: seq<Region>, f: nat, start: nat, end: nat)
    requires Lists(m, s, rs) && Gapped(rs) && start < end && f < |s| && FingerAfter(rs, f, start, end) == Dangling
    ensures var j := Before(rs, start);
      && j < |rs| && rs[j].start <= end && s[f] != s[j] && s[f] !in SlotsAfter(m, s, rs, start, end)
      && s[f] < |m.slots| && m.slots[s[f]].end == rs[f].end > 0 && Covers(rs, rs[f].end - 1)
  {
    hide Before, Within, DropRun;
    NodeAtPlace(m, s, rs, f);
    assert Inside(rs[f], rs[f].end - 1);
  }

  lemma StillCovered(rs: seq<Region>, start: nat, end: nat, e: nat)
    requires Gapped(rs) && Aligned(Region(start, end)) && e > 0 && Covers(rs, e - 1)
    ensures Covers(Insert(rs, start, end), e - 1)
  {
    InsertIs(rs, start, end, e - 1);
  }

  lemma NotBehindAll(rs: seq<Region>, start: nat, e: nat)
    requires e > 0 && Covers(rs, e - 1) && start <= e
    ensures Before(rs, start) < |rs|
  {
  }

  lemma OnlyFewer(m: Memory, s: seq<nat>, rs: seq<Region>, start: nat, end: nat, c: nat)
    requires |s| == |rs| && c !in s
    requires var j := Before(rs, start); j < |rs| && rs[j].start <= end
    ensures c !in SlotsAfter(m, s, rs, start, end) && c != s[Before(rs, start)]
  {
    hide Before, Within, LowestFree;
  }

  lemma NewFinger(m: Memory, s: seq<nat>, rs: seq<Region>, start: nat, end: nat)
    requires |s| == |rs|
    requires var j := Before(rs, start); j < |rs| && end < rs[j].start
    ensures var t := SlotsAfter(m, s, rs, start, end);
      Before(rs, start) < |t| && t[Before(rs, start)] == LowestFree(m.slots)
  {
    hide Before, Within, LowestFree, PutAt;
  }

  /** Runs that do no harm build the list of `InsertAll`. */
  lemma {:induction false} RunIn(m: Memory, s: seq<nat>, rs: seq<Region>, aim: Aim, blocks: seq<Block>, rounds: nat)
    returns (t: seq<nat>)
    requires Lists(m, s, rs) && Gapped(rs) && NonEmpty(blocks) && rounds >= |s| + |blocks|
    requires Harmless(rs, aim, blocks) && (rs == [] || AimHolds(m, s, rs, aim))
    ensures var r := RegisterAllIn(m, blocks, rounds);
      r.Done? && Lists(r.value, t, InsertAll(rs, blocks)) && |t| <= |s| + |blocks|
    decreases |blocks|
  {
    t := s;
    if blocks != [] {
      var start, end := First(blocks[0]), Last(blocks[0]);
      HarmlessStep(m, s, rs, aim, blocks[0], rounds);
      BlockPages(blocks[0], 0);
      InsertIs(rs, start, end, 0);
      hide RegisterIn, Lists, Insert, AimAfter, AimHolds, First, Last;
      t := RunIn(RegisterIn(m, blocks[0], rounds).value, SlotsAfter(m, s, rs, start, end), Insert(rs, start, end),
                 AimAfter(rs, aim, start, end), blocks[1..], rounds);
    }
  }

  /** Unless a block starts above the end of a freed slot the finger is on, 4096 times the pages touched are counted. */
  lemma SizeUnlessHarmed(blocks: seq<Block>, rounds: nat)
    requires NonEmpty(blocks) && Harmless([], OnList(0), blocks) && rounds >= |blocks|
    ensures var r := RegisterAllIn(EMPTY, blocks, rounds);
      r.Done? && SizeIn(r.value, r.value.first, rounds) == Done(PAGE_SIZE * |TouchedPages(blocks)|)
  {
    NothingCovered();
    var t := RunIn(EMPTY, [], [], OnList(0), blocks, rounds);
    var m, rs := RegisterAllIn(EMPTY, blocks, rounds).value, InsertAll([], blocks);
    CountedSize(blocks);
    SizedIn(m, t, rs, 0, rounds);
    assert rs[0..] == rs;
  }

  /** Runs that never consult a freed region are among them. */
  lemma {:induction false} SafeIsHarmless(rs: seq<Region>, finger: Finger, blocks: seq<Block>)
    requires Gapped(rs) && NonEmpty(blocks) && FingerSafe(rs, finger, blocks)
    ensures Harmless(rs, OnList(if finger.On? then finger.index else 0), blocks)
    decreases |blocks|
  {
    hide Before, Insert, First, Last;
    if blocks != [] {
      var f := if finger.On? then finger.index else 0;
      var start, end := First(blocks[0]), Last(blocks[0]);
      BlockPages(blocks[0], 0);
      InsertIs(rs, start, end, 0);
      var finger' := FingerAfter(rs, f, start, end);
      if |blocks| > 1 {
        assert finger'.On? by {
          assert FingerSafe(Insert(rs, start, end), finger', blocks[1..]);
        }
        SafeIsHarmless(Insert(rs, start, end), finger', blocks[1..]);
        FirstIsOn(rs, f, start, end);
      }
    }
  }

  lemma FirstIsOn(rs: seq<Region>, f: nat, start: nat, end: nat)
    ensures rs == [] ==> FingerAfter(rs, f, start, end) == On(0)
  {
  }

  /** In particular, unless a block other than the last bridges the gap in front of the finger's region. */
  lemma SizeUnlessBridged(blocks: seq<Block>, rounds: nat)
    requires NonEmpty(blocks) && NeverBridged([], 0, blocks) && rounds >= |blocks|
    ensures var r := RegisterAllIn(EMPTY, blocks, rounds);
      r.Done? && SizeIn(r.value, r.value.first, rounds) == Done(PAGE_SIZE * |TouchedPages(blocks)|)
  {
    NothingCovered();
    SafeIffNeverBridged([], Dangling, blocks);
    SafeIsHarmless([], Dangling, blocks);
    SizeUnlessHarmed(blocks, rounds);
  }

  // ----- A step that consults a freed slot -----

  /** The list in memory holds these regions. */
  ghost predicate Holds(m: Memory, rs: seq<Region>)
  {
    exists t :: Lists(m, t, rs)
  }

  lemma HoldsBy(m: Memory, t: seq<nat>, rs: seq<Region>)
    requires Lists(m, t, rs)
    ensures Holds(m, rs)
  {
  }

  /**
    The finger is on a freed slot that ends below the block, and whose successor is still the region at
    position `i` of the list, none behind it. The list becomes what it ought to be exactly if the search
    passes that region or merges the block into it. Otherwise the list stays as it is, without the block.
   */
  lemma StaleStepIff(m: Memory, s: seq<nat>, rs: seq<Region>, c: nat, i: nat, b: Block, rounds: nat)
    requires Lists(m, s, rs) && Gapped(rs) && b.size > 0 && rounds > |s| && rs != []
    requires m.cand == At(c) && c < |m.slots| && c !in s
    requires m.slots[c].start <= m.slots[c].end < First(b) && m.slots[c].next == LinkAt(s, i)
    requires i <= Before(rs, First(b))
    ensures var r := RegisterIn(m, b, rounds); var start, end := First(b), Last(b); var j := Before(rs, start);
      && r.Done?
      && (Holds(r.value, Insert(rs, start, end)) <==> i < j || (j < |rs| && rs[j].start <= end))
      && (i == j && (j < |rs| ==> end < rs[j].start) ==>
            Lists(r.value, s, rs) && forall a :: start <= a < end ==> !Covers(rs, a))
  {
    hide RegisterIn, SearchIn, Lists, Insert, Before, First, Last, Gapped, SlotsAfter, Covers, Holds, Searched;
    var start, end := First(b), Last(b);
    BlockPages(b, 0);
    StaleStarts(m, s, rs, c, i, b, rounds);
    var r := SearchIn(m, LinkAt(s, i), At(c), start, end, rounds - 1);
    NoneFree(m, s, rs, 0);
    var j := Before(rs, start);
    if i < j {
      SearchedIn(m, s, rs, i, At(c), start, end, rounds - 1);
      HoldsBy(r.value, SlotsAfter(m, s, rs, start, end), Insert(rs, start, end));
    } else if j < |rs| && rs[j].start <= end {
      StoppedIn(m, s, rs, start, end, rounds - 1);
      AnyPrev(m, s, rs, At(c), start, end, rounds - 1);
      HoldsBy(r.value, SlotsAfter(m, s, rs, start, end), Insert(rs, start, end));
    } else {
      StaleAside(m, s, rs, c, start, end, rounds - 1);
      NotCovered(rs, start, end);
      NeverRight(r.value, s, rs, start, end);
    }
  }

  lemma StaleStarts(m: Memory, s: seq<nat>, rs: seq<Region>, c: nat, i: nat, b: Block, rounds: nat)
    requires Lists(m, s, rs) && rs != [] && b.size > 0 && rounds > 0
    requires m.cand == At(c) && c < |m.slots| && c !in s
    requires m.slots[c].start <= m.slots[c].end < First(b) && m.slots[c].next == LinkAt(s, i)
    ensures RegisterIn(m, b, rounds) == SearchIn(m, LinkAt(s, i), At(c), First(b), Last(b), rounds - 1)
  {
    BlockPages(b, 0);
    hide First, Last;
  }

  /** A merge does not use the predecessor. */
  lemma AnyPrev(m: Memory, s: seq<nat>, rs: seq<Region>, prev: Link, start: nat, end: nat, rounds: nat)
    requires Lists(m, s, rs) && Gapped(rs) && start < end
    requires var j := Before(rs, start); j < |rs| && rs[j].start <= end
    ensures var j := Before(rs, start);
      SearchIn(m, LinkAt(s, j), prev, start, end, rounds) == SearchIn(m, LinkAt(s, j), PrevAt(s, j), start, end, rounds)
  {
    hide Before, MergeIn, Allocate, Gapped;
    var j := Before(rs, start);
    Stops(rs, j, start, end);
    NodeAtPlace(m, s, rs, j);
  }

  lemma StaleAside(m: Memory, s: seq<nat>, rs: seq<Region>, c: nat, start: nat, end: nat, rounds: nat)
    requires Lists(m, s, rs) && c !in s && c < |m.slots|
    requires var j := Before(rs, start); j < |rs| ==> end < rs[j].start
    ensures var r := SearchIn(m, LinkAt(s, Before(rs, start)), At(c), start, end, rounds);
      r.Done? && Lists(r.value, s, rs)
  {
    hide Before, MergeIn, Allocate, LowestFree;
    var j := Before(rs, start);
    LinkedAside(m, s, rs, c, j, start, end);
    NoNext(m, start, end);
    if j < |s| {
      NodeAtPlace(m, s, rs, j);
    }
  }

  lemma NeverRight(m: Memory, s: seq<nat>, rs: seq<Region>, start: nat, end: nat)
    requires Lists(m, s, rs) && Gapped(rs) && Aligned(Region(start, end)) && !Covers(rs, start)
    ensures !Holds(m, Insert(rs, start, end))
  {
    hide Insert, Covers, Gapped;
    InsertIs(rs, start, end, start);
    forall t
      ensures !Lists(m, t, Insert(rs, start, end))
    {
      Differs(m, s, rs, t, Insert(rs, start, end));
    }
  }

  lemma Differs(m: Memory, s: seq<nat>, rs: seq<Region>, t: seq<nat>, ts: seq<Region>)
    requires Lists(m, s, rs) && rs != ts
    ensures !Lists(m, t, ts)
  {
    assert rs == rs[0..] && ts == ts[0..];
    if Lists(m, t, ts) {
      OneList(m, s, rs, t, ts, 0);
      assert false;
    }
  }

  /** Linking a new slot in behind a slot that is not on the list leaves the list alone. */
  lemma LinkedAside(m: Memory, s: seq<nat>, rs: seq<Region>, c: nat, j: nat, start: nat, end: nat)
    requires Lists(m, s, rs) && c !in s && c < |m.slots| && j <= |s|
    ensures var w := At(LowestFree(m.slots));
      var m' := SetNext(SetNext(Allocate(m, start, end), w, LinkAt(s, j)), At(c), w);
      Lists(m', s, rs) && Lists(m'.(cand := w, prevCand := At(c)), s, rs)
  {
    Unused(m, s, rs);
    SlotWritten(m, start, end, LinkAt(s, j));
  }

  lemma NotCovered(rs: seq<Region>, start: nat, end: nat)
    requires Gapped(rs)
    requires var j := Before(rs, start); j < |rs| ==> end < rs[j].start
    ensures forall a :: start <= a < end ==> !Covers(rs, a)
  {
  }

  /** The memory determines the list. */
  lemma {:induction false} OneList(m: Memory, s: seq<nat>, rs: seq<Region>, t: seq<nat>, ts: seq<Region>, k: nat)
    requires Lists(m, s, rs) && Lists(m, t, ts) && k <= |s| && k <= |t| && LinkAt(s, k) == LinkAt(t, k)
    ensures rs[k..] == ts[k..]
    decreases |s| - k
  {
    if k < |s| {
      NodeAtPlace(m, s, rs, k);
      NodeAtPlace(m, t, ts, k);
      OneList(m, s, rs, t, ts, k + 1);
      assert rs[k..] == [rs[k]] + rs[k + 1..] && ts[k..] == [ts[k]] + ts[k + 1..];
    }
  }

  // ----- The lost run -----

  const LOW_NODE := Node(0xcb000, 0xcd000, Null, true)
  const HIGH_NODE := Node(0x1fd000, 0x1fe000, Null, true)
  const MIDDLE_NODE := Node(0x131000, 0x132000, At(1), true)
  const MERGED_NODE := Node(0xcb000, 0x132000, At(1), true)
  const LOOP_NODE := Node(0x134000, 0x135000, At(2), true)

  const ONE := Memory(At(0), [LOW_NODE], At(0), Head)
  const TWO := Memory(At(0), [LOW_NODE.(next := At(1)), HIGH_NODE], At(0), Head)
  const THREE := Memory(At(0), [LOW_NODE.(next := At(2)), HIGH_NODE, MIDDLE_NODE], At(2), At(0))
  const FOUR := Memory(At(0), [MERGED_NODE, HIGH_NODE, MIDDLE_NODE.(used := false)], At(2), At(0))

  /** What the lost run leaves: the region of `AFTER` is its own successor, and the list does not lead to it. */
  const LOST := Memory(At(0), [MERGED_NODE, HIGH_NODE, LOOP_NODE], At(2), At(2))

  lemma FirstStep(rounds: nat)
    ensures RegisterIn(EMPTY, LOW, rounds) == Done(ONE)
  {
    LostRunBounds();
    hide First, Last;
    assert Allocate(EMPTY, 0xcb000, 0xcd000).slots == [LOW_NODE];
  }

  /** The search passes the one region and appends. */
  lemma SecondStep(rounds: nat)
    requires rounds > 0
    ensures RegisterIn(ONE, HIGH, rounds) == Done(TWO)
  {
    LostRunBounds();
    hide First, Last;
    var m := Allocate(ONE, 0x1fd000, 0x1fe000);
    assert m.slots == [LOW_NODE, HIGH_NODE];
    assert SetNext(m, At(0), At(1)).slots == TWO.slots;
    assert SearchIn(ONE, Null, At(0), 0x1fd000, 0x1fe000, rounds - 1) == Done(TWO);
  }

  lemma ThirdStep(rounds: nat)
    requires rounds > 0
    ensures RegisterIn(TWO, MIDDLE, rounds) == Done(THREE)
  {
    LostRunBounds();
    hide First, Last;
    var m := Allocate(TWO, 0x131000, 0x132000);
    assert m.slots == [LOW_NODE.(next := At(1)), HIGH_NODE, Node(0x131000, 0x132000, Null, true)];
    var linked := SetNext(m, At(2), At(1));
    assert linked.slots == [LOW_NODE.(next := At(1)), HIGH_NODE, MIDDLE_NODE];
    assert SetNext(linked, At(0), At(2)).slots == THREE.slots;
    assert SearchIn(TWO, At(1), At(0), 0x131000, 0x132000, rounds - 1) == Done(THREE);
  }

  /** The merge frees the slot of `MIDDLE`, on which the finger is. */
  lemma FourthStep(rounds: nat)
    requires rounds > 0
    ensures RegisterIn(THREE, BRIDGE, rounds) == Done(FOUR)
  {
    LostRunBounds();
    hide First, Last;
    var freed := THREE.(slots := [LOW_NODE.(next := At(2)), HIGH_NODE, MIDDLE_NODE.(used := false)]);
    assert FreeSlot(THREE, At(2)).slots == freed.slots;
    assert AbsorbIn(freed, At(1), 0x132000, 0x132000, rounds - 1) == Done(Absorbed(freed, 0x132000, At(1)));
    assert freed.slots[0 := MERGED_NODE] == FOUR.slots;
  }

  /** The search starts at the freed slot, passes it, and the new region is put into that very slot. */
  lemma FifthStep(rounds: nat)
    requires rounds > 0
    ensures RegisterIn(FOUR, AFTER, rounds) == Done(LOST)
  {
    LostRunBounds();
    hide First, Last;
    assert LowestFree(FOUR.slots) == 2;
    var m := Allocate(FOUR, 0x134000, 0x135000);
    assert m.slots == [MERGED_NODE, HIGH_NODE, Node(0x134000, 0x135000, Null, true)];
    var linked := SetNext(m, At(2), At(1));
    assert linked.slots == [MERGED_NODE, HIGH_NODE, Node(0x134000, 0x135000, At(1), true)];
    assert SetNext(linked, At(2), At(2)).slots == LOST.slots;
    assert SearchIn(FOUR, At(1), At(2), 0x134000, 0x135000, rounds - 1) == Done(LOST);
  }

  lemma AllInStep(m: Memory, b: Block, next: Memory, rest: seq<Block>, rounds: nat)
    requires RegisterIn(m, b, rounds) == Done(next)
    ensures RegisterAllIn(m, [b] + rest, rounds) == RegisterAllIn(next, rest, rounds)
  {
    hide RegisterIn;
    assert ([b] + rest)[0] == b && ([b] + rest)[1..] == rest;
  }

  lemma LostSteps(rounds: nat)
    requires rounds > 0
    ensures RegisterAllIn(EMPTY, LOST_RUN, rounds) == Done(LOST)
  {
    FirstStep(rounds);
    SecondStep(rounds);
    ThirdStep(rounds);
    FourthStep(rounds);
    FifthStep(rounds);
    hide RegisterIn;
    AllInStep(EMPTY, LOW, ONE, [HIGH] + ([MIDDLE] + ([BRIDGE] + [AFTER])), rounds);
    AllInStep(ONE, HIGH, TWO, [MIDDLE] + ([BRIDGE] + [AFTER]), rounds);
    AllInStep(TWO, MIDDLE, THREE, [BRIDGE] + [AFTER], rounds);
    AllInStep(THREE, BRIDGE, FOUR, [AFTER], rounds);
    AllInStep(FOUR, AFTER, LOST, [], rounds);
    assert [AFTER] + [] == [AFTER];
  }

  /** On the lost run the size counted is that of 104 pages; the blocks touch 105. */
  lemma LostSize(rounds: nat)
    requires rounds >= 2
    ensures RegisterAllIn(EMPTY, LOST_RUN, rounds) == Done(LOST)
    ensures SizeIn(LOST, LOST.first, rounds) == Done(104 * PAGE_SIZE)
    ensures |TouchedPages(LOST_RUN)| == 105
  {
    LostSteps(rounds);
    assert SizeIn(LOST, Null, rounds - 2) == Done(0);
    assert SizeIn(LOST, At(1), rounds - 1) == Done(0x1000);
    LostPages();
  }

  lemma LostPages()
    ensures |TouchedPages(LOST_RUN)| == 105
  {
    LostRunBounds();
    LostRunOrder();
    CountedSize(LOST_RUN);
    LostRegions();
    hide TouchedPages;
    var rs := [Region(0xcb000, 0x132000), Region(0x134000, 0x135000), Region(0x1fd000, 0x1fe000)];
    assert rs[1..] == [rs[1], rs[2]] && rs[1..][1..] == [rs[2]] && [rs[2]][1..] == [];
    assert TotalSize(rs) == 105 * PAGE_SIZE;
  }

  /** A sixth block, above the lost region. */
  lemma SixNeverEnd(rounds: nat)
    ensures RegisterAllIn(EMPTY, LOST_RUN + [SIXTH], rounds) == Running
  {
    SixthBounds();
    if rounds == 0 {
      FirstStep(0);
      OneRoundNeeded();
    } else {
      FirstStep(rounds);
      SecondStep(rounds);
      ThirdStep(rounds);
      FourthStep(rounds);
      FifthStep(rounds);
      NeverEnds(SIXTH, rounds);
    }
    hide RegisterIn;
    assert LOST_RUN + [SIXTH] == [LOW] + ([HIGH] + ([MIDDLE] + ([BRIDGE] + ([AFTER] + ([SIXTH] + [])))));
    AllInStep(EMPTY, LOW, ONE, [HIGH] + ([MIDDLE] + ([BRIDGE] + ([AFTER] + ([SIXTH] + [])))), rounds);
    if rounds == 0 {
      AllInStuck(ONE, HIGH, [MIDDLE] + ([BRIDGE] + ([AFTER] + ([SIXTH] + []))), rounds);
    } else {
      AllInStep(ONE, HIGH, TWO, [MIDDLE] + ([BRIDGE] + ([AFTER] + ([SIXTH] + []))), rounds);
      AllInStep(TWO, MIDDLE, THREE, [BRIDGE] + ([AFTER] + ([SIXTH] + [])), rounds);
      AllInStep(THREE, BRIDGE, FOUR, [AFTER] + ([SIXTH] + []), rounds);
      AllInStep(FOUR, AFTER, LOST, [SIXTH] + [], rounds);
      AllInStuck(LOST, SIXTH, [], rounds);
    }
  }

  lemma OneRoundNeeded()
    ensures RegisterIn(ONE, HIGH, 0) == Running
  {
    LostRunBounds();
    hide First, Last;
  }

  lemma AllInStuck(m: Memory, b: Block, rest: seq<Block>, rounds: nat)
    requires RegisterIn(m, b, rounds) == Running
    ensures RegisterAllIn(m, [b] + rest, rounds) == Running
  {
    hide RegisterIn;
    assert ([b] + rest)[0] == b;
  }

  /** After the lost run, registering any block above the lost region never ends. */
  lemma NeverEnds(b: Block, rounds: nat)
    requires First(b) > 0x135000
    ensures RegisterIn(LOST, b, rounds) == Running
  {
    Circles(At(2), First(b), Last(b), rounds);
  }

  lemma {:induction false} Circles(prev: Link, start: nat, end: nat, rounds: nat)
    requires 0x135000 < start <= end
    ensures SearchIn(LOST, At(2), prev, start, end, rounds) == Running
    decreases rounds
  {
    if rounds > 0 {
      Circles(At(2), start, end, rounds - 1);
    }
  }
}

/** Sorted lists of page-aligned regions with gaps between them: what the page index computes. */
module PageRegions {
  import opened Bits
  import opened Chains

  const PAGE_SIZE := 4096

  datatype Region = Region(start: nat, end: nat)
  datatype Block = Block(addr: nat, size: nat)

  /** Round an address down, or up, to a page boundary, with the mask of the page size. */
  function PageDown(addr: nat): (r: nat)
    ensures r == addr - addr % PAGE_SIZE
  {
    PowerOfTwoPage();
    MaskRoundsDown(addr, PAGE_SIZE);
    AndNot(addr, PAGE_SIZE - 1)
  }

  function PageUp(addr: nat): nat
  {
    PageDown(addr + PAGE_SIZE - 1)
  }

  /** The pages of a block run from here ... */
  function First(b: Block): nat
  {
    PageDown(b.addr)
  }

  /** ... to here. */
  function Last(b: Block): nat
  {
    PageUp(b.addr + b.size)
  }

  /** Page `p` meets the block. */
  ghost predicate Touches(b: Block, p: nat)
  {
    p * 4096 < b.addr + b.size && b.addr < (p + 1) * 4096
  }

  ghost predicate Aligned(r: Region)
  {
    r.start < r.end && r.start % PAGE_SIZE == 0 && r.end % PAGE_SIZE == 0
  }

  /** Regions are aligned, not empty, in ascending order, and no two of them touch. */
  ghost predicate Gapped(rs: seq<Region>)
  {
    && (forall i {:trigger rs[i]} :: 0 <= i < |rs| ==> Aligned(rs[i]))
    && (forall i, j {:trigger rs[i], rs[j]} :: 0 <= i < j < |rs| ==> rs[i].end < rs[j].start)
  }

  ghost predicate Inside(r: Region, a: nat)
  {
    r.start <= a < r.end
  }

  ghost predicate Covers(rs: seq<Region>, a: nat)
  {
    exists i :: 0 <= i < |rs| && Inside(rs[i], a)
  }

  /** A region that starts at `start`, grown over all following regions that begin at or before `end`. */
  ghost function Absorb(start: nat, reach: nat, rest: seq<Region>, end: nat): seq<Region>
    decreases |rest|
  {
    if rest != [] && rest[0].start <= end then Absorb(start, rest[0].end, rest[1..], end)
    else [Region(start, if reach > end then reach else end)] + rest
  }

  /** Add `[start, end)` to a list, searching from its head. */
  ghost function Insert(rs: seq<Region>, start: nat, end: nat): seq<Region>
  {
    if rs == [] || end < rs[0].start then [Region(start, end)] + rs
    else if start <= rs[0].end then
      Absorb(if start < rs[0].start then start else rs[0].start, rs[0].end, rs[1..], end)
    else [rs[0]] + Insert(rs[1..], start, end)
  }

  lemma BlockPages(b: Block, p: nat)
    requires b.size > 0
    ensures Aligned(Region(First(b), Last(b)))
    ensures First(b) <= p * PAGE_SIZE < Last(b) <==> Touches(b, p)
  {
    hide PageDown;
  }

  lemma CoversCons(r: Region, rs: seq<Region>, a: nat)
    ensures Covers([r] + rs, a) <==> Inside(r, a) || Covers(rs, a)
  {
    if Inside(r, a) {
      assert Inside(([r] + rs)[0], a);
    }
    if i :| 0 <= i < |rs| && Inside(rs[i], a) {
      assert Inside(([r] + rs)[i + 1], a);
    }
  }

  lemma {:induction false} AbsorbStart(start: nat, reach: nat, rest: seq<Region>, end: nat)
    ensures Absorb(start, reach, rest, end) != [] && Absorb(start, reach, rest, end)[0].start == start
    decreases |rest|
  {
    if rest != [] && rest[0].start <= end {
      AbsorbStart(start, rest[0].end, rest[1..], end);
    }
  }

  lemma {:induction false} AbsorbIs(start: nat, reach: nat, rest: seq<Region>, end: nat, a: nat)
    requires Gapped([Region(start, reach)] + rest) && start < end && end % PAGE_SIZE == 0
    ensures Gapped(Absorb(start, reach, rest, end))
    ensures Covers(Absorb(start, reach, rest, end), a) <==>
      start <= a < reach || start <= a < end || Covers(rest, a)
    decreases |rest|
  {
    hide Covers, Gapped;
    GappedRest(Region(start, reach), rest);
    if rest != [] && rest[0].start <= end {
      GappedMerge(start, reach, rest);
      AbsorbIs(start, rest[0].end, rest[1..], end, a);
      CoversCons(rest[0], rest[1..], a);
      assert rest == [rest[0]] + rest[1..];
    } else {
      var r := Region(start, if reach > end then reach else end);
      CoversCons(r, rest, a);
      GappedCons(r, rest);
    }
  }

  lemma GappedRest(r: Region, rest: seq<Region>)
    requires Gapped([r] + rest)
    ensures Aligned(r) && Gapped(rest) && (rest != [] ==> r.end < rest[0].start && Aligned(rest[0]))
  {
    var whole := [r] + rest;
    assert whole[0] == r;
    assert forall i :: 0 <= i < |rest| ==> rest[i] == whole[i + 1];
  }

  lemma GappedMerge(start: nat, reach: nat, rest: seq<Region>)
    requires Gapped([Region(start, reach)] + rest) && rest != []
    ensures Gapped([Region(start, rest[0].end)] + rest[1..])
  {
    var whole, merged := [Region(start, reach)] + rest, [Region(start, rest[0].end)] + rest[1..];
    assert whole[0] == Region(start, reach) && whole[1] == rest[0];
    assert forall i :: 0 < i < |merged| ==> merged[i] == whole[i + 1];
  }

  /** Inserting keeps the list gapped and adds exactly the inserted addresses. */
  lemma {:induction false} InsertIs(rs: seq<Region>, start: nat, end: nat, a: nat)
    requires Gapped(rs) && Aligned(Region(start, end))
    ensures Gapped(Insert(rs, start, end))
    ensures Insert(rs, start, end) != []
    ensures Insert(rs, start, end)[0].start == if rs == [] || start < rs[0].start then start else rs[0].start
    ensures Covers(Insert(rs, start, end), a) <==> Covers(rs, a) || start <= a < end
  {
    hide Covers, Gapped;
    if rs == [] || end < rs[0].start {
      CoversCons(Region(start, end), rs, a);
      GappedCons(Region(start, end), rs);
    } else {
      var rest := rs[1..];
      assert rs == [rs[0]] + rest;
      GappedTail(rs);
      CoversCons(rs[0], rest, a);
      if start <= rs[0].end {
        var first := if start < rs[0].start then start else rs[0].start;
        GappedCons(Region(first, rs[0].end), rest);
        AbsorbIs(first, rs[0].end, rest, end, a);
        AbsorbStart(first, rs[0].end, rest, end);
      } else {
        InsertIs(rest, start, end, a);
        CoversCons(rs[0], Insert(rest, start, end), a);
        GappedCons(rs[0], Insert(rest, start, end));
      }
    }
  }

  lemma GappedCons(r: Region, rs: seq<Region>)
    requires Aligned(r) && Gapped(rs) && (rs == [] || r.end < rs[0].start)
    ensures Gapped([r] + rs)
  {
    var all := [r] + rs;
    assert forall i :: 0 < i < |all| ==> all[i] == rs[i - 1];
    assert forall i :: 0 <= i < |rs| ==> rs[0].start <= rs[i].start;
  }

  lemma GappedTail(rs: seq<Region>)
    requires Gapped(rs) && rs != []
    ensures Aligned(rs[0]) && Gapped(rs[1..]) && (rs[1..] == [] || rs[0].end < rs[1..][0].start)
  {
    assert forall i :: 0 <= i < |rs| - 1 ==> rs[1..][i] == rs[i + 1];
  }

  /** A set of addresses has at most one gapped list. */
  lemma {:induction false} Unique(rs: seq<Region>, ts: seq<Region>)
    requires Gapped(rs) && Gapped(ts) && forall a :: Covers(rs, a) <==> Covers(ts, a)
    ensures rs == ts
  {
    if rs == [] || ts == [] {
      if rs != [] {
        assert Inside(rs[0], rs[0].start);
        assert Covers(rs, rs[0].start);
      }
      if ts != [] {
        assert Inside(ts[0], ts[0].start);
        assert Covers(ts, ts[0].start);
      }
    } else {
      SameFirst(rs, ts);
      forall a
        ensures Covers(rs[1..], a) <==> Covers(ts[1..], a)
      {
        TailCovers(rs, a);
        TailCovers(ts, a);
      }
      Unique(rs[1..], ts[1..]);
      assert rs == [rs[0]] + rs[1..] && ts == [ts[0]] + ts[1..];
    }
  }

  lemma TailCovers(rs: seq<Region>, a: nat)
    requires Gapped(rs) && rs != []
    ensures Covers(rs[1..], a) <==> Covers(rs, a) && a > rs[0].end
  {
    if Covers(rs[1..], a) {
      var i :| 0 <= i < |rs[1..]| && Inside(rs[1..][i], a);
      assert rs[1..][i] == rs[i + 1];
    }
    if Covers(rs, a) && a > rs[0].end {
      var i :| 0 <= i < |rs| && Inside(rs[i], a);
      assert rs[1..][i - 1] == rs[i];
    }
  }

  lemma SameFirst(rs: seq<Region>, ts: seq<Region>)
    requires Gapped(rs) && Gapped(ts) && rs != [] && ts != []
    requires forall a :: Covers(rs, a) <==> Covers(ts, a)
    ensures rs[0] == ts[0]
  {
    FirstIsLeast(rs, ts);
    FirstIsLeast(ts, rs);
    FirstEndsLast(rs, ts);
    FirstEndsLast(ts, rs);
  }

  lemma FirstIsLeast(rs: seq<Region>, ts: seq<Region>)
    requires Gapped(rs) && Gapped(ts) && rs != [] && ts != []
    requires forall a :: Covers(rs, a) <==> Covers(ts, a)
    ensures ts[0].start <= rs[0].start
  {
    assert Inside(rs[0], rs[0].start);
    assert Covers(rs, rs[0].start);
    var i :| 0 <= i < |ts| && Inside(ts[i], rs[0].start);
    assert i > 0 ==> ts[0].end < ts[i].start;
  }

  lemma FirstEndsLast(rs: seq<Region>, ts: seq<Region>)
    requires Gapped(rs) && Gapped(ts) && rs != [] && ts != [] && rs[0].start == ts[0].start
    requires forall a :: Covers(rs, a) <==> Covers(ts, a)
    ensures rs[0].end <= ts[0].end
  {
    assert forall i :: 0 < i < |ts| ==> ts[0].end < ts[i].start;
    assert !Covers(ts, ts[0].end);
    assert !Inside(rs[0], ts[0].end);
  }

  /** Registering blocks one after the other. */
  ghost function InsertAll(rs: seq<Region>, blocks: seq<Block>): seq<Region>
    decreases |blocks|
  {
    if blocks == [] then rs else InsertAll(Insert(rs, First(blocks[0]), Last(blocks[0])), blocks[1..])
  }

  ghost predicate SomeTouches(blocks: seq<Block>, p: nat)
  {
    exists i :: 0 <= i < |blocks| && Touches(blocks[i], p)
  }

  ghost predicate NonEmpty(blocks: seq<Block>)
  {
    forall i :: 0 <= i < |blocks| ==> blocks[i].size > 0
  }

  lemma {:induction false} InsertAllIs(rs: seq<Region>, blocks: seq<Block>, a: nat)
    requires Gapped(rs) && NonEmpty(blocks)
    ensures Gapped(InsertAll(rs, blocks))
    ensures Covers(InsertAll(rs, blocks), a) <==> Covers(rs, a) || SomeTouches(blocks, a / PAGE_SIZE)
    decreases |blocks|
  {
    if blocks != [] {
      var b, p := blocks[0], a / PAGE_SIZE;
      BlockPages(b, p);
      InsertIs(rs, First(b), Last(b), a);
      InsertAllIs(Insert(rs, First(b), Last(b)), blocks[1..], a);
      WholePages(First(b), Last(b), a);
      if Touches(b, p) {
        assert Touches(blocks[0], p);
      }
      if i :| 0 <= i < |blocks[1..]| && Touches(blocks[1..][i], p) {
        assert Touches(blocks[i + 1], p);
      }
      if SomeTouches(blocks, p) {
        var i :| 0 <= i < |blocks| && Touches(blocks[i], p);
        assert i > 0 ==> blocks[1..][i - 1] == blocks[i];
      }
    }
  }

  lemma WholePages(start: nat, end: nat, a: nat)
    requires start % PAGE_SIZE == 0 && end % PAGE_SIZE == 0
    ensures start <= a < end <==> start <= a / PAGE_SIZE * PAGE_SIZE < end
  {
  }

  /** Registering in another order, or again, makes no difference: only the pages touched count. */
  lemma OrderIrrelevant(blocks: seq<Block>, others: seq<Block>)
    requires NonEmpty(blocks) && NonEmpty(others)
    requires forall p :: SomeTouches(blocks, p) <==> SomeTouches(others, p)
    ensures InsertAll([], blocks) == InsertAll([], others)
  {
    InsertAllIs([], blocks, 0);
    InsertAllIs([], others, 0);
    forall a
      ensures Covers(InsertAll([], blocks), a) <==> Covers(InsertAll([], others), a)
    {
      InsertAllIs([], blocks, a);
      InsertAllIs([], others, a);
    }
    Unique(InsertAll([], blocks), InsertAll([], others));
  }

  ghost function TotalSize(rs: seq<Region>): int
  {
    if rs == [] then 0 else rs[0].end - rs[0].start + TotalSize(rs[1..])
  }

  ghost function Range(lo: nat, hi: nat): (r: set<nat>)
    ensures forall p :: p in r <==> lo <= p < hi
    ensures lo <= hi ==> |r| == hi - lo
    decreases hi
  {
    if lo >= hi then {} else Range(lo, hi - 1) + {hi - 1}
  }

  ghost function PagesOf(rs: seq<Region>): set<nat>
  {
    if rs == [] then {} else Range(rs[0].start / PAGE_SIZE, rs[0].end / PAGE_SIZE) + PagesOf(rs[1..])
  }

  lemma PagesInside(r: Region)
    requires Aligned(r)
    ensures r.end - r.start == PAGE_SIZE * |Range(r.start / PAGE_SIZE, r.end / PAGE_SIZE)|
    ensures forall p: nat :: p in Range(r.start / PAGE_SIZE, r.end / PAGE_SIZE) <==> Inside(r, p * PAGE_SIZE)
  {
  }

  /** A gapped list's total size is 4096 times the number of pages it covers. */
  lemma {:induction false} SizeIsPages(rs: seq<Region>)
    requires Gapped(rs)
    ensures TotalSize(rs) == PAGE_SIZE * |PagesOf(rs)|
    ensures forall p: nat :: p in PagesOf(rs) <==> Covers(rs, p * PAGE_SIZE)
  {
    hide Gapped, Covers, Range;
    if rs != [] {
      var r, rest := rs[0], rs[1..];
      GappedTail(rs);
      var own := Range(r.start / PAGE_SIZE, r.end / PAGE_SIZE);
      SizeIsPages(rest);
      assert rs == [r] + rest;
      PagesInside(r);
      forall p: nat
        ensures p in PagesOf(rs) <==> Covers(rs, p * PAGE_SIZE)
        ensures p in PagesOf(rest) ==> p !in own
      {
        CoversCons(r, rest, p * PAGE_SIZE);
        TailCovers(rs, p * PAGE_SIZE);
      }
      assert own !! PagesOf(rest);
    } else {
      NothingCovered();
    }
  }

  /** The pages some block touches. */
  ghost function TouchedPages(blocks: seq<Block>): set<nat>
  {
    if blocks == [] then {}
    else Range(First(blocks[0]) / PAGE_SIZE, Last(blocks[0]) / PAGE_SIZE) + TouchedPages(blocks[1..])
  }

  lemma {:induction false} TouchedPagesAre(blocks: seq<Block>, p: nat)
    requires NonEmpty(blocks)
    ensures p in TouchedPages(blocks) <==> SomeTouches(blocks, p)
  {
    if blocks != [] {
      BlockPages(blocks[0], p);
      TouchedPagesAre(blocks[1..], p);
      if Touches(blocks[0], p) {
        assert SomeTouches(blocks, p);
      }
      if i :| 0 <= i < |blocks[1..]| && Touches(blocks[1..][i], p) {
        assert Touches(blocks[i + 1], p);
      }
      if SomeTouches(blocks, p) {
        var i :| 0 <= i < |blocks| && Touches(blocks[i], p);
        assert i > 0 ==> blocks[1..][i - 1] == blocks[i];
      }
    }
  }

  lemma NothingCovered()
    ensures Gapped([]) && forall a :: !Covers([], a)
  {
  }

  /** The size counted after registering any blocks is 4096 times the number of pages they touch. */
  lemma CountedSize(blocks: seq<Block>)
    requires NonEmpty(blocks)
    ensures Gapped(InsertAll([], blocks))
    ensures TotalSize(InsertAll([], blocks)) == PAGE_SIZE * |TouchedPages(blocks)|
  {
    hide InsertAll, Covers, PagesOf, TouchedPages, SomeTouches, TotalSize;
    var rs := InsertAll([], blocks);
    NothingCovered();
    InsertAllIs([], blocks, 0);
    SizeIsPages(rs);
    forall p: nat
      ensures p in PagesOf(rs) <==> p in TouchedPages(blocks)
    {
      InsertAllIs([], blocks, p * PAGE_SIZE);
      TouchedPagesAre(blocks, p);
    }
    assert PagesOf(rs) == TouchedPages(blocks);
  }

  // ----- The finger: where the next search may start -----

  datatype Finger = On(index: nat) | Dangling

  /** How many regions end before `start`: where the search for `start` stops. */
  ghost function Before(rs: seq<Region>, start: nat): (i: nat)
    ensures i <= |rs|
    ensures forall j :: 0 <= j < i ==> rs[j].end < start
    ensures i < |rs| ==> start <= rs[i].end
  {
    if rs == [] || start <= rs[0].end then 0 else 1 + Before(rs[1..], start)
  }

  /** How many leading regions begin at or before `end`. */
  ghost function Within(rs: seq<Region>, end: nat): (m: nat)
    ensures m <= |rs|
    ensures forall j :: 0 <= j < m ==> rs[j].start <= end
    ensures m < |rs| ==> end < rs[m].start
  {
    if rs == [] || rs[0].start > end then 0 else 1 + Within(rs[1..], end)
  }

  /** Where the finger is after a step that found it on region `f`. */
  ghost function FingerAfter(rs: seq<Region>, f: nat, start: nat, end: nat): Finger
  {
    var i := Before(rs, start);
    if rs == [] then On(0)
    else if i == |rs| then On(f)
    else if end < rs[i].start then On(i)
    else
      var m := Within(rs[i + 1..], end);
      if f <= i then On(f) else if f <= i + m then Dangling else On(f - m)
  }

  lemma FingerAfterMerge(rs: seq<Region>, f: nat, start: nat, end: nat)
    requires var i := Before(rs, start); i < |rs| && rs[i].start <= end
    ensures var i := Before(rs, start); var m := Within(rs[i + 1..], end);
      FingerAfter(rs, f, start, end) == if f <= i then On(f) else if f <= i + m then Dangling else On(f - m)
  {
    hide Before, Within;
  }

  /**
    A step leaves the finger on a freed region exactly when the block reaches both the finger's region
    and the one before it.
   */
  lemma FingerLostIff(rs: seq<Region>, f: nat, start: nat, end: nat)
    requires Gapped(rs) && f < |rs| && start < end
    ensures FingerAfter(rs, f, start, end) == Dangling <==> f > 0 && start <= rs[f - 1].end && rs[f].start <= end
  {
    var i := Before(rs, start);
    if i < |rs| && rs[i].start <= end {
      var rest := rs[i + 1..];
      var m := Within(rest, end);
      if f > i {
        assert rest[f - i - 1] == rs[f];
        if m < |rest| && f > i + m {
          assert rest[m] == rs[i + 1 + m];
        }
      }
    }
  }

  lemma {:induction false} AbsorbLength(start: nat, reach: nat, rest: seq<Region>, end: nat)
    ensures |Absorb(start, reach, rest, end)| == 1 + |rest| - Within(rest, end)
    decreases |rest|
  {
    if rest != [] && rest[0].start <= end {
      AbsorbLength(start, rest[0].end, rest[1..], end);
    }
  }

  /** A finger that is not lost is on a region of the new list. */
  lemma FingerOnList(rs: seq<Region>, f: nat, start: nat, end: nat)
    requires Gapped(rs) && start < end && (rs == [] || f < |rs|)
    ensures FingerAfter(rs, f, start, end).On? ==> FingerAfter(rs, f, start, end).index < |Insert(rs, start, end)|
  {
    hide Insert, Absorb, Gapped, Before, Within;
    InsertAt(rs, start, end);
    var i := Before(rs, start);
    if i < |rs| {
      AbsorbLength(if start < rs[i].start then start else rs[i].start, rs[i].end, rs[i + 1..], end);
    }
  }

  /** The part of a list the search passes over stays as it is. */
  lemma {:induction false} InsertSkips(rs: seq<Region>, i: nat, start: nat, end: nat)
    requires i <= |rs| && start < end && forall j :: 0 <= j < i ==> rs[j].start < rs[j].end < start
    ensures Insert(rs, start, end) == rs[..i] + Insert(rs[i..], start, end)
  {
    if i > 0 {
      InsertSkips(rs[1..], i - 1, start, end);
      assert rs[1..][i - 1..] == rs[i..];
      assert rs[..i] == [rs[0]] + rs[1..][..i - 1];
    }
  }

  /** Replace positions `i` up to but not including `j` by one region. */
  ghost function MergeRun(rs: seq<Region>, i: nat, j: nat, r: Region): (ts: seq<Region>)
    requires i < j <= |rs|
    ensures |ts| == |rs| - (j - i - 1)
    ensures forall k {:trigger ts[k]} :: 0 <= k < |ts| ==>
      ts[k] == if k < i then rs[k] else if k == i then r else rs[k - i - 1 + j]
  {
    rs[..i] + [r] + rs[j..]
  }

  lemma MergeRunIs(rs: seq<Region>, i: nat, j: nat, r: Region)
    requires i < j <= |rs|
    ensures MergeRun(rs, i, j, r) == rs[..i] + ([r] + rs[j..])
  {
  }

  /** Insertion in one step, from the place where the search stops. */
  lemma InsertAt(rs: seq<Region>, start: nat, end: nat)
    requires Gapped(rs) && start < end
    ensures var i := Before(rs, start);
      Insert(rs, start, end) ==
        if i == |rs| || end < rs[i].start then PutAt(rs, i, Region(start, end))
        else rs[..i] + Absorb(if start < rs[i].start then start else rs[i].start, rs[i].end, rs[i + 1..], end)
  {
    hide Gapped, Absorb, Insert, Before, PutAt;
    var i := Before(rs, start);
    InsertSkipsBefore(rs, start, end);
    PutAtIs(rs, i, Region(start, end));
    InsertNow(rs, i, start, end);
  }

  lemma PutAtIs(rs: seq<Region>, i: nat, r: Region)
    requires i <= |rs|
    ensures PutAt(rs, i, r) == rs[..i] + ([r] + rs[i..])
  {
  }

  /** The search stops at once. */
  lemma InsertNow(rs: seq<Region>, i: nat, start: nat, end: nat)
    requires i <= |rs| && (i < |rs| ==> start <= rs[i].end)
    ensures Insert(rs[i..], start, end) ==
      if i == |rs| || end < rs[i].start then [Region(start, end)] + rs[i..]
      else Absorb(if start < rs[i].start then start else rs[i].start, rs[i].end, rs[i + 1..], end)
  {
    assert i < |rs| ==> rs[i..][0] == rs[i] && rs[i..][1..] == rs[i + 1..];
  }

  lemma InsertSkipsBefore(rs: seq<Region>, start: nat, end: nat)
    requires Gapped(rs) && start < end
    ensures var i := Before(rs, start); Insert(rs, start, end) == rs[..i] + Insert(rs[i..], start, end)
  {
    hide Insert;
    InsertSkips(rs, Before(rs, start), start, end);
  }

  /** One round of the absorbing loop, at position `j`. */
  lemma AbsorbRound(rs: seq<Region>, start: nat, reach: nat, j: nat, end: nat)
    requires j <= |rs|
    ensures j < |rs| && rs[j].start <= end ==>
      && Absorb(start, reach, rs[j..], end) == Absorb(start, rs[j].end, rs[j + 1..], end)
      && Within(rs[j..], end) == 1 + Within(rs[j + 1..], end)
    ensures j == |rs| || rs[j].start > end ==>
      && Absorb(start, reach, rs[j..], end) == [Region(start, if reach > end then reach else end)] + rs[j..]
      && Within(rs[j..], end) == 0
  {
    if j < |rs| {
      assert rs[j..][0] == rs[j] && rs[j..][1..] == rs[j + 1..];
    }
  }

  /** The finger is on a live region whenever a step consults it. */
  ghost predicate FingerSafe(rs: seq<Region>, finger: Finger, blocks: seq<Block>)
    decreases |blocks|
  {
    blocks == [] ||
    var start, end := First(blocks[0]), Last(blocks[0]);
    && (rs == [] || finger.On?)
    && FingerSafe(Insert(rs, start, end),
                  FingerAfter(rs, if finger.On? then finger.index else 0, start, end), blocks[1..])
  }

  /** A block reaches both region `f` and the one before it. */
  ghost predicate Bridges(rs: seq<Region>, f: nat, b: Block)
  {
    0 < f < |rs| && First(b) <= rs[f - 1].end && rs[f].start <= Last(b)
  }

  /** Before the last block, no block bridges the gap in front of the finger's region. */
  ghost predicate NeverBridged(rs: seq<Region>, f: nat, blocks: seq<Block>)
    decreases |blocks|
  {
    |blocks| <= 1 ||
    var start, end := First(blocks[0]), Last(blocks[0]);
    var next := FingerAfter(rs, f, start, end);
    !Bridges(rs, f, blocks[0]) && NeverBridged(Insert(rs, start, end), if next.On? then next.index else 0, blocks[1..])
  }

  /** A run is safe exactly when no block but the last bridges the gap in front of the finger's region. */
  lemma {:induction false} SafeIffNeverBridged(rs: seq<Region>, finger: Finger, blocks: seq<Block>)
    requires Gapped(rs) && NonEmpty(blocks) && (rs == [] || (finger.On? && finger.index < |rs|))
    ensures FingerSafe(rs, finger, blocks) <==> NeverBridged(rs, if finger.On? then finger.index else 0, blocks)
    decreases |blocks|
  {
    if blocks != [] {
      var f := if finger.On? then finger.index else 0;
      var start, end := First(blocks[0]), Last(blocks[0]);
      BlockPages(blocks[0], 0);
      InsertIs(rs, start, end, 0);
      FingerOnList(rs, f, start, end);
      if rs != [] {
        FingerLostIff(rs, f, start, end);
      }
      if FingerAfter(rs, f, start, end).On? {
        SafeIffNeverBridged(Insert(rs, start, end), FingerAfter(rs, f, start, end), blocks[1..]);
      }
    }
  }

  const TABLE_SIZE := 416963
  const PTR_OFFSET := 16

  /** The bucket of the table of live blocks in which the block of a plain `malloc` is found. */
  function Bucket(b: Block): nat
  {
    (b.addr + PTR_OFFSET) % TABLE_SIZE
  }

  ghost predicate Disjoint(blocks: seq<Block>)
  {
    forall i, j :: 0 <= i < j < |blocks| ==>
      blocks[i].addr + blocks[i].size <= blocks[j].addr || blocks[j].addr + blocks[j].size <= blocks[i].addr
  }

  /** No two blocks share a bucket, and a walk along the buckets meets the blocks in this order. */
  ghost predicate InBucketOrder(blocks: seq<Block>)
  {
    forall i, j :: 0 <= i < j < |blocks| ==> Bucket(blocks[i]) < Bucket(blocks[j])
  }

  /** Five live blocks. The fourth lies between the first and the third and touches both their regions. */
  const LOW := Block(0xcb980, 4000)
  const HIGH := Block(0x1fd270, 64)
  const MIDDLE := Block(0x131a20, 64)
  const BRIDGE := Block(0xcd8c0, 409888)
  const AFTER := Block(0x134a20, 64)
  const LOST_RUN := [LOW] + ([HIGH] + ([MIDDLE] + ([BRIDGE] + [AFTER])))

  /** One more live block, above the others' lost region and later in the walk. */
  const SIXTH := Block(0x140000, 64)

  lemma SixthBounds()
    ensures First(SIXTH) == 0x140000 && Last(SIXTH) == 0x141000
    ensures Disjoint(LOST_RUN + [SIXTH]) && NonEmpty(LOST_RUN + [SIXTH]) && InBucketOrder(LOST_RUN + [SIXTH])
  {
    var run := [LOW, HIGH, MIDDLE, BRIDGE, AFTER, SIXTH];
    assert LOST_RUN + [SIXTH] == run;
    assert Bucket(LOW) == 10 && Bucket(HIGH) == 689 && Bucket(MIDDLE) == 999;
    assert Bucket(BRIDGE) == 8010 && Bucket(AFTER) == 13287 && Bucket(SIXTH) == 59847;
  }

  lemma LostRunBounds()
    ensures First(LOW) == 0xcb000 && Last(LOW) == 0xcd000
    ensures First(HIGH) == 0x1fd000 && Last(HIGH) == 0x1fe000
    ensures First(MIDDLE) == 0x131000 && Last(MIDDLE) == 0x132000
    ensures First(BRIDGE) == 0xcd000 && Last(BRIDGE) == 0x132000
    ensures First(AFTER) == 0x134000 && Last(AFTER) == 0x135000
  {
    hide PageDown;
  }

  lemma UnsafeEarlier(rs: seq<Region>, finger: Finger, b: Block, rest: seq<Block>)
    requires var f := if finger.On? then finger.index else 0;
      !FingerSafe(Insert(rs, First(b), Last(b)), FingerAfter(rs, f, First(b), Last(b)), rest)
    ensures !FingerSafe(rs, finger, [b] + rest)
  {
    assert ([b] + rest)[0] == b && ([b] + rest)[1..] == rest;
  }

  /** Inserting past the last region, and between two regions. */
  lemma SmallInserts(a: Region, c: Region, start: nat, end: nat)
    requires Aligned(a) && Aligned(c) && a.end < start < end
    ensures Insert([a], start, end) == [a, Region(start, end)] && FingerAfter([a], 0, start, end) == On(0)
    ensures end < c.start ==>
      Insert([a, c], start, end) == [a, Region(start, end), c] && FingerAfter([a, c], 0, start, end) == On(1)
  {
    assert [a][1..] == [] && [a, c][1..] == [c];
  }

  /**
    Not every run is safe, even if the blocks are disjoint and come in the order of the table walk: the
    step for `AFTER` consults a freed region.
   */
  lemma FingerCanDangle()
    ensures Disjoint(LOST_RUN) && NonEmpty(LOST_RUN) && InBucketOrder(LOST_RUN)
    ensures !FingerSafe([], Dangling, LOST_RUN)
  {
    LostRunBounds();
    LostRunOrder();
    var low, high, middle := Region(0xcb000, 0xcd000), Region(0x1fd000, 0x1fe000), Region(0x131000, 0x132000);
    SmallInserts(low, high, 0x1fd000, 0x1fe000);
    SmallInserts(low, high, 0x131000, 0x132000);
    assert Gapped([low, middle, high]);
    FingerLostIff([low, middle, high], 1, 0xcd000, 0x132000);
    InsertIs([low, middle, high], 0xcd000, 0x132000, 0);
    FirstInsert(0xcb000, 0xcd000);
    hide Insert, FingerAfter, First, Last;
    UnsafeEarlier([low, middle, high], On(1), BRIDGE, [AFTER]);
    UnsafeEarlier([low, high], On(0), MIDDLE, [BRIDGE] + [AFTER]);
    UnsafeEarlier([low], On(0), HIGH, [MIDDLE] + ([BRIDGE] + [AFTER]));
    UnsafeEarlier([], Dangling, LOW, [HIGH] + ([MIDDLE] + ([BRIDGE] + [AFTER])));
  }

  /** The regions that registering the five blocks ought to give. */
  lemma LostRegions()
    ensures InsertAll([], LOST_RUN) ==
      [Region(0xcb000, 0x132000), Region(0x134000, 0x135000), Region(0x1fd000, 0x1fe000)]
  {
    LostRunBounds();
    hide First, Last;
    var low, high, middle := Region(0xcb000, 0xcd000), Region(0x1fd000, 0x1fe000), Region(0x131000, 0x132000);
    var merged, after := Region(0xcb000, 0x132000), Region(0x134000, 0x135000);
    FirstInsert(0xcb000, 0xcd000);
    SmallInserts(low, high, 0x1fd000, 0x1fe000);
    SmallInserts(low, high, 0x131000, 0x132000);
    SmallInserts(merged, high, 0x134000, 0x135000);
    assert Insert([low, middle, high], 0xcd000, 0x132000) == [merged, high] by {
      assert [low, middle, high][1..] == [middle, high] && [middle, high][1..] == [high];
      assert Absorb(0xcb000, 0x132000, [high], 0x132000) == [merged, high];
    }
    hide Insert;
    AllStep([], LOW, [HIGH] + ([MIDDLE] + ([BRIDGE] + [AFTER])));
    AllStep([low], HIGH, [MIDDLE] + ([BRIDGE] + [AFTER]));
    AllStep([low, high], MIDDLE, [BRIDGE] + [AFTER]);
    AllStep([low, middle, high], BRIDGE, [AFTER]);
    AllStep([merged, high], AFTER, []);
    assert [AFTER] + [] == [AFTER];
  }

  lemma AllStep(rs: seq<Region>, b: Block, rest: seq<Block>)
    ensures InsertAll(rs, [b] + rest) == InsertAll(Insert(rs, First(b), Last(b)), rest)
  {
    assert ([b] + rest)[0] == b && ([b] + rest)[1..] == rest;
  }

  lemma LostRunOrder()
    ensures Disjoint(LOST_RUN) && NonEmpty(LOST_RUN) && InBucketOrder(LOST_RUN)
  {
    var run := [LOW, HIGH, MIDDLE, BRIDGE, AFTER];
    assert LOST_RUN == run;
    assert Bucket(LOW) == 10 && Bucket(HIGH) == 689 && Bucket(MIDDLE) == 999;
    assert Bucket(BRIDGE) == 8010 && Bucket(AFTER) == 13287;
  }

  lemma FirstInsert(start: nat, end: nat)
    ensures Insert([], start, end) == [Region(start, end)] && FingerAfter([], 0, start, end) == On(0)
  {
  }

  ghost predicate StartBy(rs: seq<Region>, limit: nat)
  {
    forall i :: 0 <= i < |rs| ==> rs[i].start <= limit
  }

  lemma {:induction false} InsertStarts(rs: seq<Region>, start: nat, end: nat)
    requires Gapped(rs) && StartBy(rs, start) && start < end
    ensures StartBy(Insert(rs, start, end), start)
    ensures FingerAfter(rs, 0, start, end) == On(0)
  {
    if rs != [] {
      assert rs[0].start <= start;
      if start <= rs[0].end {
        assert rs[|rs| - 1].start <= start;
      } else {
        InsertStarts(rs[1..], start, end);
      }
    }
  }

  /** Runs in order of address are safe: the finger stays on the first region. */
  lemma {:induction false} AscendingRunIsSafe(rs: seq<Region>, finger: Finger, blocks: seq<Block>)
    requires Gapped(rs) && NonEmpty(blocks) && (rs == [] || finger == On(0))
    requires blocks != [] ==> StartBy(rs, First(blocks[0]))
    requires forall i, j :: 0 <= i < j < |blocks| ==> blocks[i].addr <= blocks[j].addr
    ensures FingerSafe(rs, finger, blocks)
    decreases |blocks|
  {
    if blocks != [] {
      var start, end := First(blocks[0]), Last(blocks[0]);
      BlockPages(blocks[0], 0);
      InsertStarts(rs, start, end);
      InsertIs(rs, start, end, 0);
      var next := Insert(rs, start, end);
      if |blocks| > 1 {
        DownMonotone(blocks[0].addr, blocks[1].addr);
        assert StartBy(next, First(blocks[1..][0])) by {
          assert First(blocks[1..][0]) >= start;
        }
      }
      AscendingRunIsSafe(next, On(0), blocks[1..]);
    }
  }

  lemma DownMonotone(a: nat, b: nat)
    requires a <= b
    ensures PageDown(a) <= PageDown(b)
  {
  }
}

/** How much virtual memory the live blocks take up (memchk_virtmem.c). */
module HeapUsage {
  import opened Blocks
  import opened Chains
  import opened PtrHashtable
  import opened Copies
  import opened Buffers
  import opened Registry
  import opened PageRegions
  import opened VmAreas
  import opened PageIndex
  import PageMemory

  // ----- The order in which a walk meets the blocks -----

  ghost function BlockOf(n: BlockNode): Block
  {
    Block(n.memblk.buf, n.memblk.bufsize)
  }

  ghost function RowBlocks(s: seq<BlockNode>): (r: seq<Block>)
    ensures |r| == |s| && forall i {:trigger r[i]} :: 0 <= i < |s| ==> r[i] == BlockOf(s[i])
  {
    if s == [] then [] else [BlockOf(s[0])] + RowBlocks(s[1..])
  }

  /** What a bucket-by-bucket walk that stands at position `k` of chain `b` has still to meet. */
  ghost function Ahead(chains: seq<seq<BlockNode>>, b: nat, k: nat): seq<Block>
    requires b <= |chains| && (b < |chains| ==> k <= |chains[b]|)
    decreases |chains| - b
  {
    if b == |chains| then [] else RowBlocks(chains[b][k..]) + Ahead(chains, b + 1, 0)
  }

  ghost function RowBack(s: seq<BlockNode>): (r: seq<Block>)
    ensures |r| == |s| && forall i {:trigger r[i]} :: 0 <= i < |s| ==> r[i] == BlockOf(s[|s| - 1 - i])
  {
    if s == [] then [] else RowBack(s[1..]) + [BlockOf(s[0])]
  }

  /** What a walk along a copy of the table meets, from bucket `b` on: copying turns every chain around. */
  ghost function CopyOrder(chains: seq<seq<BlockNode>>, b: nat): seq<Block>
    requires b <= |chains|
    decreases |chains| - b
  {
    if b == |chains| then [] else RowBack(chains[b]) + CopyOrder(chains, b + 1)
  }

  lemma {:induction false} CopyIsWalked(copy: seq<seq<BlockNode>>, chains: seq<seq<BlockNode>>, b: nat)
    requires b <= |chains| == |copy| && Mirrored(copy, chains, |chains|, 0)
    ensures Ahead(copy, b, 0) == CopyOrder(chains, b)
    decreases |chains| - b
  {
    hide Mirrored, Ahead, CopyOrder, RowBlocks, RowBack;
    if b < |chains| {
      CopyIsWalked(copy, chains, b + 1);
      RowIsReversed(copy, chains, b);
      AheadOpen(copy, b);
      OrderStep(chains, b);
    } else {
      OrderEnds(chains);
      AheadEnds(copy);
    }
  }

  lemma AheadOpen(chains: seq<seq<BlockNode>>, b: nat)
    requires b < |chains|
    ensures Ahead(chains, b, 0) == RowBlocks(chains[b][0..]) + Ahead(chains, b + 1, 0)
  {
  }

  lemma AheadEnds(chains: seq<seq<BlockNode>>)
    ensures Ahead(chains, |chains|, 0) == []
  {
  }

  lemma SameLength(copy: seq<seq<BlockNode>>, chains: seq<seq<BlockNode>>)
    requires Mirrored(copy, chains, |chains|, 0)
    ensures |copy| == |chains|
  {
  }

  lemma RowIsReversed(copy: seq<seq<BlockNode>>, chains: seq<seq<BlockNode>>, b: nat)
    requires b < |chains| && Mirrored(copy, chains, |chains|, 0)
    ensures |copy| == |chains| && RowBlocks(copy[b][0..]) == RowBack(chains[b])
  {
    hide RowBlocks, RowBack;
    assert copy[b][0..] == copy[b];
  }

  lemma AheadStep(chains: seq<seq<BlockNode>>, b: nat, k: nat)
    requires b < |chains| && k < |chains[b]|
    ensures Ahead(chains, b, k) == [BlockOf(chains[b][k])] + Ahead(chains, b, k + 1)
  {
    var row := chains[b][k..];
    assert row[0] == chains[b][k] && row[1..] == chains[b][k + 1..];
  }

  lemma AheadRow(chains: seq<seq<BlockNode>>, b: nat)
    requires b < |chains|
    ensures Ahead(chains, b, |chains[b]|) == Ahead(chains, b + 1, 0)
  {
    assert chains[b][|chains[b]|..] == [];
  }

  lemma OrderStep(chains: seq<seq<BlockNode>>, b: nat)
    requires b < |chains|
    ensures CopyOrder(chains, b) == RowBack(chains[b]) + CopyOrder(chains, b + 1)
  {
  }

  lemma OrderEnds(chains: seq<seq<BlockNode>>)
    ensures CopyOrder(chains, |chains|) == []
  {
  }

  ghost predicate InRow(row: seq<BlockNode>, x: Block)
  {
    exists i :: 0 <= i < |row| && x == BlockOf(row[i])
  }

  lemma RowHolds(row: seq<BlockNode>, x: Block)
    ensures x in RowBack(row) <==> InRow(row, x)
  {
    hide RowBack;
    if x in RowBack(row) {
      var j :| 0 <= j < |row| && RowBack(row)[j] == x;
      assert x == BlockOf(row[|row| - 1 - j]);
    }
    if i :| 0 <= i < |row| && x == BlockOf(row[i]) {
      assert RowBack(row)[|row| - 1 - i] == x;
    }
  }

  /** The order contains exactly the blocks of the table. */
  lemma {:induction false} OrderHolds(chains: seq<seq<BlockNode>>, b: nat, x: Block)
    requires b <= |chains|
    ensures x in CopyOrder(chains, b) <==> exists c :: b <= c < |chains| && InRow(chains[c], x)
    decreases |chains| - b
  {
    hide RowBack, CopyOrder, InRow;
    if b < |chains| {
      OrderStep(chains, b);
      RowHolds(chains[b], x);
      OrderHolds(chains, b + 1, x);
    } else {
      OrderEnds(chains);
    }
  }

  // ----- The pages of the live blocks -----

  /** The pages that some block of the table touches. */
  ghost function LivePages(nodes: set<BlockNode>): set<nat>
  {
    set n, p | n in nodes && p in Range(First(BlockOf(n)) / PAGE_SIZE, Last(BlockOf(n)) / PAGE_SIZE) :: p
  }

  lemma LivePagesAre(nodes: set<BlockNode>, p: nat)
    requires forall n :: n in nodes ==> n.memblk.bufsize > 0
    ensures p in LivePages(nodes) <==>
      exists n :: n in nodes && p * 4096 < n.memblk.buf + n.memblk.bufsize && n.memblk.buf < (p + 1) * 4096
  {
    forall n | n in nodes
      ensures p in Range(First(BlockOf(n)) / PAGE_SIZE, Last(BlockOf(n)) / PAGE_SIZE) <==> Touches(BlockOf(n), p)
    {
      BlockPages(BlockOf(n), p);
    }
  }

  lemma OrderOfTable(chains: seq<seq<BlockNode>>, nodes: set<BlockNode>, x: Block)
    requires Chains.Holds(chains, nodes)
    ensures x in CopyOrder(chains, 0) <==> exists n :: n in nodes && x == BlockOf(n)
  {
    OrderHolds(chains, 0, x);
    if n :| n in nodes && x == BlockOf(n) {
      InRows(chains, |chains|, n);
      var c :| 0 <= c < |chains| && n in chains[c];
      assert InRow(chains[c], x);
    }
    if c :| 0 <= c < |chains| && InRow(chains[c], x) {
      var i :| 0 <= i < |chains[c]| && x == BlockOf(chains[c][i]);
      InRows(chains, |chains|, chains[c][i]);
    }
  }

  /** The pages touched by the blocks met are those of the live blocks. */
  lemma OrderPages(chains: seq<seq<BlockNode>>, nodes: set<BlockNode>, limit: nat)
    requires Chains.Holds(chains, nodes) && Held(nodes, limit)
    ensures NonEmpty(CopyOrder(chains, 0)) && TouchedPages(CopyOrder(chains, 0)) == LivePages(nodes)
  {
    hide Chains.Holds, CopyOrder, TouchedPages, LivePages;
    var order := CopyOrder(chains, 0);
    forall i | 0 <= i < |order|
      ensures order[i].size > 0
    {
      OrderOfTable(chains, nodes, order[i]);
    }
    forall p: nat
      ensures p in TouchedPages(order) <==> p in LivePages(nodes)
    {
      TouchedPagesAre(order, p);
      LivePagesAre(nodes, p);
      if i :| 0 <= i < |order| && Touches(order[i], p) {
        OrderOfTable(chains, nodes, order[i]);
      }
      if n :| n in nodes && Touches(BlockOf(n), p) {
        OrderOfTable(chains, nodes, BlockOf(n));
      }
    }
  }

  /** On raw memory too, the pages of the live blocks are counted, unless a lost finger does harm on the walk. */
  lemma CountedUnlessHarmed(chains: seq<seq<BlockNode>>, nodes: set<BlockNode>, limit: nat, rounds: nat)
    requires Chains.Holds(chains, nodes) && Held(nodes, limit) && rounds >= |CopyOrder(chains, 0)|
    requires PageMemory.Harmless([], PageMemory.OnList(0), CopyOrder(chains, 0))
    ensures var r := PageMemory.RegisterAllIn(PageMemory.EMPTY, CopyOrder(chains, 0), rounds);
      && r.Done?
      && PageMemory.SizeIn(r.value, r.value.first, rounds) == PageMemory.Done(PAGE_SIZE * |LivePages(nodes)|)
  {
    OrderPages(chains, nodes, limit);
    PageMemory.SizeUnlessHarmed(CopyOrder(chains, 0), rounds);
  }

  // ----- Runs that occur -----

  /** Blocks of a table whose buffers are held do not overlap, in the order in which a copy is walked either. */
  lemma {:induction false} OrderDisjoint(chains: seq<seq<BlockNode>>, nodes: set<BlockNode>, limit: nat, b: nat)
    requires Chains.Holds(chains, nodes) && Held(nodes, limit) && b <= |chains|
    ensures Disjoint(CopyOrder(chains, b))
    decreases |chains| - b
  {
    hide Disjoint, Held, Chains.Holds;
    if b < |chains| {
      OrderDisjoint(chains, nodes, limit, b + 1);
      RowDisjoint(chains, nodes, limit, b);
      RowsDisjoint(chains, nodes, limit, b);
      DisjointAppend(RowBack(chains[b]), CopyOrder(chains, b + 1));
    } else {
      DisjointNone();
    }
  }

  lemma DisjointNone()
    ensures Disjoint([])
  {
  }

  lemma DisjointAppend(a: seq<Block>, b: seq<Block>)
    requires Disjoint(a) && Disjoint(b) && forall x, y :: x in a && y in b ==> BlocksApart(x, y)
    ensures Disjoint(a + b)
  {
    var s := a + b;
    forall i, j | 0 <= i < j < |s|
      ensures BlocksApart(s[i], s[j])
    {
      if i < |a| <= j {
        assert s[i] in a && s[j] in b;
      }
    }
  }

  /** Two blocks at different places of the chains do not overlap. */
  lemma PlacesApart(chains: seq<seq<BlockNode>>, nodes: set<BlockNode>, limit: nat, b: nat, i: nat, c: nat, j: nat)
    requires Chains.Holds(chains, nodes) && Held(nodes, limit)
    requires b < |chains| && i < |chains[b]| && c < |chains| && j < |chains[c]| && (b != c || i != j)
    ensures BlocksApart(BlockOf(chains[b][i]), BlockOf(chains[c][j]))
  {
    InRows(chains, |chains|, chains[b][i]);
    InRows(chains, |chains|, chains[c][j]);
    hide Held;
    HeldApart(nodes, limit, chains[b][i], chains[c][j]);
  }

  lemma RowDisjoint(chains: seq<seq<BlockNode>>, nodes: set<BlockNode>, limit: nat, b: nat)
    requires Chains.Holds(chains, nodes) && Held(nodes, limit) && b < |chains|
    ensures Disjoint(RowBack(chains[b]))
  {
    hide Held, Chains.Holds, RowBack;
    var row := RowBack(chains[b]);
    forall i, j | 0 <= i < j < |row|
      ensures BlocksApart(row[i], row[j])
    {
      PlacesApart(chains, nodes, limit, b, |row| - 1 - i, b, |row| - 1 - j);
    }
  }

  lemma RowsDisjoint(chains: seq<seq<BlockNode>>, nodes: set<BlockNode>, limit: nat, b: nat)
    requires Chains.Holds(chains, nodes) && Held(nodes, limit) && b < |chains|
    ensures forall x, y :: x in RowBack(chains[b]) && y in CopyOrder(chains, b + 1) ==> BlocksApart(x, y)
  {
    hide Held, Chains.Holds, RowBack, CopyOrder;
    var row := RowBack(chains[b]);
    forall x, y | x in row && y in CopyOrder(chains, b + 1)
      ensures BlocksApart(x, y)
    {
      var i :| 0 <= i < |row| && row[i] == x;
      OrderHolds(chains, b + 1, y);
      var c :| b + 1 <= c < |chains| && InRow(chains[c], y);
      var j :| 0 <= j < |chains[c]| && y == BlockOf(chains[c][j]);
      PlacesApart(chains, nodes, limit, b, |row| - 1 - i, c, j);
    }
  }

  ghost predicate BlocksApart(a: Block, b: Block)
  {
    a.addr + a.size <= b.addr || b.addr + b.size <= a.addr
  }

  lemma HeldApart(nodes: set<BlockNode>, limit: nat, n: BlockNode, m: BlockNode)
    requires Held(nodes, limit) && n in nodes && m in nodes && n != m
    ensures BlocksApart(BlockOf(n), BlockOf(m))
  {
  }

  lemma {:induction false} EmptyRows(chains: seq<seq<BlockNode>>, b: nat, c: nat)
    requires b <= c <= |chains| && forall i :: b <= i < c ==> chains[i] == []
    ensures CopyOrder(chains, b) == CopyOrder(chains, c)
    decreases c - b
  {
    hide RowBack, CopyOrder;
    if b < c {
      OrderStep(chains, b);
      EmptyRows(chains, b + 1, c);
      assert RowBack(chains[b]) == [];
    }
  }

  /** The record of a plain block at this address and of this size, red zones included. */
  function PlainRecord(b: Block): Memblk
    requires b.size >= 2 * REDZONE_SIZE
  {
    PlainBlock(b.addr, b.size - 2 * REDZONE_SIZE)
  }

  /** Five blocks, and a sixth that may be there or not. */
  datatype Few = Few(low: BlockNode, high: BlockNode, middle: BlockNode, bridge: BlockNode, after: BlockNode,
                     extra: seq<BlockNode>)

  /** The chains of a table of live blocks that holds just these. */
  ghost function LostChains(w: Few): (c: seq<seq<BlockNode>>)
    ensures |c| == TABLE_SIZE
    ensures forall i {:trigger c[i]} :: 0 <= i < TABLE_SIZE ==>
      c[i] == if i == 10 then [w.low] else if i == 689 then [w.high] else if i == 999 then [w.middle]
              else if i == 8010 then [w.bridge] else if i == 13287 then [w.after]
              else if i == 59847 then w.extra else []
  {
    seq(TABLE_SIZE, i =>
      if i == 10 then [w.low] else if i == 689 then [w.high] else if i == 999 then [w.middle]
      else if i == 8010 then [w.bridge] else if i == 13287 then [w.after] else if i == 59847 then w.extra else [])
  }

  ghost function NodesOf(w: Few): set<BlockNode>
  {
    {w.low, w.high, w.middle, w.bridge, w.after} + Elements(w.extra)
  }

  ghost predicate PlainFew(w: Few)
  {
    && w.low.memblk == PlainRecord(LOW) && w.high.memblk == PlainRecord(HIGH) && w.middle.memblk == PlainRecord(MIDDLE)
    && w.bridge.memblk == PlainRecord(BRIDGE) && w.after.memblk == PlainRecord(AFTER)
    && (w.extra == [] || (|w.extra| == 1 && w.extra[0].memblk == PlainRecord(SIXTH)))
  }

  /**
    The lost run occurs: five plain blocks, side by side in a table of the code's size, give it. With a
    sixth block in the table the walk registers that one too, which never ends.
   */
  lemma LostRunOccurs(w: Few)
    requires PlainFew(w)
    ensures var chains, nodes := LostChains(w), NodesOf(w);
      && Shape(TABLE_SIZE, chains, nodes) && NoSharedPtr(nodes) && Held(nodes, 0x200000)
      && (w.extra == [] ==> CopyOrder(chains, 0) == LOST_RUN && !NeverBridged([], 0, CopyOrder(chains, 0)))
      && (w.extra != [] ==>
            forall rounds: nat ::
              PageMemory.RegisterAllIn(PageMemory.EMPTY, CopyOrder(chains, 0), rounds) == PageMemory.Running)
  {
    hide LostChains, NeverBridged, Shape, Held, PlainFew, CopyOrder, NodesOf, NoSharedPtr, PageMemory.RegisterAllIn;
    LostHeld(w);
    LostShape(w);
    LostOrder(w);
    FingerCanDangle();
    NothingCovered();
    SafeIffNeverBridged([], Dangling, LOST_RUN);
    forall rounds: nat
      ensures PageMemory.RegisterAllIn(PageMemory.EMPTY, LOST_RUN + [SIXTH], rounds) == PageMemory.Running
    {
      PageMemory.SixNeverEnd(rounds);
    }
  }

  lemma LostHeld(w: Few)
    requires PlainFew(w)
    ensures Held(NodesOf(w), 0x200000) && NoSharedPtr(NodesOf(w))
  {
    hide Elements;
    if w.extra == [] {
      NoElement(w.extra);
    } else {
      OneElement(w.extra);
    }
  }

  lemma OneElement(s: seq<BlockNode>)
    requires |s| == 1
    ensures Elements(s) == {s[0]}
  {
  }

  lemma NoElement(s: seq<BlockNode>)
    requires s == []
    ensures Elements(s) == {}
  {
  }

  lemma LostShape(w: Few)
    requires PlainFew(w)
    ensures Shape(TABLE_SIZE, LostChains(w), NodesOf(w))
  {
    hide LostChains, PtrHash;
    var chains := LostChains(w);
    LostHashes();
    assert w.low in chains[10] && w.high in chains[689] && w.middle in chains[999];
    assert w.bridge in chains[8010] && w.after in chains[13287];
  }

  lemma LostHashes()
    ensures PtrHash(PlainRecord(LOW).ptr, TABLE_SIZE) == 10 && PtrHash(PlainRecord(HIGH).ptr, TABLE_SIZE) == 689
    ensures PtrHash(PlainRecord(MIDDLE).ptr, TABLE_SIZE) == 999
    ensures PtrHash(PlainRecord(BRIDGE).ptr, TABLE_SIZE) == 8010
    ensures PtrHash(PlainRecord(AFTER).ptr, TABLE_SIZE) == 13287
    ensures PtrHash(PlainRecord(SIXTH).ptr, TABLE_SIZE) == 59847
  {
  }

  lemma LostOrder(w: Few)
    requires PlainFew(w)
    ensures CopyOrder(LostChains(w), 0) == LOST_RUN + if w.extra == [] then [] else [SIXTH]
  {
    hide LostChains, CopyOrder, RowBack;
    var chains := LostChains(w);
    OrderEnds(chains);
    EmptyRows(chains, 0, 10);
    OneRow(chains, 10, w.low, 689);
    OneRow(chains, 689, w.high, 999);
    OneRow(chains, 999, w.middle, 8010);
    OneRow(chains, 8010, w.bridge, 13287);
    OneRow(chains, 13287, w.after, 59847);
    if w.extra == [] {
      EmptyRows(chains, 59847, TABLE_SIZE);
    } else {
      OneRow(chains, 59847, w.extra[0], TABLE_SIZE);
    }
  }

  lemma OneRow(chains: seq<seq<BlockNode>>, b: nat, n: BlockNode, next: nat)
    requires b < next <= |chains| && chains[b] == [n] && forall i :: b < i < next ==> chains[i] == []
    ensures CopyOrder(chains, b) == [BlockOf(n)] + CopyOrder(chains, next)
  {
    hide RowBack, CopyOrder;
    OrderStep(chains, b);
    EmptyRows(chains, b + 1, next);
    assert RowBack([n]) == [BlockOf(n)];
  }

  // ----- The command -----

  /** Half-way through registering `all`: what is `ahead` has still to come, and the finger can be used. */
  ghost predicate Underway(index: Index, finger: Finger, all: seq<Block>, ahead: seq<Block>)
    reads index, index.head, index.nodes
  {
    && index.Valid() && (index.nodes == [] || finger == Dangling || index.FingerIs(finger))
    && NonEmpty(ahead) && FingerSafe(index.regions, finger, ahead)
    && InsertAll(index.regions, ahead) == InsertAll([], all)
  }

  method RegisterNext(index: Index, n: BlockNode, ghost finger: Finger, ghost all: seq<Block>, ghost rest: seq<Block>)
    returns (ghost finger': Finger)
    requires Underway(index, finger, all, [BlockOf(n)] + rest)
    modifies index, index.head`next, index.nodes
    ensures Underway(index, finger', all, rest) && fresh(set r | r in index.nodes && r !in old(index.nodes))
  {
    hide Index.Valid, Gapped, Insert, FingerAfter;
    ghost var blocks := [BlockOf(n)] + rest;
    assert blocks[0] == BlockOf(n) && blocks[1..] == rest;
    ghost var f := if finger.On? then finger.index else 0;
    finger' := FingerAfter(index.regions, f, First(blocks[0]), Last(blocks[0]));
    index.Shape();
    index.RegisterBlock(Block(n.memblk.buf, n.memblk.bufsize), f);
  }

  /** Register every block of the copied table, along the buckets. */
  method RegisterTable(index: Index, copy: PtrTable)
    requires copy.Valid() && index.Valid() && index.nodes == [] && index.regions == []
    requires NonEmpty(Ahead(copy.chains, 0, 0)) && FingerSafe([], Dangling, Ahead(copy.chains, 0, 0))
    modifies index, index.head`next
    ensures index.Valid() && fresh(index.nodes) && index.regions == InsertAll([], Ahead(copy.chains, 0, 0))
  {
    hide PtrTable.Valid, Index.Valid, Passed, Ahead, FingerSafe, InsertAll, Insert, FingerAfter;
    copy.WalkStart();
    ghost var all := Ahead(copy.chains, 0, 0);
    ghost var finger := Dangling;
    var b := 0;
    while b < copy.buckets.Length
      invariant b <= copy.buckets.Length == |copy.chains|
      invariant Underway(index, finger, all, Ahead(copy.chains, b, 0)) && fresh(index.nodes)
    {
      copy.HeadAt(b);
      var n := copy.buckets[b];
      ghost var k := 0;
      while n != null
        invariant k <= |copy.chains[b]| && n == NodeAt(copy.chains[b], k)
        invariant Underway(index, finger, all, Ahead(copy.chains, b, k)) && fresh(index.nodes)
        decreases |copy.chains[b]| - k
      {
        copy.WalkAt(b, k);
        AheadStep(copy.chains, b, k);
        finger := RegisterNext(index, n, finger, all, Ahead(copy.chains, b, k + 1));
        n := n.HashNext();
        k := k + 1;
      }
      AheadRow(copy.chains, b);
      b := b + 1;
    }
    Finished(index, finger, all, copy.chains);
  }

  lemma Finished(index: Index, finger: Finger, all: seq<Block>, chains: seq<seq<BlockNode>>)
    requires Underway(index, finger, all, Ahead(chains, |chains|, 0))
    ensures index.Valid() && index.regions == InsertAll([], all)
  {
  }

  /**
    `mc_get_virtual_memory_usage`, the areas being given: the page size times the number of pages that the
    live blocks touch. No area is used beyond its size. It takes that no block but the last bridges the
    gap in front of the finger's region, in the order in which a walk along the copy meets the blocks.
    The copies, one of each block, and the regions counted, `listed`, are given back.
   */
  method GetVirtualMemoryUsage(index: Index, live: PtrTable, copy: PtrTable, areas: array<VmArea>, ghost limit: nat)
    returns (total: nat, ghost copyOf: map<BlockNode, BlockNode>, ghost listed: seq<PageRegion>)
    requires index.Valid() && index.nodes == [] && index.regions == []
    requires live.Valid() && Held(live.nodes, limit) && copy.Valid() && copy.nodes == {}
    requires copy != live && copy.buckets != live.buckets && copy.buckets.Length == live.buckets.Length
    requires Ascending(areas[..]) && forall i :: 0 <= i < areas.Length ==> areas[i].usage == 0
    requires NeverBridged([], 0, CopyOrder(live.chains, 0))
    modifies index, index.head`next, copy`chains, copy`nodes, copy.buckets, areas
    ensures index.Valid() && index.nodes == [] && index.regions == []
    ensures live.Valid() && copy.Valid() && copy.nodes == {}
    ensures total == 4096 * |LivePages(live.nodes)|
    ensures Copying(copyOf) && copyOf.Keys == live.nodes && fresh(copyOf.Values)
    ensures forall n :: n in copyOf.Values ==> !n.live
    ensures |listed| == |InsertAll([], CopyOrder(live.chains, 0))| && Distinct(listed)
    ensures forall r :: r in listed ==> fresh(r) && !r.live
    ensures GrownBy(old(areas[..]), areas[..], InsertAll([], CopyOrder(live.chains, 0)))
    ensures forall i :: 0 <= i < areas.Length ==> areas[i].usage <= areas[i].end - areas[i].start
  {
    hide PtrTable.Valid, Index.Valid, Held, Mirrored, CopyOrder, Ahead, NeverBridged, FingerSafe, InsertAll;
    hide Gapped, Ascending, GrownBy, LivePages, TouchedPages, TotalSize, Copying;
    ghost var order := CopyOrder(live.chains, 0);
    live.WalkStart();
    HoldsTable(live);
    OrderPages(live.chains, live.nodes, limit);
    copyOf := DuplicateAll(copy, live);
    SameLength(copy.chains, live.chains);
    CopyIsWalked(copy.chains, live.chains, 0);
    NothingCovered();
    SafeIffNeverBridged([], Dangling, order);
    RegisterTable(index, copy);
    DestroyAll(copy);
    total, listed := CountAndFree(index, areas, order);
  }

  /** The last part: count what registering `blocks` has built up, and give it back. */
  method CountAndFree(index: Index, areas: array<VmArea>, ghost blocks: seq<Block>)
    returns (total: nat, ghost listed: seq<PageRegion>)
    requires index.Valid() && NonEmpty(blocks) && index.regions == InsertAll([], blocks)
    requires Ascending(areas[..]) && forall i :: 0 <= i < areas.Length ==> areas[i].usage == 0
    modifies index, index.head`next, index.nodes, areas
    ensures index.Valid() && index.nodes == [] && index.regions == []
    ensures total == PAGE_SIZE * |TouchedPages(blocks)|
    ensures listed == old(index.nodes) && |listed| == |InsertAll([], blocks)| && Distinct(listed)
    ensures forall r :: r in listed ==> !r.live
    ensures GrownBy(old(areas[..]), areas[..], InsertAll([], blocks))
    ensures forall i :: 0 <= i < areas.Length ==> areas[i].usage <= areas[i].end - areas[i].start
  {
    hide Index.Valid, InsertAll, Gapped, Ascending, GrownBy, TouchedPages, TotalSize;
    ghost var was := areas[..];
    listed := index.nodes;
    index.ListedOnce();
    total := index.CountVirtualMemorySize(areas);
    CountedSize(blocks);
    forall i | 0 <= i < areas.Length
      ensures areas[i].usage <= areas[i].end - areas[i].start
    {
      UsageFits(was, areas[..], index.regions, i);
    }
    index.FreeAllPageregions();
  }

  lemma HoldsTable(t: PtrTable)
    requires t.Valid()
    ensures Chains.Holds(t.chains, t.nodes)
  {
    ShapeHolds(t.buckets.Length, t.chains, t.nodes);
  }
}

/** Duplicating, comparing and destroying tables of blocks (memchk_snapshot.c, memchk_manage_memblk.c). */
module Compare {
  import opened Blocks
  import opened Chains
  import opened Tally
  import opened Cancelling
  import opened PtrHashtable
  import opened CallstackGroups
  import opened CallstackHashtable
  import opened Snapshot
  import opened Report

  /** Between commands every call stack's group heads are empty. */
  ghost predicate HeadsEmpty(stacks: set<Callstack>)
    reads stacks`groupHead
  {
    forall c {:trigger c.groupHead} :: c in stacks ==> c.groupHead == [null, null]
  }

  ghost predicate AllocatorsIn(nodes: set<BlockNode>, stacks: set<Callstack>)
  {
    forall n :: n in nodes ==> n.allocator in stacks
  }

  /** What both comparisons start from. */
  ghost predicate Comparable(cur: PtrTable, snap: PtrTable, stacks: CallstackTable)
    reads cur, cur.buckets, cur.nodes`hashNext, cur.nodes`live
    reads snap, snap.buckets, snap.nodes`hashNext, snap.nodes`live
    reads stacks, stacks.buckets, stacks.nodes`hashNext, stacks.nodes`groupHead
  {
    && cur.Valid() && cur.UniquePtrs() && snap.Valid() && snap.UniquePtrs()
    && cur != snap && cur.buckets != snap.buckets && cur.nodes !! snap.nodes
    && stacks.Valid() && HeadsEmpty(stacks.nodes)
    && AllocatorsIn(cur.nodes, stacks.nodes) && AllocatorsIn(snap.nodes, stacks.nodes)
  }

  /** Kind by kind, `more` and `fewer` are the two sides of the multiset difference of `cur0` and `snap0`. */
  ghost predicate Difference(stacks: set<Callstack>, cur0: set<BlockNode>, snap0: set<BlockNode>,
                             more: set<BlockNode>, fewer: set<BlockNode>)
  {
    forall cs, z {:trigger Count(more, cs, z)} {:trigger Count(fewer, cs, z)} :: cs in stacks ==>
      && Count(more, cs, z) == Excess(Count(cur0, cs, z), Count(snap0, cs, z))
      && Count(fewer, cs, z) == Excess(Count(snap0, cs, z), Count(cur0, cs, z))
  }

  /** What offsetting leaves of blocks `cur0` and `snap0`. */
  ghost predicate Leftovers(stacks: set<Callstack>, cur0: set<BlockNode>, snap0: set<BlockNode>,
                            cur: set<BlockNode>, snap: set<BlockNode>)
  {
    && cur <= cur0 && snap <= snap0 && Difference(stacks, cur0, snap0, cur, snap)
    && (forall cs {:trigger Net(cur, snap, cs)} :: cs in stacks ==> Net(cur, snap, cs) == Net(cur0, snap0, cs))
  }

  method EmptyLists(stacks: CallstackTable) returns (curGroups: GroupLists, snapGroups: GroupLists)
    requires HeadsEmpty(stacks.nodes)
    ensures fresh(curGroups) && fresh(snapGroups) && curGroups != snapGroups
    ensures curGroups.Valid() && curGroups.link == LINK_CURRENT && curGroups.members == {}
    ensures snapGroups.Valid() && snapGroups.link == LINK_SNAPSHOT && snapGroups.members == {}
    ensures curGroups.groups.Keys == snapGroups.groups.Keys == stacks.nodes
  {
    hide GroupLists.Valid;
    curGroups := new GroupLists(LINK_CURRENT, stacks.nodes);
    snapGroups := new GroupLists(LINK_SNAPSHOT, stacks.nodes);
  }

  method LinkTables(cur: PtrTable, snap: PtrTable, curGroups: GroupLists, snapGroups: GroupLists)
    requires cur.Valid() && snap.Valid() && cur.nodes !! snap.nodes && curGroups != snapGroups
    requires curGroups.Valid() && curGroups.link == LINK_CURRENT && curGroups.members == {}
    requires snapGroups.Valid() && snapGroups.link == LINK_SNAPSHOT && snapGroups.members == {}
    requires curGroups.groups.Keys == snapGroups.groups.Keys
    requires AllocatorsIn(cur.nodes, curGroups.groups.Keys) && AllocatorsIn(snap.nodes, curGroups.groups.Keys)
    modifies curGroups`groups, curGroups`members, snapGroups`groups, snapGroups`members
    modifies cur.nodes`groupNext, cur.nodes`groupPrev, snap.nodes`groupNext, snap.nodes`groupPrev
    modifies curGroups.groups.Keys`groupHead
    ensures cur.Valid() && snap.Valid() && curGroups.Valid() && snapGroups.Valid()
    ensures curGroups.members == cur.nodes && snapGroups.members == snap.nodes
    ensures curGroups.groups.Keys == snapGroups.groups.Keys == old(curGroups.groups.Keys)
    ensures InLinkOrder(snapGroups.groups, Coming(snap.chains, 0, 0))
  {
    hide PtrTable.Valid, GroupLists.Valid, InLinkOrder, Coming;
    LinkSameCallstackGroup(cur, curGroups, snapGroups);
    LinkSameCallstackGroup(snap, snapGroups, curGroups);
  }

  /** What offsetting two tables starts from, once their blocks are linked. */
  ghost function Linking(cur: PtrTable, snap: PtrTable, stacks: CallstackTable): Began
    reads cur, snap, stacks
  {
    Began(cur.nodes, snap.nodes, Coming(cur.chains, 0, 0),
          map cs | cs in stacks.nodes :: LinkOrder(Coming(snap.chains, 0, 0), cs))
  }

  lemma LinkedAs(d: Comparison, stacks: CallstackTable)
    requires d.Stacks() == stacks.nodes == d.snapGroups.groups.Keys
    requires InLinkOrder(d.snapGroups.groups, Coming(d.snap.chains, 0, 0))
    ensures d.Beginning() == Linking(d.cur, d.snap, stacks)
  {
    hide Coming, LinkOrder;
    assert d.snapGroups.groups == Linking(d.cur, d.snap, stacks).order;
  }

  method LinkLists(cur: PtrTable, snap: PtrTable, curGroups: GroupLists, snapGroups: GroupLists) returns (d: Comparison)
    requires cur.Valid() && cur.UniquePtrs() && snap.Valid() && snap.UniquePtrs()
    requires cur != snap && cur.buckets != snap.buckets && cur.nodes !! snap.nodes
    requires curGroups != snapGroups && Interned(curGroups.groups.Keys)
    requires curGroups.Valid() && curGroups.link == LINK_CURRENT && curGroups.members == {}
    requires snapGroups.Valid() && snapGroups.link == LINK_SNAPSHOT && snapGroups.members == {}
    requires curGroups.groups.Keys == snapGroups.groups.Keys
    requires AllocatorsIn(cur.nodes, curGroups.groups.Keys) && AllocatorsIn(snap.nodes, curGroups.groups.Keys)
    modifies curGroups`groups, curGroups`members, snapGroups`groups, snapGroups`members
    modifies cur.nodes`groupNext, cur.nodes`groupPrev, snap.nodes`groupNext, snap.nodes`groupPrev
    modifies curGroups.groups.Keys`groupHead
    ensures fresh(d) && d.cur == cur && d.snap == snap && d.curGroups == curGroups && d.snapGroups == snapGroups
    ensures d.Valid() && d.Stacks() == old(curGroups.groups.Keys) == snapGroups.groups.Keys
    ensures InLinkOrder(snapGroups.groups, Coming(snap.chains, 0, 0))
  {
    hide PtrTable.Valid, GroupLists.Valid, PtrTable.UniquePtrs, Interned, Comparison.Valid, AllocatorsIn;
    hide InLinkOrder, Coming;
    LinkTables(cur, snap, curGroups, snapGroups);
    d := new Comparison(cur, snap, curGroups, snapGroups);
    Assembled(d);
  }

  /** Link both tables' blocks into the group lists. */
  method LinkBoth(cur: PtrTable, snap: PtrTable, stacks: CallstackTable) returns (d: Comparison)
    requires Comparable(cur, snap, stacks)
    modifies cur.nodes`groupNext, cur.nodes`groupPrev, snap.nodes`groupNext, snap.nodes`groupPrev
    modifies stacks.nodes`groupHead
    ensures fresh(d) && fresh(d.curGroups) && fresh(d.snapGroups) && d.cur == cur && d.snap == snap
    ensures d.Valid() && d.Stacks() == stacks.nodes && stacks.Valid()
    ensures d.Beginning() == Linking(cur, snap, stacks)
  {
    hide PtrTable.Valid, GroupLists.Valid, CallstackTable.Valid, PtrTable.UniquePtrs, Comparison.Valid;
    hide InLinkOrder, Coming, Interned, HeadsEmpty, Linking, Comparison.Beginning, AllocatorsIn;
    stacks.NoTwoAlike();
    var curGroups, snapGroups := EmptyLists(stacks);
    d := LinkLists(cur, snap, curGroups, snapGroups);
    LinkedAs(d, stacks);
  }

  lemma Assembled(d: Comparison)
    requires d.cur.Valid() && d.cur.UniquePtrs() && d.snap.Valid() && d.snap.UniquePtrs()
    requires d.cur != d.snap && d.cur.buckets != d.snap.buckets && d.cur.nodes !! d.snap.nodes
    requires d.curGroups.Valid() && d.curGroups.link == LINK_CURRENT && d.curGroups.members == d.cur.nodes
    requires d.snapGroups.Valid() && d.snapGroups.link == LINK_SNAPSHOT && d.snapGroups.members == d.snap.nodes
    requires d.curGroups != d.snapGroups && d.snapGroups.groups.Keys == d.Stacks() && Interned(d.Stacks())
    ensures d.Valid()
  {
  }

  lemma LeftoversFrom(stacks: set<Callstack>, cur0: set<BlockNode>, snap0: set<BlockNode>,
                      cur: set<BlockNode>, snap: set<BlockNode>)
    requires cur <= cur0 && snap <= snap0 && Balanced(stacks, cur0, snap0, cur, snap)
    requires forall n, m :: n in cur && m in snap ==> !SameKind(n, m)
    ensures Leftovers(stacks, cur0, snap0, cur, snap)
  {
    forall cs, z | cs in stacks
      ensures Count(cur, cs, z) == Excess(Count(cur0, cs, z), Count(snap0, cs, z))
      ensures Count(snap, cs, z) == Excess(Count(snap0, cs, z), Count(cur0, cs, z))
    {
      WhatIsLeft(stacks, cur0, snap0, cur, snap, cs, z);
    }
    forall cs | cs in stacks
      ensures Net(cur, snap, cs) == Net(cur0, snap0, cs)
    {
      assert BytesOf(cur, cs) + BytesOf(snap0, cs) == BytesOf(cur0, cs) + BytesOf(snap, cs);
    }
  }

  lemma FromLinks(d: Comparison, a: Began)
    requires d.Valid() && d.Beginning() == a
    ensures a.cur == d.cur.nodes && a.snap == d.snap.nodes
    ensures OnePtrEach(a.cur) && OnePtrEach(a.snap) && Ordered(a)
  {
  }

  lemma NothingLeft(d: Comparison)
    requires d.Valid() && d.cur.nodes == {} && d.snap.nodes == {}
    ensures HeadsEmpty(d.Stacks())
  {
    forall c | c in d.Stacks()
      ensures c.groupHead == [null, null]
    {
      ListIsOf(d.curGroups, c);
      ListIsOf(d.snapGroups, c);
    }
  }

  lemma TwoHeads(d: Comparison)
    requires d.Valid()
    ensures forall c :: c in d.Stacks() ==> |c.groupHead| == LINK_MAX
    ensures d.cur.Valid() && d.snap.Valid() && d.cur.UniquePtrs() && d.snap.UniquePtrs()
  {
  }

  /** Empty all group heads again. */
  method ResetBoth(stacks: CallstackTable)
    requires stacks.Valid() && forall c :: c in stacks.nodes ==> |c.groupHead| == LINK_MAX
    modifies stacks.nodes`groupHead
    ensures stacks.Valid() && HeadsEmpty(stacks.nodes)
  {
    hide CallstackTable.Valid;
    stacks.ResetGroups(LINK_CURRENT);
    stacks.ResetGroups(LINK_SNAPSHOT);
  }

  /** The part both comparisons share: link the blocks, then offset the two tables. */
  method LinkAndOffset(cur: PtrTable, snap: PtrTable, stacks: CallstackTable)
    returns (d: Comparison, numCur: int, numSnap: int)
    requires Comparable(cur, snap, stacks)
    modifies cur`chains, cur`nodes, cur.buckets, cur.nodes
    modifies snap`chains, snap`nodes, snap.buckets, snap.nodes, stacks.nodes`groupHead
    ensures d.Valid() && d.cur == cur && d.snap == snap && d.Stacks() == stacks.nodes && stacks.Valid()
    ensures forall c :: c in stacks.nodes ==> |c.groupHead| == LINK_MAX
    ensures cur.Valid() && cur.UniquePtrs() && snap.Valid() && snap.UniquePtrs() && cur.nodes !! snap.nodes
    ensures AllocatorsIn(cur.nodes, stacks.nodes) && AllocatorsIn(snap.nodes, stacks.nodes)
    ensures Leftovers(stacks.nodes, old(cur.nodes), old(snap.nodes), cur.nodes, snap.nodes)
    ensures numCur == |cur.nodes| && numSnap == |snap.nodes|
    ensures LiveAre(old(cur.nodes), cur.nodes, null) && LiveAre(old(snap.nodes), snap.nodes, null)
    ensures Left(cur.nodes, snap.nodes) == old(var a := Linking(cur, snap, stacks); After(a, a.walk))
    ensures TwinsGone(stacks.nodes, old(cur.nodes), old(snap.nodes), cur.nodes, snap.nodes)
  {
    hide PtrTable.Valid, CallstackTable.Valid, PtrTable.UniquePtrs, Comparison.Valid, Leftovers, LiveAre, HeadsEmpty;
    hide AllocatorsIn, Linking, Coming, After, TwinsGone, Comparison.Beginning, Distinct, Elements, SameKind;
    d := LinkBoth(cur, snap, stacks);
    ghost var visited;
    ghost var a := Linking(cur, snap, stacks);
    FromLinks(d, a);
    numCur, numSnap, visited := d.Offset();
    TwinsAreGone(stacks.nodes, a, visited);
    LeftoversFrom(stacks.nodes, old(cur.nodes), old(snap.nodes), cur.nodes, snap.nodes);
    StillIn(stacks.nodes, old(cur.nodes), old(snap.nodes), cur.nodes, snap.nodes);
    TwoHeads(d);
  }

  /**
    The plain comparison: `numCur` blocks more and `numSnap` blocks fewer than in the snapshot; the
    tables keep exactly those blocks.
   */
  method CompareTables(cur: PtrTable, snap: PtrTable, stacks: CallstackTable) returns (numCur: int, numSnap: int)
    requires Comparable(cur, snap, stacks)
    modifies cur`chains, cur`nodes, cur.buckets, cur.nodes
    modifies snap`chains, snap`nodes, snap.buckets, snap.nodes, stacks.nodes`groupHead
    ensures Comparable(cur, snap, stacks)
    ensures Leftovers(stacks.nodes, old(cur.nodes), old(snap.nodes), cur.nodes, snap.nodes)
    ensures numCur == |cur.nodes| && numSnap == |snap.nodes|
    ensures LiveAre(old(cur.nodes), cur.nodes, null) && LiveAre(old(snap.nodes), snap.nodes, null)
    ensures Left(cur.nodes, snap.nodes) == old(var a := Linking(cur, snap, stacks); After(a, a.walk))
    ensures TwinsGone(stacks.nodes, old(cur.nodes), old(snap.nodes), cur.nodes, snap.nodes)
  {
    hide PtrTable.Valid, CallstackTable.Valid, PtrTable.UniquePtrs, Comparison.Valid, Leftovers, LiveAre, HeadsEmpty;
    hide Linking, After, TwinsGone;
    var d;
    d, numCur, numSnap := LinkAndOffset(cur, snap, stacks);
    ResetBoth(stacks);
  }

  lemma StillIn(stacks: set<Callstack>, cur0: set<BlockNode>, snap0: set<BlockNode>,
                cur: set<BlockNode>, snap: set<BlockNode>)
    requires Leftovers(stacks, cur0, snap0, cur, snap) && cur0 !! snap0
    requires AllocatorsIn(cur0, stacks) && AllocatorsIn(snap0, stacks)
    ensures AllocatorsIn(cur, stacks) && AllocatorsIn(snap, stacks) && cur !! snap
  {
  }

  /** Some size has been allocated more often, or less often, from this call stack. */
  ghost predicate SomeSizeChanged(a: set<BlockNode>, b: set<BlockNode>, c: Callstack)
  {
    exists z :: Count(a, c, z) != Count(b, c, z)
  }

  /** A call stack keeps a block on some side exactly when one of its sizes has changed. */
  lemma LeftIffChanged(stacks: set<Callstack>, cur0: set<BlockNode>, snap0: set<BlockNode>,
                       cur: set<BlockNode>, snap: set<BlockNode>, c: Callstack)
    requires c in stacks && Difference(stacks, cur0, snap0, cur, snap)
    ensures Of(cur, c) == {} && Of(snap, c) == {} <==> !SomeSizeChanged(cur0, snap0, c)
  {
    if n :| n in Of(cur, c) + Of(snap, c) {
      var z := n.memblk.usrsize;
      assert n in OfKind(cur, c, z) || n in OfKind(snap, c, z);
      assert Count(cur, c, z) > 0 || Count(snap, c, z) > 0;
      assert Count(cur0, c, z) != Count(snap0, c, z);
      assert n in Of(cur, c) || n in Of(snap, c);
    } else {
      forall z
        ensures Count(cur0, c, z) == Count(snap0, c, z)
      {
        assert OfKind(cur, c, z) <= Of(cur, c) + Of(snap, c) && OfKind(snap, c, z) <= Of(cur, c) + Of(snap, c);
        assert Count(cur, c, z) == 0 && Count(snap, c, z) == 0;
      }
      assert Of(cur, c) + Of(snap, c) == {};
    }
  }

  /**
    What the per-call-stack report has to say about blocks `cur0` now and `snap0` in the snapshot:
    exactly the call stacks with a size that changed, each once with its net bytes, and totals that add up.
   */
  ghost predicate GoodReport(listed: seq<Callstack>, stacks: set<Callstack>,
                             cur0: set<BlockNode>, snap0: set<BlockNode>)
    reads listed`totalSize
  {
    && Distinct(listed) && Elements(listed) <= stacks
    && (forall c :: c in listed ==> c.totalSize == Net(cur0, snap0, c))
    && (forall c :: c in stacks ==> (c in listed <==> SomeSizeChanged(cur0, snap0, c)))
    && ReportTotal(listed) == Bytes(cur0) - Bytes(snap0)
  }

  lemma GoodFrom(report: array<Callstack?>, listed: seq<Callstack>, stacks: set<Callstack>, cur0: set<BlockNode>,
                 snap0: set<BlockNode>, cur: set<BlockNode>, snap: set<BlockNode>)
    requires Filled(report, listed, stacks, cur, snap) && Leftovers(stacks, cur0, snap0, cur, snap)
    requires AllocatorsIn(cur0, stacks) && AllocatorsIn(snap0, stacks)
    ensures GoodReport(listed, stacks, cur0, snap0)
  {
    forall c | c in stacks
      ensures c in listed <==> SomeSizeChanged(cur0, snap0, c)
    {
      LeftIffChanged(stacks, cur0, snap0, cur, snap, c);
      assert c in listed <==> c in Elements(listed);
    }
    forall c | c in stacks && c !in Elements(listed)
      ensures Net(cur0, snap0, c) == 0
    {
      UnchangedNetZero(c, cur, snap);
      assert Net(cur, snap, c) == Net(cur0, snap0, c);
    }
    forall c | c in Elements(listed)
      ensures c.totalSize == Net(cur0, snap0, c)
    {
      assert Net(cur, snap, c) == Net(cur0, snap0, c);
    }
    TotalIsNetSum(listed, cur0, snap0);
    NetOnly(stacks, Elements(listed), cur0, snap0);
    NetAll(stacks, cur0, snap0);
  }

  lemma GoodWhenSame(stacks: set<Callstack>, cur0: set<BlockNode>, snap0: set<BlockNode>,
                     cur: set<BlockNode>, snap: set<BlockNode>)
    requires cur == {} && snap == {} && Leftovers(stacks, cur0, snap0, cur, snap)
    requires AllocatorsIn(cur0, stacks) && AllocatorsIn(snap0, stacks)
    ensures GoodReport([], stacks, cur0, snap0)
  {
    forall c | c in stacks
      ensures Net(cur0, snap0, c) == 0 && !SomeSizeChanged(cur0, snap0, c)
    {
      LeftIffChanged(stacks, cur0, snap0, cur, snap, c);
      UnchangedNetZero(c, cur, snap);
      assert Net(cur, snap, c) == Net(cur0, snap0, c);
    }
    NetOnly(stacks, {}, cur0, snap0);
    NetAll(stacks, cur0, snap0);
  }

  /**
    The comparison per call stack. When no block changed it returns before emptying the group heads,
    which are empty by then.
   */
  method ComparePerCallstack(cur: PtrTable, snap: PtrTable, stacks: CallstackTable)
    returns (numCur: int, numSnap: int, report: array<Callstack?>, ghost listed: seq<Callstack>)
    requires Comparable(cur, snap, stacks)
    modifies cur`chains, cur`nodes, cur.buckets, cur.nodes
    modifies snap`chains, snap`nodes, snap.buckets, snap.nodes, stacks.nodes`groupHead, stacks.nodes`totalSize
    ensures Comparable(cur, snap, stacks)
    ensures Leftovers(stacks.nodes, old(cur.nodes), old(snap.nodes), cur.nodes, snap.nodes)
    ensures numCur == |cur.nodes| && numSnap == |snap.nodes|
    ensures LiveAre(old(cur.nodes), cur.nodes, null) && LiveAre(old(snap.nodes), snap.nodes, null)
    ensures Left(cur.nodes, snap.nodes) == old(var a := Linking(cur, snap, stacks); After(a, a.walk))
    ensures TwinsGone(stacks.nodes, old(cur.nodes), old(snap.nodes), cur.nodes, snap.nodes)
    ensures fresh(report) && report.Length == |listed| && forall i :: 0 <= i < |listed| ==> report[i] == listed[i]
    ensures GoodReport(listed, stacks.nodes, old(cur.nodes), old(snap.nodes))
  {
    hide PtrTable.Valid, CallstackTable.Valid, PtrTable.UniquePtrs, Comparison.Valid, Leftovers, LiveAre, HeadsEmpty;
    hide GoodReport, Filled, AllocatorsIn, Linking, After, TwinsGone;
    var d;
    d, numCur, numSnap := LinkAndOffset(cur, snap, stacks);
    if numCur + numSnap == 0 {
      NothingLeft(d);
      GoodWhenSame(stacks.nodes, old(cur.nodes), old(snap.nodes), cur.nodes, snap.nodes);
      report, listed := new Callstack?[0](_ => null), [];
      return;
    }
    report, listed := ReportLeftovers(d, stacks, old(cur.nodes), old(snap.nodes));
  }

  /** The report on what offsetting `cur0` and `snap0` has left; the group heads are reset. */
  method ReportLeftovers(d: Comparison, stacks: CallstackTable, ghost cur0: set<BlockNode>, ghost snap0: set<BlockNode>)
    returns (report: array<Callstack?>, ghost listed: seq<Callstack>)
    requires d.Valid() && stacks.Valid() && stacks.nodes == d.Stacks()
    requires forall c :: c in stacks.nodes ==> |c.groupHead| == LINK_MAX
    requires Leftovers(stacks.nodes, cur0, snap0, d.cur.nodes, d.snap.nodes)
    requires AllocatorsIn(cur0, stacks.nodes) && AllocatorsIn(snap0, stacks.nodes)
    modifies stacks.nodes`groupHead, stacks.nodes`totalSize
    ensures stacks.Valid() && HeadsEmpty(stacks.nodes)
    ensures fresh(report) && report.Length == |listed| && forall i :: 0 <= i < |listed| ==> report[i] == listed[i]
    ensures GoodReport(listed, stacks.nodes, cur0, snap0)
  {
    hide PtrTable.Valid, CallstackTable.Valid, PtrTable.UniquePtrs, Comparison.Valid, Leftovers, HeadsEmpty;
    hide GoodReport, Filled;
    report, listed := FillReport(d, stacks);
    GoodFrom(report, listed, stacks.nodes, cur0, snap0, d.cur.nodes, d.snap.nodes);
    FilledIs(report, listed, stacks.nodes, d.cur.nodes, d.snap.nodes);
    ResetBoth(stacks);
  }

  lemma FilledIs(report: array<Callstack?>, listed: seq<Callstack>, stacks: set<Callstack>,
                 cur: set<BlockNode>, snap: set<BlockNode>)
    requires Filled(report, listed, stacks, cur, snap) && report.Length == |listed|
    ensures forall i :: 0 <= i < |listed| ==> report[i] == listed[i]
  {
  }
}

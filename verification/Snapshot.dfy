/** Comparing the current blocks with a snapshot (memchk_snapshot.c). */
module Snapshot {
  import opened Blocks
  import opened Chains
  import opened Tally
  import opened Cancelling
  import opened PtrHashtable
  import opened CallstackGroups
  import opened CallstackHashtable

  /** Two tables with the group lists of their blocks. */
  class Comparison {
    const cur: PtrTable
    const snap: PtrTable
    const curGroups: GroupLists
    const snapGroups: GroupLists

    constructor (cur: PtrTable, snap: PtrTable, curGroups: GroupLists, snapGroups: GroupLists)
      ensures this.cur == cur && this.snap == snap
      ensures this.curGroups == curGroups && this.snapGroups == snapGroups
    {
      this.cur, this.snap, this.curGroups, this.snapGroups := cur, snap, curGroups, snapGroups;
    }

    ghost function Stacks(): set<Callstack>
      reads curGroups
    {
      curGroups.groups.Keys
    }

    ghost predicate Valid()
      reads this, cur, cur.buckets, cur.nodes, snap, snap.buckets, snap.nodes
      reads curGroups, curGroups.groups.Keys`groupHead, curGroups.members
      reads snapGroups, snapGroups.groups.Keys`groupHead, snapGroups.members
    {
      && cur.Valid() && cur.UniquePtrs() && snap.Valid() && snap.UniquePtrs()
      && cur != snap && cur.buckets != snap.buckets && cur.nodes !! snap.nodes
      && curGroups.Valid() && curGroups.link == LINK_CURRENT && curGroups.members == cur.nodes
      && snapGroups.Valid() && snapGroups.link == LINK_SNAPSHOT && snapGroups.members == snap.nodes
      && curGroups != snapGroups && snapGroups.groups.Keys == Stacks()
      && Interned(Stacks())
    }

    /** A snapshot block of the same allocator and size as `n`: by pointer first, then by call stack. */
    method FindSnapshotFor(n: BlockNode) returns (m: BlockNode?)
      requires Valid() && n in cur.nodes
      ensures m != null ==> m in snap.nodes && SameKind(n, m)
      ensures m == null ==> forall s :: s in snap.nodes ==> !SameKind(n, s)
      ensures n.allocator in snapGroups.groups && m == Partner(n, snap.nodes, snapGroups.groups[n.allocator])
    {
      hide PtrTable.Valid, Valid, MatchCallstack;
      GroupOf(n);
      m := snap.Find(n.memblk.ptr);
      if m != null {
        SameStack(n, m);
        if n.memblk.usrsize == m.memblk.usrsize && MatchCallstack(n.allocator.depth, n.allocator.trace, m.allocator) {
          return;
        }
      }
      m := FindInGroup(n);
    }

    /** The snapshot block of `n`'s size that comes first in the list of `n`'s allocator. */
    method FindInGroup(n: BlockNode) returns (m: BlockNode?)
      requires Valid() && n in cur.nodes
      ensures m != null ==> m in snap.nodes && SameKind(n, m)
      ensures m == null ==> forall s :: s in snap.nodes ==> !SameKind(n, s)
      ensures n.allocator in snapGroups.groups && m == FirstOfSize(snapGroups.groups[n.allocator], n.memblk.usrsize)
    {
      hide Valid, FirstOfSize;
      GroupOf(n);
      ghost var g := snapGroups.groups[n.allocator];
      ghost var k := 0;
      m := n.allocator.groupHead[LINK_SNAPSHOT];
      while m != null
        invariant k <= |g| && m == NodeAt(g, k)
        invariant forall j :: 0 <= j < k ==> g[j].memblk.usrsize != n.memblk.usrsize
        decreases |g| - k
      {
        if n.memblk.usrsize == m.memblk.usrsize {
          break;
        }
        m := m.GroupNext();
        k := k + 1;
      }
      FirstIs(g, k, n.memblk.usrsize);
    }

    /** The snapshot blocks that `n`'s allocator heads are those it allocated. */
    lemma GroupOf(n: BlockNode)
      requires Valid() && n in cur.nodes
      ensures snap.Valid() && n.allocator in snapGroups.groups && |n.allocator.groupHead| == LINK_MAX
      ensures n.allocator.depth <= MAX_CALLSTACK_DEPTH
      ensures var g := snapGroups.groups[n.allocator];
        && n.allocator.groupHead[LINK_SNAPSHOT] == NodeAt(g, 0)
        && (forall i {:trigger g[i]} :: 0 <= i < |g| ==>
              g[i] in snap.nodes && g[i].allocator == n.allocator && g[i].live)
        && (forall i {:trigger g[i].groupNext} :: 0 <= i < |g| ==> g[i].groupNext == NodeAt(g, i + 1))
        && (forall s :: s in snap.nodes && s.allocator == n.allocator ==> s in g)
      ensures forall s, t :: s in snap.nodes && t in snap.nodes && s.memblk.ptr == t.memblk.ptr ==> s == t
    {
      assert n in curGroups.members;
      var g := snapGroups.groups[n.allocator];
      assert Linked(n.allocator.groupHead[LINK_SNAPSHOT], g);
    }

    /** Matching call stacks are the same object. */
    lemma SameStack(n: BlockNode, m: BlockNode)
      requires Valid() && n in cur.nodes && m in snap.nodes
      ensures n.allocator.depth <= MAX_CALLSTACK_DEPTH && m.allocator.depth <= MAX_CALLSTACK_DEPTH
      ensures MatchCallstack(n.allocator.depth, n.allocator.trace, m.allocator) <==> n.allocator == m.allocator
    {
      assert n in curGroups.members && m in snapGroups.members;
    }

    /** Cancel `n` against a snapshot block, if there is one of its kind. */
    method OffsetOne(n: BlockNode) returns (m: BlockNode?, ghost k: nat)
      requires Valid() && n in cur.nodes
      modifies cur`chains, cur`nodes, cur.buckets, cur.nodes`hashNext, cur.nodes`groupNext, cur.nodes`groupPrev
      modifies snap`chains, snap`nodes, snap.buckets, snap.nodes`hashNext, snap.nodes`groupNext, snap.nodes`groupPrev
      modifies curGroups`groups, curGroups`members, snapGroups`groups, snapGroups`members, Stacks()`groupHead
      ensures Valid() && Stacks() == old(Stacks())
      ensures m == null ==>
        cur.nodes == old(cur.nodes) && cur.chains == old(cur.chains) && snap.nodes == old(snap.nodes)
      ensures m == null ==> forall s :: s in snap.nodes ==> !SameKind(n, s)
      ensures m != null ==> m in old(snap.nodes) && SameKind(n, m) && n.live && m.live
      ensures m != null ==> cur.nodes == old(cur.nodes) - {n} && snap.nodes == old(snap.nodes) - {m}
      ensures m != null ==> CutOut(n, k, old(cur.chains), cur.chains)
      ensures n.hashNext == old(n.hashNext)
      ensures forall s :: s in old(snap.nodes) && s.memblk.ptr == n.memblk.ptr && SameKind(n, s) ==> m == s
      ensures n.allocator in old(snapGroups.groups)
      ensures m == Partner(n, old(snap.nodes), old(snapGroups.groups)[n.allocator])
      ensures m == null ==> snapGroups.groups == old(snapGroups.groups)
      ensures m != null ==> LeftGroup(m, old(snapGroups.groups), snapGroups.groups)
    {
      hide PtrTable.Valid, GroupLists.Valid, PtrTable.UniquePtrs, Partner, LeftGroup, Interned;
      k := 0;
      m := FindSnapshotFor(n);
      PartnerIsTwin(n);
      Alive(n);
      if m != null {
        k := Cancel(n, m);
      }
    }

    lemma Alive(n: BlockNode)
      requires Valid() && n in cur.nodes
      ensures n.live
    {
    }

    /** Block `m` has left its group list; the other lists are as they were. */
    ghost predicate LeftGroup(m: BlockNode, before: map<Callstack, seq<BlockNode>>,
                              after: map<Callstack, seq<BlockNode>>)
    {
      && m.allocator in before && m in before[m.allocator]
      && after == before[m.allocator := Without(before[m.allocator], m)]
    }

    lemma PartnerIsTwin(n: BlockNode)
      requires Valid() && n in cur.nodes
      ensures n.allocator in snapGroups.groups
      ensures forall s :: s in snap.nodes && s.memblk.ptr == n.memblk.ptr && SameKind(n, s) ==>
        Partner(n, snap.nodes, snapGroups.groups[n.allocator]) == s
    {
      GroupOf(n);
      forall s | s in snap.nodes && s.memblk.ptr == n.memblk.ptr && SameKind(n, s)
        ensures Partner(n, snap.nodes, snapGroups.groups[n.allocator]) == s
      {
        assert Twin(n, s);
      }
    }

    method Cancel(n: BlockNode, m: BlockNode) returns (ghost k: nat)
      requires Valid() && n in cur.nodes && m in snap.nodes
      modifies cur`chains, cur`nodes, cur.buckets, cur.nodes`hashNext, cur.nodes`groupNext, cur.nodes`groupPrev
      modifies snap`chains, snap`nodes, snap.buckets, snap.nodes`hashNext, snap.nodes`groupNext, snap.nodes`groupPrev
      modifies curGroups`groups, curGroups`members, snapGroups`groups, snapGroups`members, Stacks()`groupHead
      ensures cur.Valid() && cur.UniquePtrs() && cur.nodes == old(cur.nodes) - {n}
      ensures snap.Valid() && snap.UniquePtrs() && snap.nodes == old(snap.nodes) - {m}
      ensures curGroups.Valid() && curGroups.members == old(cur.nodes) - {n}
      ensures snapGroups.Valid() && snapGroups.members == old(snap.nodes) - {m}
      ensures snapGroups.groups.Keys == Stacks() == old(Stacks())
      ensures n.hashNext == old(n.hashNext) && CutOut(n, k, old(cur.chains), cur.chains)
      ensures n.live && m.live && LeftGroup(m, old(snapGroups.groups), snapGroups.groups)
    {
      hide PtrTable.Valid, GroupLists.Valid, PtrTable.UniquePtrs, Interned, LeftGroup;
      AllLive();
      k := RemovePair(n, m);
      UnlinkPair(n, m);
    }

    lemma AllLive()
      requires Valid()
      ensures forall n :: n in cur.nodes + snap.nodes ==> n.live
    {
    }

    /** `after` is `before` without `n`, which stood at position `k` of its chain. */
    ghost predicate CutOut(n: BlockNode, k: nat, before: seq<seq<BlockNode>>, after: seq<seq<BlockNode>>)
    {
      && |before| == cur.buckets.Length > 0
      && var h := cur.Hash(n.memblk.ptr);
      && k < |before[h]| && before[h][k] == n
      && after == before[h := RemoveAt(before[h], k)]
    }

    /** Take both blocks of a pair out of their tables; `k` is where `n` stood in its chain. */
    method RemovePair(n: BlockNode, m: BlockNode) returns (ghost k: nat)
      requires cur.Valid() && cur.UniquePtrs() && n in cur.nodes
      requires snap.Valid() && snap.UniquePtrs() && m in snap.nodes
      requires cur != snap && cur.buckets != snap.buckets && cur.nodes !! snap.nodes
      modifies cur`chains, cur`nodes, cur.buckets, cur.nodes`hashNext
      modifies snap`chains, snap`nodes, snap.buckets, snap.nodes`hashNext
      ensures cur.Valid() && cur.UniquePtrs() && cur.nodes == old(cur.nodes) - {n}
      ensures snap.Valid() && snap.UniquePtrs() && snap.nodes == old(snap.nodes) - {m}
      ensures n.hashNext == old(n.hashNext) && CutOut(n, k, old(cur.chains), cur.chains)
      ensures n.live && m.live
    {
      var s, _ := snap.Remove(m.memblk.ptr);
      assert s == m;
      var c;
      c, k := cur.Remove(n.memblk.ptr);
      assert c == n;
    }

    /** Take both blocks of a pair out of their group lists. */
    method UnlinkPair(n: BlockNode, m: BlockNode)
      requires curGroups.Valid() && curGroups.link == LINK_CURRENT && n in curGroups.members
      requires snapGroups.Valid() && snapGroups.link == LINK_SNAPSHOT && m in snapGroups.members
      requires curGroups != snapGroups && snapGroups.groups.Keys == Stacks()
      requires curGroups.members !! snapGroups.members
      requires forall n :: n in curGroups.members + snapGroups.members ==> n.live
      modifies curGroups`groups, curGroups`members, snapGroups`groups, snapGroups`members, Stacks()`groupHead
      modifies curGroups.members`groupNext, curGroups.members`groupPrev
      modifies snapGroups.members`groupNext, snapGroups.members`groupPrev
      ensures curGroups.Valid() && curGroups.members == old(curGroups.members) - {n}
      ensures snapGroups.Valid() && snapGroups.members == old(snapGroups.members) - {m}
      ensures snapGroups.groups.Keys == Stacks() == old(Stacks())
      ensures LeftGroup(m, old(snapGroups.groups), snapGroups.groups)
    {
      hide GroupLists.Valid;
      OneEach(m);
      ghost var k := UnlinkKeeping(snapGroups, m, curGroups);
      ghost var _ := UnlinkKeeping(curGroups, n, snapGroups);
      RemoveIsWithout(old(snapGroups.groups)[m.allocator], k);
    }

    lemma OneEach(m: BlockNode)
      requires snapGroups.Valid() && m in snapGroups.members
      ensures m.allocator in snapGroups.groups && Distinct(snapGroups.groups[m.allocator])
    {
    }

    /**
      Half-way through offsetting: the walk stands at position `k` of chain `b` of the current table,
      `visited` are the current blocks it has met, in order, `prevCur` and `prevSnap` the pair it has
      taken out but not yet given back, and `a` what there was at the start.
     */
    ghost predicate Going(b: nat, k: nat, visited: seq<BlockNode>, prevCur: BlockNode?, prevSnap: BlockNode?,
                          a: Began)
      reads this, cur, cur.buckets, cur.nodes, snap, snap.buckets, snap.nodes
      reads curGroups, curGroups.groups.Keys`groupHead, curGroups.members
      reads snapGroups, snapGroups.groups.Keys`groupHead, snapGroups.members
      reads a.cur`live, a.snap`live
    {
      && Valid()
      && Accounts(Stacks(), a.cur, a.snap, cur.nodes, snap.nodes, cur.chains, b, k, visited)
      && LiveAre(a.cur, cur.nodes, prevCur) && LiveAre(a.snap, snap.nodes, prevSnap)
      && Planned(a, Left(cur.nodes, snap.nodes), cur.chains, b, k, visited, snapGroups.groups)
    }

    /**
      Cancel current blocks against snapshot blocks of the same allocator and size. `visited` lists
      the current blocks in the order the loop met them.
     */
    method Offset() returns (numCur: int, numSnap: int, ghost visited: seq<BlockNode>)
      requires Valid()
      modifies cur`chains, cur`nodes, cur.buckets, cur.nodes
      modifies snap`chains, snap`nodes, snap.buckets, snap.nodes
      modifies curGroups`groups, curGroups`members, snapGroups`groups, snapGroups`members, Stacks()`groupHead
      ensures Valid() && Stacks() == old(Stacks())
      ensures cur.nodes <= old(cur.nodes) && snap.nodes <= old(snap.nodes)
      ensures Balanced(Stacks(), old(cur.nodes), old(snap.nodes), cur.nodes, snap.nodes)
      ensures forall n, m :: n in cur.nodes && m in snap.nodes ==> !SameKind(n, m)
      ensures numCur == |cur.nodes| && numSnap == |snap.nodes|
      ensures Distinct(visited) && Elements(visited) == old(cur.nodes)
      ensures LiveAre(old(cur.nodes), cur.nodes, null) && LiveAre(old(snap.nodes), snap.nodes, null)
      ensures visited == old(Beginning().walk) && Left(cur.nodes, snap.nodes) == After(old(Beginning()), visited)
    {
      hide Going, Accounts, LiveAre, Valid, PtrTable.Valid, Balanced, Distinct, SameKind, Passed, Elements, Stacks;
      hide Planned, After, Coming;
      Start();
      numCur := cur.CountNodes();
      numSnap := snap.CountNodes();
      visited := [];
      ghost var a := Beginning();
      var prevCur: BlockNode?, prevSnap: BlockNode? := null, null;
      var b := 0;
      while b < cur.buckets.Length
        invariant b <= cur.buckets.Length == |cur.chains|
        invariant Going(b, 0, visited, prevCur, prevSnap, a)
        invariant Stacks() == old(Stacks())
        invariant numCur == |cur.nodes| && numSnap == |snap.nodes|
      {
        numCur, numSnap, prevCur, prevSnap, visited :=
          OffsetRow(b, numCur, numSnap, prevCur, prevSnap, visited, a);
        b := b + 1;
      }
      GiveBack(prevCur, prevSnap, b, 0, visited, a);
      Finish(visited, a);
    }

    /** The inner loop: go along bucket `b`. */
    method OffsetRow(b: nat, numCur: int, numSnap: int, prevCur: BlockNode?, prevSnap: BlockNode?,
                     ghost visited: seq<BlockNode>, ghost a: Began)
      returns (numCur': int, numSnap': int, prevCur': BlockNode?, prevSnap': BlockNode?, ghost visited': seq<BlockNode>)
      requires Going(b, 0, visited, prevCur, prevSnap, a) && b < |cur.chains| == cur.buckets.Length
      requires numCur == |cur.nodes| && numSnap == |snap.nodes|
      modifies cur`chains, cur`nodes, cur.buckets, a.cur, snap`chains, snap`nodes, snap.buckets, a.snap
      modifies curGroups`groups, curGroups`members, snapGroups`groups, snapGroups`members, Stacks()`groupHead
      ensures Going(b + 1, 0, visited', prevCur', prevSnap', a)
      ensures |cur.chains| == |old(cur.chains)| && Stacks() == old(Stacks())
      ensures numCur' == |cur.nodes| && numSnap' == |snap.nodes|
    {
      hide Going, Accounts, LiveAre, Valid, PtrTable.Valid, Distinct, SameKind, Passed, Stacks;
      numCur', numSnap', prevCur', prevSnap', visited' := numCur, numSnap, prevCur, prevSnap, visited;
      var n := cur.buckets[b];
      ghost var k := 0;
      Heads(b, visited, prevCur, prevSnap, a);
      while n != null
        invariant |cur.chains| == |old(cur.chains)| == cur.buckets.Length && Stacks() == old(Stacks())
        invariant k <= |cur.chains[b]| && n == NodeAt(cur.chains[b], k)
        invariant Going(b, k, visited', prevCur', prevSnap', a)
        invariant numCur' == |cur.nodes| && numSnap' == |snap.nodes|
        decreases |cur.chains[b]| - k
      {
        var m := Round(n, prevCur', prevSnap', b, k, visited', a);
        visited' := visited' + [n];
        if m != null {
          numCur' := numCur' - 1;
          numSnap' := numSnap' - 1;
          prevSnap' := m;
          prevCur' := n;
        } else {
          prevSnap' := null;
          prevCur' := null;
          k := k + 1;
        }
        n := n.HashNext();
      }
      RowDone(b, visited', prevCur', prevSnap', a);
    }

    ghost function Beginning(): Began
      reads cur, snap, snapGroups
    {
      Began(cur.nodes, snap.nodes, Coming(cur.chains, 0, 0), snapGroups.groups)
    }

    lemma Start()
      requires Valid()
      ensures Going(0, 0, [], null, null, Beginning())
      ensures cur.Valid() && snap.Valid() && cur.buckets.Length == |cur.chains|
    {
      cur.WalkStart();
      cur.SomeBucket();
      PlannedStart(Beginning(), cur.chains);
    }

    lemma Heads(b: nat, visited: seq<BlockNode>, prevCur: BlockNode?, prevSnap: BlockNode?,
                a: Began)
      requires Going(b, 0, visited, prevCur, prevSnap, a) && b < |cur.chains| == cur.buckets.Length
      ensures cur.buckets[b] == NodeAt(cur.chains[b], 0)
    {
    }

    lemma RowDone(b: nat, visited: seq<BlockNode>, prevCur: BlockNode?, prevSnap: BlockNode?,
                  a: Began)
      requires b < |cur.chains| && Going(b, |cur.chains[b]|, visited, prevCur, prevSnap, a)
      ensures Going(b + 1, 0, visited, prevCur, prevSnap, a)
    {
      PassRow(cur.chains, b);
      PlannedRow(a, Left(cur.nodes, snap.nodes), cur.chains, b, visited, snapGroups.groups);
    }

    lemma Finish(visited: seq<BlockNode>, a: Began)
      requires Going(|cur.chains|, 0, visited, null, null, a)
      ensures Valid() && cur.nodes <= a.cur && snap.nodes <= a.snap
      ensures Balanced(Stacks(), a.cur, a.snap, cur.nodes, snap.nodes)
      ensures forall n, m :: n in cur.nodes && m in snap.nodes ==> !SameKind(n, m)
      ensures Distinct(visited) && Elements(visited) == a.cur
      ensures LiveAre(a.cur, cur.nodes, null) && LiveAre(a.snap, snap.nodes, null)
      ensures visited == a.walk && Left(cur.nodes, snap.nodes) == After(a, visited)
    {
      cur.WalkStart();
    }

    /** One round of the offset loop: give the last pair back, then deal with `n`. */
    method Round(n: BlockNode, prevCur: BlockNode?, prevSnap: BlockNode?, ghost b: nat, ghost k: nat,
                 ghost visited: seq<BlockNode>, ghost a: Began)
      returns (m: BlockNode?)
      requires Going(b, k, visited, prevCur, prevSnap, a)
      requires b < |cur.chains| && k < |cur.chains[b]| && cur.chains[b][k] == n
      modifies cur`chains, cur`nodes, cur.buckets, a.cur, snap`chains, snap`nodes, snap.buckets, a.snap
      modifies curGroups`groups, curGroups`members, snapGroups`groups, snapGroups`members, Stacks()`groupHead
      ensures m == null ==> Going(b, k + 1, visited + [n], null, null, a)
      ensures m != null ==> Going(b, k, visited + [n], n, m, a)
      ensures |cur.chains| == |old(cur.chains)| == cur.buckets.Length
      ensures |cur.chains[b]| == |old(cur.chains)[b]| - if m == null then 0 else 1
      ensures |cur.nodes| == |old(cur.nodes)| - if m == null then 0 else 1
      ensures |snap.nodes| == |old(snap.nodes)| - if m == null then 0 else 1
      ensures n.live && n.hashNext == NodeAt(cur.chains[b], if m == null then k + 1 else k)
      ensures Stacks() == old(Stacks())
    {
      hide Going, Accounts, LiveAre, Valid, PtrTable.Valid, Distinct, SameKind, Passed, Stacks;
      GiveBack(prevCur, prevSnap, b, k, visited, a);
      m := Visit(n, b, k, visited, a);
    }

    /** The rest of a round, once the last pair is back in the pool. */
    method Visit(n: BlockNode, ghost b: nat, ghost k: nat,
                 ghost visited: seq<BlockNode>, ghost a: Began)
      returns (m: BlockNode?)
      requires Going(b, k, visited, null, null, a)
      requires b < |cur.chains| && k < |cur.chains[b]| && cur.chains[b][k] == n
      modifies cur`chains, cur`nodes, cur.buckets, cur.nodes`hashNext, cur.nodes`groupNext, cur.nodes`groupPrev
      modifies snap`chains, snap`nodes, snap.buckets, snap.nodes`hashNext, snap.nodes`groupNext, snap.nodes`groupPrev
      modifies curGroups`groups, curGroups`members, snapGroups`groups, snapGroups`members, Stacks()`groupHead
      ensures m == null ==> Going(b, k + 1, visited + [n], null, null, a)
      ensures m == null ==>
        cur.chains == old(cur.chains) && snap.nodes == old(snap.nodes) && cur.nodes == old(cur.nodes)
      ensures m != null ==> Going(b, k, visited + [n], n, m, a)
      ensures m != null ==> |cur.chains| == |old(cur.chains)| && |cur.chains[b]| == |old(cur.chains)[b]| - 1
      ensures m != null ==> cur.nodes == old(cur.nodes) - {n} && snap.nodes == old(snap.nodes) - {m}
      ensures m != null ==> n in old(cur.nodes) && m in old(snap.nodes)
      ensures b < |cur.chains| == cur.buckets.Length
      ensures n.live && n.hashNext == NodeAt(cur.chains[b], if m == null then k + 1 else k)
      ensures Stacks() == old(Stacks())
      ensures forall s :: s in old(snap.nodes) && s.memblk.ptr == n.memblk.ptr && SameKind(n, s) ==> m == s
    {
      hide Accounts, LiveAre, Valid, PtrTable.Valid, Distinct, Planned, Partner, Without;
      Here(n, b, k, visited, a);
      ghost var j;
      m, j := OffsetOne(n);
      if m == null {
        PlannedKept(a, Left(cur.nodes, snap.nodes), cur.chains, b, k, visited, snapGroups.groups, n);
        AccountKept(Stacks(), a.cur, a.snap, cur.nodes, snap.nodes, cur.chains, b, k, visited, n);
      } else {
        SamePlace(old(cur.chains[b]), j, k);
        ghost var l := old(Left(cur.nodes, snap.nodes));
        PlannedCancelled(a, l, old(cur.chains), b, k, visited, old(snapGroups.groups), n, m);
        AccountCancelled(Stacks(), a.cur, a.snap, l.cur, l.snap, old(cur.chains), b, k, visited, n, m);
        TakenOut(a.cur, old(cur.nodes), n);
        TakenOut(a.snap, old(snap.nodes), m);
      }
    }

    /** What `Going` says about the node the walk stands on. */
    lemma Here(n: BlockNode, b: nat, k: nat, visited: seq<BlockNode>, a: Began)
      requires Going(b, k, visited, null, null, a)
      requires b < |cur.chains| && k < |cur.chains[b]| && cur.chains[b][k] == n
      ensures n in cur.nodes && cur.buckets.Length == |cur.chains| && cur.Hash(n.memblk.ptr) == b
      ensures n.live && n.hashNext == NodeAt(cur.chains[b], k + 1)
      ensures n !in Passed(cur.chains, b, k) && Passed(cur.chains, b, k + 1) == Passed(cur.chains, b, k) + {n}
      ensures Distinct(cur.chains[b]) && cur.nodes <= a.cur && snap.nodes <= a.snap
    {
      cur.WalkAt(b, k);
    }

    /** Give the pair of the previous round back to the pool. */
    method GiveBack(prevCur: BlockNode?, prevSnap: BlockNode?, ghost b: nat, ghost k: nat,
                    ghost visited: seq<BlockNode>, ghost a: Began)
      requires Going(b, k, visited, prevCur, prevSnap, a)
      modifies a.cur, a.snap
      ensures Going(b, k, visited, null, null, a)
      ensures cur.nodes == old(cur.nodes) && cur.chains == old(cur.chains) && Stacks() == old(Stacks())
      ensures snap.nodes == old(snap.nodes) && cur.nodes <= a.cur && snap.nodes <= a.snap
    {
      hide PtrTable.Valid, GroupLists.Valid, PtrTable.UniquePtrs, Interned, Balanced;
      FreeIfNotNull(prevSnap);
      FreeIfNotNull(prevCur);
    }
  }

  /** `visited` and the blocks still `ahead` make up `all`, without overlap. */
  ghost predicate Seen(visited: seq<BlockNode>, ahead: set<BlockNode>, all: set<BlockNode>)
  {
    all == Elements(visited) + ahead && Elements(visited) !! ahead
  }

  /** The heap-independent part of `Going`. */
  ghost predicate Accounts(stacks: set<Callstack>, cur0: set<BlockNode>, snap0: set<BlockNode>, cur: set<BlockNode>,
                           snap: set<BlockNode>, chains: seq<seq<BlockNode>>, b: nat, k: nat, visited: seq<BlockNode>)
  {
    && cur0 !! snap0 && cur <= cur0 && snap <= snap0
    && Balanced(stacks, cur0, snap0, cur, snap)
    && b <= |chains| && (b < |chains| ==> k <= |chains[b]|) && (b == |chains| ==> k == 0)
    && (forall n, m :: n in Passed(chains, b, k) && m in snap ==> !SameKind(n, m))
    && Distinct(visited) && Seen(visited, cur - Passed(chains, b, k), cur0)
  }

  /** Of the blocks there were at the start, just those of the table and `prev` are not given back. */
  ghost predicate LiveAre(all: set<BlockNode>, nodes: set<BlockNode>, prev: BlockNode?)
    reads all`live
  {
    && (prev != null ==> prev in all && prev !in nodes)
    && (forall n :: n in all ==> (n.live <==> n in nodes || n == prev))
  }

  lemma TakenOut(all: set<BlockNode>, nodes: set<BlockNode>, n: BlockNode)
    requires LiveAre(all, nodes, null) && n in nodes && nodes <= all
    ensures LiveAre(all, nodes - {n}, n)
  {
  }

  lemma SamePlace(s: seq<BlockNode>, j: nat, k: nat)
    requires Distinct(s) && j < |s| && k < |s| && s[j] == s[k]
    ensures j == k
  {
  }

  lemma AccountKept(stacks: set<Callstack>, cur0: set<BlockNode>, snap0: set<BlockNode>, cur: set<BlockNode>,
                    snap: set<BlockNode>, chains: seq<seq<BlockNode>>, b: nat, k: nat, visited: seq<BlockNode>,
                    n: BlockNode)
    requires Accounts(stacks, cur0, snap0, cur, snap, chains, b, k, visited)
    requires b < |chains| && k < |chains[b]| && chains[b][k] == n
    requires n in cur && n !in Passed(chains, b, k) && Passed(chains, b, k + 1) == Passed(chains, b, k) + {n}
    requires forall m :: m in snap ==> !SameKind(n, m)
    ensures Accounts(stacks, cur0, snap0, cur, snap, chains, b, k + 1, visited + [n])
  {
    hide Passed, Balanced;
    assert Elements(visited + [n]) == Elements(visited) + {n};
  }

  lemma AccountCancelled(stacks: set<Callstack>, cur0: set<BlockNode>, snap0: set<BlockNode>, cur: set<BlockNode>,
                         snap: set<BlockNode>, chains: seq<seq<BlockNode>>, b: nat, k: nat, visited: seq<BlockNode>,
                         n: BlockNode, m: BlockNode)
    requires Accounts(stacks, cur0, snap0, cur, snap, chains, b, k, visited)
    requires b < |chains| && k < |chains[b]| && chains[b][k] == n
    requires n in cur && n !in Passed(chains, b, k) && m in snap && SameKind(n, m)
    ensures Accounts(stacks, cur0, snap0, cur - {n}, snap - {m}, chains[b := RemoveAt(chains[b], k)],
                     b, k, visited + [n])
  {
    assert RemoveAt(chains[b], k)[..k] == chains[b][..k];
    PassedSame(chains, b, k, RemoveAt(chains[b], k));
    CancelPair(stacks, cur0, snap0, cur, snap, n, m);
    hide Passed, Balanced;
    assert Elements(visited + [n]) == Elements(visited) + {n};
  }

  /** Free the node unless it is null. */
  method FreeIfNotNull(n: BlockNode?)
    requires n != null ==> n.live
    modifies n
    ensures n != null ==> !n.live
  {
    if n != null {
      FreeNode(n);
    }
  }
}

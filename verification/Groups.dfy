/** The doubly linked list of blocks that hangs off each call stack (memchk_callstack.c). */
module CallstackGroups {
  import opened Blocks
  import opened Chains
  import opened PtrHashtable

  /** `head` starts a list whose `groupNext` and `groupPrev` links visit exactly `s`, both ways. */
  ghost predicate Linked(head: BlockNode?, s: seq<BlockNode>)
    reads s`groupNext, s`groupPrev
  {
    && head == NodeAt(s, 0)
    && (forall i {:trigger s[i].groupNext} :: 0 <= i < |s| ==> s[i].groupNext == NodeAt(s, i + 1))
    && (forall i {:trigger s[i].groupPrev} :: 0 <= i < |s| ==> s[i].groupPrev == if i == 0 then null else s[i - 1])
  }

  /** None of these blocks has been given back. */
  ghost predicate AllLive(s: seq<BlockNode>)
    reads s`live
  {
    forall i {:trigger s[i].live} :: 0 <= i < |s| ==> s[i].live
  }

  /** Put `b` in front of a list; the result is the new head. */
  method LinkFront(b: BlockNode, head: BlockNode?, ghost s: seq<BlockNode>) returns (newHead: BlockNode)
    requires Linked(head, s) && Distinct(s) && b !in s
    requires b.live && AllLive(s)
    modifies b`groupNext, b`groupPrev, s`groupPrev
    ensures newHead == b && Linked(newHead, [b] + s) && Distinct([b] + s)
  {
    b.groupPrev := null;
    b.groupNext := head;
    if head != null {
      head.groupPrev := b;
    }
    newHead := b;
  }

  /** Take `b`, at position `k`, out of a list; the result is the new head. */
  method UnlinkFrom(b: BlockNode, head: BlockNode?, ghost s: seq<BlockNode>, ghost k: nat) returns (newHead: BlockNode?)
    requires Linked(head, s) && Distinct(s) && k < |s| && s[k] == b
    requires AllLive(s)
    modifies s`groupNext, s`groupPrev
    ensures Linked(newHead, RemoveAt(s, k)) && Distinct(RemoveAt(s, k))
  {
    hide RemoveAt;
    newHead := head;
    if b.GroupPrev() == null {
      newHead := b.GroupNext();
      if b.GroupNext() != null {
        b.GroupNext().groupPrev := null;
      }
    } else {
      b.GroupPrev().groupNext := b.GroupNext();
      if b.GroupNext() != null {
        b.GroupNext().groupPrev := b.GroupPrev();
      }
    }
    ghost var r := RemoveAt(s, k);
    forall i | 0 <= i < |r|
      ensures r[i].groupNext == NodeAt(r, i + 1)
      ensures r[i].groupPrev == if i == 0 then null else r[i - 1]
    {
      assert r[i] == s[if i < k then i else i + 1];
      assert i + 1 < |r| ==> r[i + 1] == s[if i + 1 < k then i + 1 else i + 2];
      assert i > 0 ==> r[i - 1] == s[if i - 1 < k then i - 1 else i];
    }
    StillDistinct(s, k);
  }

  lemma StillDistinct(s: seq<BlockNode>, k: nat)
    requires Distinct(s) && k < |s|
    ensures Distinct(RemoveAt(s, k))
  {
    hide RemoveAt;
  }

  /** The lists of one link index: `groups[cs]` is the list headed by `cs`, front first. */
  class GroupLists {
    const link: nat
    ghost var groups: map<Callstack, seq<BlockNode>>
    ghost var members: set<BlockNode>

    ghost predicate Valid()
      reads this, groups.Keys`groupHead, members`groupNext, members`groupPrev
    {
      && link < LINK_MAX
      && GroupShape(groups, members)
      && (forall cs {:trigger groups[cs]} :: cs in groups ==>
            |cs.groupHead| == LINK_MAX && Linked(cs.groupHead[link], groups[cs]))
    }

    /** All heads are empty: how every comparison has to find the call stacks, and leaves them. */
    constructor (link: nat, ghost callstacks: set<Callstack>)
      requires link < LINK_MAX
      requires forall cs :: cs in callstacks ==> |cs.groupHead| == LINK_MAX && cs.groupHead[link] == null
      ensures Valid() && members == {} && this.link == link && groups.Keys == callstacks
    {
      this.link := link;
      groups := map cs | cs in callstacks :: [];
      members := {};
    }

    /** Nothing this object depends on has changed. */
    twostate lemma Kept()
      requires old(Valid()) && groups == old(groups) && members == old(members)
      requires forall cs {:trigger cs.groupHead} :: cs in groups ==>
        |cs.groupHead| == |old(cs.groupHead)| == LINK_MAX && cs.groupHead[link] == old(cs.groupHead)[link]
      requires forall n :: n in members ==> n.groupNext == old(n.groupNext) && n.groupPrev == old(n.groupPrev)
      ensures Valid()
    {
      forall cs | cs in groups
        ensures Linked(cs.groupHead[link], groups[cs])
      {
        assert old(Linked(cs.groupHead[link], groups[cs]));
        assert forall i :: 0 <= i < |groups[cs]| ==> groups[cs][i] in members;
      }
    }

    lemma LiveList(cs: Callstack)
      requires Valid() && cs in groups && forall n :: n in members ==> n.live
      ensures AllLive(groups[cs])
    {
      assert forall i :: 0 <= i < |groups[cs]| ==> groups[cs][i] in members;
    }

    lemma AllocatorKnown(b: BlockNode)
      requires Valid() && b in members
      ensures b.allocator in groups
    {
    }

    method Link(b: BlockNode)
      requires Valid() && b !in members && b.allocator in groups
      requires b.live && forall n :: n in members ==> n.live
      modifies `groups, `members, b`groupNext, b`groupPrev, b.allocator`groupHead, members`groupPrev
      ensures Valid() && members == old(members) + {b}
      ensures groups == old(groups)[b.allocator := [b] + old(groups)[b.allocator]]
      ensures groups.Keys == old(groups).Keys
      ensures forall cs {:trigger cs.groupHead} :: cs in groups ==>
        |cs.groupHead| == |old(cs.groupHead)| == LINK_MAX
        && cs.groupHead[1 - link] == old(cs.groupHead)[1 - link]
    {
      hide Linked;
      var cs := b.allocator;
      ghost var g := groups[cs];
      LiveList(cs);
      GroupShapeAdd(groups, members, b);
      hide GroupShape;
      groups := groups[cs := [b] + g];
      members := members + {b};
      var head := LinkFront(b, cs.groupHead[link], g);
      cs.groupHead := cs.groupHead[link := head];
      AllLists(old(groups), old(members), groups, link, cs);
    }

    /** Take `b`, at position `k` of its allocator's list, out of that list; nothing else changes. */
    method Unlink(b: BlockNode) returns (ghost k: nat)
      requires Valid() && b in members && forall n :: n in members ==> n.live
      modifies `groups, `members, b.allocator`groupHead, members`groupNext, members`groupPrev
      ensures Valid() && members == old(members) - {b}
      ensures k < |old(groups)[b.allocator]| && old(groups)[b.allocator][k] == b
      ensures groups == old(groups)[b.allocator := RemoveAt(old(groups)[b.allocator], k)]
      ensures groups.Keys == old(groups).Keys
      ensures forall cs {:trigger cs.groupHead} :: cs in groups ==>
        |cs.groupHead| == |old(cs.groupHead)| == LINK_MAX
        && cs.groupHead[1 - link] == old(cs.groupHead)[1 - link]
    {
      hide Linked;
      var cs := b.allocator;
      ghost var g := groups[cs];
      LiveList(cs);
      k :| 0 <= k < |g| && g[k] == b;
      GroupShapeRemove(groups, members, cs, k);
      hide GroupShape;
      groups := groups[cs := RemoveAt(g, k)];
      members := members - {b};
      var head := UnlinkFrom(b, cs.groupHead[link], g, k);
      cs.groupHead := cs.groupHead[link := head];
      AllLists(old(groups), old(members), groups, link, cs);
    }
  }

  /** The list of `cs` once the blocks of `walk` have been linked, one after the other, each in front. */
  ghost function LinkOrder(walk: seq<BlockNode>, cs: Callstack): seq<BlockNode>
  {
    if walk == [] then []
    else
      var n := walk[|walk| - 1];
      (if n.allocator == cs then [n] else []) + LinkOrder(walk[..|walk| - 1], cs)
  }

  ghost predicate InLinkOrder(groups: map<Callstack, seq<BlockNode>>, walk: seq<BlockNode>)
  {
    forall cs {:trigger groups[cs]} :: cs in groups ==> groups[cs] == LinkOrder(walk, cs)
  }

  lemma LinkedOne(groups: map<Callstack, seq<BlockNode>>, walk: seq<BlockNode>, n: BlockNode)
    requires InLinkOrder(groups, walk) && n.allocator in groups
    ensures InLinkOrder(groups[n.allocator := [n] + groups[n.allocator]], walk + [n])
  {
    assert (walk + [n])[..|walk|] == walk;
    assert forall cs :: LinkOrder(walk + [n], cs) == (if n.allocator == cs then [n] else []) + LinkOrder(walk, cs);
  }

  lemma LinkedNone(lists: GroupLists)
    requires lists.Valid() && lists.members == {}
    ensures InLinkOrder(lists.groups, [])
  {
    ListsWithin(lists);
  }

  lemma ListsWithin(lists: GroupLists)
    requires lists.Valid()
    ensures forall cs, i {:trigger lists.groups[cs][i]} :: cs in lists.groups && 0 <= i < |lists.groups[cs]| ==>
      lists.groups[cs][i] in lists.members
    ensures forall cs {:trigger lists.groups[cs]} :: cs in lists.groups && lists.groups[cs] != [] ==>
      lists.members != {}
  {
    forall cs | cs in lists.groups && lists.groups[cs] != []
      ensures lists.members != {}
    {
      assert lists.groups[cs][0] in lists.members;
    }
  }

  /** Put every block of a table into its allocator's list (`mc_link_same_callstack_group`). */
  method LinkSameCallstackGroup(t: PtrTable, lists: GroupLists, ghost other: GroupLists)
    requires t.Valid() && lists.Valid() && lists.members == {}
    requires other.Valid() && other.link == 1 - lists.link && lists != other
    requires other.groups.Keys == lists.groups.Keys && t.nodes !! other.members
    requires forall n :: n in t.nodes ==> n.allocator in lists.groups
    modifies lists`groups, lists`members, lists.groups.Keys`groupHead, t.nodes`groupNext, t.nodes`groupPrev
    ensures t.Valid() && lists.Valid() && other.Valid()
    ensures lists.members == t.nodes && lists.groups.Keys == old(lists.groups.Keys)
    ensures InLinkOrder(lists.groups, Coming(t.chains, 0, 0))
  {
    hide Passed, PtrTable.Valid, GroupLists.Valid, Coming, InLinkOrder;
    t.WalkStart();
    LinkedNone(lists);
    ghost var done: seq<BlockNode> := [];
    var b := 0;
    while b < t.buckets.Length
      invariant b <= t.buckets.Length == |t.chains|
      invariant t.Valid() && lists.Valid() && other.Valid()
      invariant lists.members == Passed(t.chains, b, 0) && lists.groups.Keys == old(lists.groups.Keys)
      invariant done + Coming(t.chains, b, 0) == Coming(t.chains, 0, 0) && InLinkOrder(lists.groups, done)
    {
      t.HeadAt(b);
      var n := t.buckets[b];
      ghost var k := 0;
      while n != null
        invariant k <= |t.chains[b]| && n == NodeAt(t.chains[b], k)
        invariant t.Valid() && lists.Valid() && other.Valid()
        invariant lists.members == Passed(t.chains, b, k) && lists.groups.Keys == old(lists.groups.Keys)
        invariant done + Coming(t.chains, b, k) == Coming(t.chains, 0, 0) && InLinkOrder(lists.groups, done)
        decreases |t.chains[b]| - k
      {
        t.WalkAt(b, k);
        done := LinkNext(t, lists, n, b, k, done, other);
        n := n.HashNext();
        k := k + 1;
      }
      PassRow(t.chains, b);
      ComingRow(t.chains, b);
      b := b + 1;
    }
    ComingEnd(t.chains);
    assert done == Coming(t.chains, 0, 0);
  }

  /** One step of the walk: link the block it stands on. */
  method LinkNext(ghost t: PtrTable, lists: GroupLists, n: BlockNode, ghost b: nat, ghost k: nat,
                  ghost done: seq<BlockNode>, ghost other: GroupLists)
    returns (ghost done': seq<BlockNode>)
    requires t.Valid() && b < |t.chains| && k < |t.chains[b]| && n == t.chains[b][k]
    requires lists.Valid() && lists.members == Passed(t.chains, b, k) && n.allocator in lists.groups
    requires other.Valid() && other.link == 1 - lists.link && lists != other
    requires other.groups.Keys == lists.groups.Keys && t.nodes !! other.members
    requires done + Coming(t.chains, b, k) == Coming(t.chains, 0, 0) && InLinkOrder(lists.groups, done)
    modifies lists`groups, lists`members, lists.groups.Keys`groupHead, t.nodes`groupNext, t.nodes`groupPrev
    ensures t.Valid() && lists.Valid() && other.Valid()
    ensures lists.members == Passed(t.chains, b, k + 1) && lists.groups.Keys == old(lists.groups.Keys)
    ensures done' + Coming(t.chains, b, k + 1) == Coming(t.chains, 0, 0) && InLinkOrder(lists.groups, done')
    ensures n.live && n.hashNext == NodeAt(t.chains[b], k + 1)
  {
    hide Passed, PtrTable.Valid, GroupLists.Valid, Coming, InLinkOrder;
    t.WalkAt(b, k);
    t.PassedInNodes(b, k);
    AllPassedLive(t, b, k);
    LinkedOne(lists.groups, done, n);
    LinkKeeping(lists, n, other);
    ComingStep(t.chains, b, k);
    done' := done + [n];
  }

  lemma AllPassedLive(t: PtrTable, b: nat, k: nat)
    requires t.Valid() && b < |t.chains| && k < |t.chains[b]|
    ensures t.chains[b][k].live && forall n :: n in Passed(t.chains, b, k) ==> n.live
  {
    t.PassedInNodes(b, k);
  }

  /** Linking a block into one kind of list leaves the lists of the other kind intact. */
  method LinkKeeping(lists: GroupLists, b: BlockNode, ghost other: GroupLists)
    requires lists.Valid() && b !in lists.members && b.allocator in lists.groups
    requires b.live && forall n :: n in lists.members ==> n.live
    requires other.Valid() && other.link == 1 - lists.link && lists != other
    requires other.groups.Keys == lists.groups.Keys && lists.members !! other.members && b !in other.members
    modifies lists`groups, lists`members, lists.groups.Keys`groupHead
    modifies lists.members`groupPrev, b`groupNext, b`groupPrev
    ensures lists.Valid() && lists.members == old(lists.members) + {b}
    ensures lists.groups == old(lists.groups)[b.allocator := [b] + old(lists.groups)[b.allocator]]
    ensures other.Valid()
  {
    hide GroupLists.Valid;
    lists.Link(b);
    assert forall cs :: cs in other.groups ==> cs in lists.groups;
    other.Kept();
  }

  /** Unlinking a block of one kind of list leaves the lists of the other kind intact. */
  method UnlinkKeeping(lists: GroupLists, b: BlockNode, ghost other: GroupLists) returns (ghost k: nat)
    requires lists.Valid() && b in lists.members && forall n :: n in lists.members ==> n.live
    requires other.Valid() && other.link == 1 - lists.link && lists != other
    requires other.groups.Keys == lists.groups.Keys && lists.members !! other.members
    modifies lists`groups, lists`members, lists.groups.Keys`groupHead
    modifies lists.members`groupNext, lists.members`groupPrev
    ensures lists.Valid() && lists.members == old(lists.members) - {b}
    ensures b.allocator in old(lists.groups)
    ensures k < |old(lists.groups)[b.allocator]| && old(lists.groups)[b.allocator][k] == b
    ensures lists.groups == old(lists.groups)[b.allocator := RemoveAt(old(lists.groups)[b.allocator], k)]
    ensures other.Valid()
  {
    hide GroupLists.Valid;
    lists.AllocatorKnown(b);
    k := lists.Unlink(b);
    assert forall cs :: cs in other.groups ==> cs in lists.groups;
    other.Kept();
  }

  /** Each block is in its allocator's list, once; the lists hold exactly `members`. */
  ghost predicate GroupShape(groups: map<Callstack, seq<BlockNode>>, members: set<BlockNode>)
  {
    && (forall cs {:trigger groups[cs]} :: cs in groups ==> Distinct(groups[cs]))
    && (forall cs, i {:trigger groups[cs][i]} :: cs in groups && 0 <= i < |groups[cs]| ==>
          groups[cs][i] in members && groups[cs][i].allocator == cs)
    && (forall n :: n in members ==> n.allocator in groups && n in groups[n.allocator])
  }

  lemma GroupShapeRemove(groups: map<Callstack, seq<BlockNode>>, members: set<BlockNode>, cs: Callstack, k: nat)
    requires GroupShape(groups, members) && cs in groups && k < |groups[cs]|
    ensures GroupShape(groups[cs := RemoveAt(groups[cs], k)], members - {groups[cs][k]})
  {
    var g, n := groups[cs], groups[cs][k];
    var g' := RemoveAt(g, k);
    forall m | m in members - {n} && m in g
      ensures m in g'
    {
      var i :| 0 <= i < |g| && g[i] == m;
      assert g'[if i < k then i else i - 1] == m;
    }
  }

  lemma GroupShapeAdd(groups: map<Callstack, seq<BlockNode>>, members: set<BlockNode>, b: BlockNode)
    requires GroupShape(groups, members) && b !in members && b.allocator in groups
    ensures GroupShape(groups[b.allocator := [b] + groups[b.allocator]], members + {b})
  {
    var g' := [b] + groups[b.allocator];
    forall m | m in groups[b.allocator]
      ensures m in g'
    {
    }
    assert b in g' by { assert g'[0] == b; }
  }

  /** Relinking the blocks of one call stack leaves every other call stack's list alone. */
  twostate lemma AllLists(groups: map<Callstack, seq<BlockNode>>, new members: set<BlockNode>,
                          new groups': map<Callstack, seq<BlockNode>>, new link: nat,
                          new cs: Callstack)
    requires GroupShape(groups, members) && link < LINK_MAX && cs in groups
    requires cs in groups' && groups' == groups[cs := groups'[cs]]
    requires |cs.groupHead| == LINK_MAX && Linked(cs.groupHead[link], groups'[cs])
    requires forall c {:trigger groups[c]} :: c in groups && c != cs ==>
      |old(c.groupHead)| == LINK_MAX && old(Linked(c.groupHead[link], groups[c])) && c.groupHead == old(c.groupHead)
    requires forall n :: n in members && old(allocated(n)) && n.allocator != cs ==>
      n.groupNext == old(n.groupNext) && n.groupPrev == old(n.groupPrev)
    ensures forall c {:trigger groups'[c]} :: c in groups' ==>
      |c.groupHead| == LINK_MAX && Linked(c.groupHead[link], groups'[c])
  {
    forall c | c in groups && c != cs
      ensures Linked(c.groupHead[link], groups[c])
    {
      assert forall i :: 0 <= i < |groups[c]| ==> groups[c][i].allocator == c;
    }
  }
}

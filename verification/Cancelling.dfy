/** Which blocks offsetting cancels against which (memchk_snapshot.c). */
module Cancelling {
  import opened Blocks
  import opened Chains
  import opened Tally

  /** A snapshot block that is the same block still: same pointer, same allocator, same size. */
  ghost predicate Twin(n: BlockNode, s: BlockNode)
  {
    n.memblk.ptr == s.memblk.ptr && SameKind(n, s)
  }

  ghost function FirstOfSize(g: seq<BlockNode>, usrsize: nat): (m: BlockNode?)
    ensures m == null <==> forall i :: 0 <= i < |g| ==> g[i].memblk.usrsize != usrsize
    ensures m != null ==> m in g && m.memblk.usrsize == usrsize
  {
    if g == [] then null
    else if g[0].memblk.usrsize == usrsize then g[0]
    else
      assert forall i :: 0 < i < |g| ==> g[i] == g[1..][i - 1];
      FirstOfSize(g[1..], usrsize)
  }

  lemma {:induction false} FirstIs(g: seq<BlockNode>, k: nat, usrsize: nat)
    requires k <= |g| && forall j :: 0 <= j < k ==> g[j].memblk.usrsize != usrsize
    requires k < |g| ==> g[k].memblk.usrsize == usrsize
    ensures FirstOfSize(g, usrsize) == NodeAt(g, k)
  {
    if k > 0 {
      FirstIs(g[1..], k - 1, usrsize);
    }
  }

  /**
    The block that `n` is cancelled against when the snapshot has blocks `snap` left and `g` is the group
    list of `n`'s allocator: its twin if there is one, else the first of its size in the list.
   */
  ghost function Partner(n: BlockNode, snap: set<BlockNode>, g: seq<BlockNode>): BlockNode?
  {
    if exists s :: s in snap && Twin(n, s) then
      var s :| s in snap && Twin(n, s);
      s
    else FirstOfSize(g, n.memblk.usrsize)
  }

  /** The elements of a list that are in `keep`. */
  ghost function Only(s: seq<BlockNode>, keep: set<BlockNode>): seq<BlockNode>
  {
    if s == [] then []
    else if s[0] in keep then [s[0]] + Only(s[1..], keep)
    else Only(s[1..], keep)
  }

  lemma {:induction false} OnlyHas(s: seq<BlockNode>, keep: set<BlockNode>)
    ensures forall n :: n in Only(s, keep) <==> n in s && n in keep
  {
    if s != [] {
      OnlyHas(s[1..], keep);
      assert s == [s[0]] + s[1..];
    }
  }

  ghost function Without(s: seq<BlockNode>, m: BlockNode): seq<BlockNode>
  {
    if s == [] then [] else if s[0] == m then s[1..] else [s[0]] + Without(s[1..], m)
  }

  lemma RemoveFirst(s: seq<BlockNode>, k: nat)
    requires 0 < k < |s|
    ensures RemoveAt(s, k) == [s[0]] + RemoveAt(s[1..], k - 1)
  {
    assert s[..k] == [s[0]] + s[1..][..k - 1];
    assert s[k + 1..] == s[1..][k..];
  }

  lemma {:induction false} RemoveIsWithout(s: seq<BlockNode>, k: nat)
    requires Distinct(s) && k < |s|
    ensures RemoveAt(s, k) == Without(s, s[k])
  {
    if k == 0 {
      assert s[..0] + s[1..] == s[1..];
    } else {
      hide RemoveAt;
      assert s[0] != s[k] && s[1..][k - 1] == s[k];
      RemoveIsWithout(s[1..], k - 1);
      RemoveFirst(s, k);
    }
  }

  lemma {:induction false} OnlyAll(s: seq<BlockNode>, keep: set<BlockNode>)
    requires forall n :: n in s ==> n in keep
    ensures Only(s, keep) == s
  {
    if s != [] {
      assert s[0] in s && forall n :: n in s[1..] ==> n in s;
      OnlyAll(s[1..], keep);
    }
  }

  lemma {:induction false} OnlySame(s: seq<BlockNode>, keep: set<BlockNode>, m: BlockNode)
    requires m !in s
    ensures Only(s, keep - {m}) == Only(s, keep)
  {
    if s != [] {
      OnlySame(s[1..], keep, m);
    }
  }

  lemma {:induction false} OnlyDrop(s: seq<BlockNode>, keep: set<BlockNode>, m: BlockNode)
    requires Distinct(s) && m in s && m in keep
    ensures Only(s, keep - {m}) == Without(Only(s, keep), m)
  {
    var rest := Only(s[1..], keep);
    if s[0] == m {
      OnlySame(s[1..], keep, m);
      assert ([m] + rest)[1..] == rest;
    } else {
      OnlyDrop(s[1..], keep, m);
      if s[0] in keep {
        assert ([s[0]] + rest)[1..] == rest;
      }
    }
  }

  // ----- The whole of offsetting -----

  /** What offsetting starts from: both tables' blocks, the order of the walk, and the snapshot's group lists. */
  datatype Began = Began(cur: set<BlockNode>, snap: set<BlockNode>, walk: seq<BlockNode>,
                         order: map<Callstack, seq<BlockNode>>)

  datatype Left = Left(cur: set<BlockNode>, snap: set<BlockNode>)

  ghost function GroupLeft(a: Began, cs: Callstack, snap: set<BlockNode>): seq<BlockNode>
  {
    if cs in a.order then Only(a.order[cs], snap) else []
  }

  /** What is left once these current blocks have been met, in this order. */
  ghost function After(a: Began, met: seq<BlockNode>): Left
  {
    if met == [] then Left(a.cur, a.snap)
    else
      var before, n := After(a, met[..|met| - 1]), met[|met| - 1];
      var m := Partner(n, before.snap, GroupLeft(a, n.allocator, before.snap));
      if m == null then before else Left(before.cur - {n}, before.snap - {m})
  }

  lemma AfterOne(a: Began, met: seq<BlockNode>, n: BlockNode)
    ensures var before := After(a, met); var m := Partner(n, before.snap, GroupLeft(a, n.allocator, before.snap));
      After(a, met + [n]) == if m == null then before else Left(before.cur - {n}, before.snap - {m})
  {
    assert (met + [n])[..|met|] == met;
  }

  /** Every current block of this kind has a twin in the snapshot. */
  ghost predicate Twinned(cur: set<BlockNode>, snap: set<BlockNode>, cs: Callstack, z: nat)
  {
    forall n :: n in cur && n.allocator == cs && n.memblk.usrsize == z ==> exists s :: s in snap && Twin(n, s)
  }

  ghost predicate OnePtrEach(s: set<BlockNode>)
  {
    forall n, m :: n in s && m in s && n.memblk.ptr == m.memblk.ptr ==> n == m
  }

  /** Group lists hold blocks of their own call stack. */
  ghost predicate Ordered(a: Began)
  {
    forall cs, i {:trigger a.order[cs][i]} :: cs in a.order && 0 <= i < |a.order[cs]| ==> a.order[cs][i].allocator == cs
  }

  /** Of such a kind, twins leave together, and a snapshot block without a twin stays. */
  ghost predicate TwinsTogether(a: Began, l: Left, cs: Callstack, z: nat)
  {
    && (forall n, s {:trigger Twin(n, s)} ::
          n in a.cur && s in a.snap && n.allocator == cs && n.memblk.usrsize == z && Twin(n, s) ==>
          (n in l.cur <==> s in l.snap))
    && (forall s :: s in a.snap && s.allocator == cs && s.memblk.usrsize == z && s !in l.snap ==>
          exists n :: n in a.cur && Twin(n, s))
  }

  lemma PartnerIs(a: Began, n: BlockNode, snap: set<BlockNode>)
    requires Ordered(a)
    ensures var m := Partner(n, snap, GroupLeft(a, n.allocator, snap));
      && (m != null ==> m in snap && SameKind(n, m))
      && ((exists s :: s in snap && Twin(n, s)) ==> m != null && Twin(n, m))
  {
    if n.allocator in a.order {
      var g := a.order[n.allocator];
      OnlyHas(g, snap);
      assert forall x :: x in g ==> x.allocator == n.allocator;
    }
  }

  lemma TwinsStep(a: Began, l: Left, cs: Callstack, z: nat, n: BlockNode, m: BlockNode)
    requires OnePtrEach(a.cur) && OnePtrEach(a.snap) && Twinned(a.cur, a.snap, cs, z)
    requires TwinsTogether(a, l, cs, z) && l.cur <= a.cur && l.snap <= a.snap
    requires n in l.cur && m in l.snap && SameKind(n, m)
    requires (exists s :: s in l.snap && Twin(n, s)) ==> Twin(n, m)
    ensures TwinsTogether(a, Left(l.cur - {n}, l.snap - {m}), cs, z)
  {
    if n.allocator == cs && n.memblk.usrsize == z {
      var s :| s in a.snap && Twin(n, s);
      assert s in l.snap;
      assert s == m;
    }
  }

  lemma {:induction false} TwinsStay(a: Began, met: seq<BlockNode>, cs: Callstack, z: nat)
    requires OnePtrEach(a.cur) && OnePtrEach(a.snap) && Ordered(a) && Twinned(a.cur, a.snap, cs, z)
    requires Distinct(met) && forall n :: n in met ==> n in a.cur
    ensures TwinsTogether(a, After(a, met), cs, z)
    ensures After(a, met).cur <= a.cur && After(a, met).snap <= a.snap
    ensures forall n :: n in a.cur && n !in met ==> n in After(a, met).cur
  {
    hide Twinned, TwinsTogether, Partner, OnePtrEach, Ordered, GroupLeft, SameKind, Twin;
    if met == [] {
      AllTogether(a, cs, z);
    } else {
      var front, n := met[..|met| - 1], met[|met| - 1];
      assert met == front + [n];
      TwinsStay(a, front, cs, z);
      assert n !in front && n in met;
      var before := After(a, front);
      var m := Partner(n, before.snap, GroupLeft(a, n.allocator, before.snap));
      AfterOne(a, front, n);
      PartnerIs(a, n, before.snap);
      if m != null {
        TwinsStep(a, before, cs, z, n, m);
      }
    }
  }

  lemma AllTogether(a: Began, cs: Callstack, z: nat)
    ensures TwinsTogether(a, Left(a.cur, a.snap), cs, z)
  {
  }

  /**
    If every current block of a kind has a twin, nothing of the kind is left of the current blocks, and
    what is left of the snapshot's are exactly the blocks whose pointer no current block has.
   */
  lemma TwinsCancel(a: Began, met: seq<BlockNode>, cs: Callstack, z: nat)
    requires OnePtrEach(a.cur) && OnePtrEach(a.snap) && Ordered(a) && Twinned(a.cur, a.snap, cs, z)
    requires Distinct(met) && Elements(met) == a.cur
    requires forall n, m :: n in After(a, met).cur && m in After(a, met).snap ==> !SameKind(n, m)
    ensures forall n :: n in After(a, met).cur ==> !(n.allocator == cs && n.memblk.usrsize == z)
    ensures forall s :: s in a.snap && s.allocator == cs && s.memblk.usrsize == z ==>
      (s in After(a, met).snap <==> forall n :: n in a.cur ==> !Twin(n, s))
  {
    TwinsStay(a, met, cs, z);
    var l := After(a, met);
    assert forall n, s :: n in l.cur && s in a.snap && n.allocator == cs && n.memblk.usrsize == z && Twin(n, s) ==>
      s in l.snap;
  }

  /** Whoever has been met, its twin is not left: no block that is still there is taken for one that is gone. */
  lemma {:induction false} NoTwinLeft(a: Began, met: seq<BlockNode>)
    requires OnePtrEach(a.snap) && Ordered(a)
    ensures After(a, met).snap <= a.snap
    ensures forall n, s :: n in met && s in After(a, met).snap ==> !Twin(n, s)
  {
    hide Partner, Ordered, GroupLeft;
    if met != [] {
      var front, n := met[..|met| - 1], met[|met| - 1];
      assert met == front + [n];
      NoTwinLeft(a, front);
      AfterOne(a, front, n);
      PartnerIs(a, n, After(a, front).snap);
    }
  }

  /**
    The other way round it can happen: a block that was in the snapshot is reported as new when a new one
    of its kind is met before it.
   */
  lemma OlderTakenForNew(newer: BlockNode, older: BlockNode, s: BlockNode)
    requires Twin(older, s) && SameKind(newer, older) && newer.memblk.ptr != older.memblk.ptr
    ensures var a := Began({newer, older}, {s}, [newer, older], map[s.allocator := [s]]);
      After(a, a.walk) == Left({older}, {})
  {
    var a := Began({newer, older}, {s}, [newer, older], map[s.allocator := [s]]);
    assert [] + [newer] == [newer] && [newer] + [older] == a.walk;
    AfterOne(a, [], newer);
    assert [s][1..] == [] && Only([s], {s}) == [s] && Only([s], {}) == [];
    assert FirstOfSize([s], newer.memblk.usrsize) == s && Partner(newer, {s}, [s]) == s;
    assert After(a, [newer]) == Left({older}, {});
    AfterOne(a, [newer], older);
    assert Partner(older, {}, []) == null;
  }

  /**
    No snapshot block left has a current twin. And of each kind whose current blocks all have a twin, no
    current block is left, and exactly the snapshot blocks whose pointer no current block of the kind has.
   */
  ghost predicate TwinsGone(stacks: set<Callstack>, cur0: set<BlockNode>, snap0: set<BlockNode>,
                            cur: set<BlockNode>, snap: set<BlockNode>)
  {
    && (forall n, s :: n in cur0 && s in snap ==> !Twin(n, s))
    && forall cs, z {:trigger Twinned(cur0, snap0, cs, z)} :: cs in stacks && Twinned(cur0, snap0, cs, z) ==>
      && (forall n :: n in cur ==> !(n.allocator == cs && n.memblk.usrsize == z))
      && (forall s :: s in snap0 && s.allocator == cs && s.memblk.usrsize == z ==>
            (s in snap <==> forall n :: n in cur0 ==> !Twin(n, s)))
  }

  lemma TwinsAreGone(stacks: set<Callstack>, a: Began, met: seq<BlockNode>)
    requires OnePtrEach(a.cur) && OnePtrEach(a.snap) && Ordered(a)
    requires Distinct(met) && Elements(met) == a.cur
    requires forall n, m :: n in After(a, met).cur && m in After(a, met).snap ==> !SameKind(n, m)
    ensures TwinsGone(stacks, a.cur, a.snap, After(a, met).cur, After(a, met).snap)
  {
    hide Twinned, Twin, After, SameKind, OnePtrEach, Ordered, Distinct;
    NoTwinLeft(a, met);
    assert forall n :: n in met <==> n in a.cur;
    forall cs, z | cs in stacks && Twinned(a.cur, a.snap, cs, z)
      ensures forall n :: n in After(a, met).cur ==> !(n.allocator == cs && n.memblk.usrsize == z)
      ensures forall s :: s in a.snap && s.allocator == cs && s.memblk.usrsize == z ==>
        (s in After(a, met).snap <==> forall n :: n in a.cur ==> !Twin(n, s))
    {
      TwinsCancel(a, met, cs, z);
    }
  }

  /** If every current block has a twin, the snapshot blocks left are those whose pointer no current block has. */
  lemma AllTwinned(stacks: set<Callstack>, cur0: set<BlockNode>, snap0: set<BlockNode>,
                   cur: set<BlockNode>, snap: set<BlockNode>)
    requires forall n :: n in cur0 + snap0 ==> n.allocator in stacks
    requires TwinsGone(stacks, cur0, snap0, cur, snap) && cur <= cur0 && snap <= snap0 && OnePtrEach(snap0)
    requires forall n :: n in cur0 ==> exists s :: s in snap0 && Twin(n, s)
    ensures cur == {}
    ensures snap == set s | s in snap0 && forall n :: n in cur0 ==> n.memblk.ptr != s.memblk.ptr
  {
    assert forall cs, z :: cs in stacks ==> Twinned(cur0, snap0, cs, z);
    assert forall n :: n in cur ==> n.allocator in stacks && Twinned(cur0, snap0, n.allocator, n.memblk.usrsize);
    forall s | s in snap0
      ensures (exists n :: n in cur0 && Twin(n, s)) <==> exists n :: n in cur0 && n.memblk.ptr == s.memblk.ptr
    {
      forall n | n in cur0 && n.memblk.ptr == s.memblk.ptr
        ensures Twin(n, s)
      {
        var t :| t in snap0 && Twin(n, t);
        assert t == s;
      }
    }
    forall s | s in snap0
      ensures s in snap <==> forall n :: n in cur0 ==> n.memblk.ptr != s.memblk.ptr
    {
      assert Twinned(cur0, snap0, s.allocator, s.memblk.usrsize);
    }
  }

  // ----- Half-way -----

  /** Each group list is what is left of the one at the start. */
  ghost predicate GroupsLeft(a: Began, snap: set<BlockNode>, groups: map<Callstack, seq<BlockNode>>)
  {
    && groups.Keys == a.order.Keys && Ordered(a)
    && (forall cs {:trigger groups[cs]} :: cs in groups ==>
          Distinct(a.order[cs]) && groups[cs] == Only(a.order[cs], snap))
  }

  /** The walk stands at position `k` of chain `b` and has met `visited`; all is as `After` says. */
  ghost predicate Planned(a: Began, l: Left, chains: seq<seq<BlockNode>>, b: nat, k: nat, visited: seq<BlockNode>,
                          groups: map<Callstack, seq<BlockNode>>)
  {
    && After(a, visited) == l
    && b <= |chains| && (b < |chains| ==> k <= |chains[b]|) && visited + Coming(chains, b, k) == a.walk
    && GroupsLeft(a, l.snap, groups)
  }

  lemma PlannedKept(a: Began, l: Left, chains: seq<seq<BlockNode>>, b: nat, k: nat, visited: seq<BlockNode>,
                    groups: map<Callstack, seq<BlockNode>>, n: BlockNode)
    requires Planned(a, l, chains, b, k, visited, groups) && b < |chains| && k < |chains[b]| && chains[b][k] == n
    requires n.allocator in groups && Partner(n, l.snap, groups[n.allocator]) == null
    ensures Planned(a, l, chains, b, k + 1, visited + [n], groups)
  {
    AfterOne(a, visited, n);
    ComingStep(chains, b, k);
  }

  lemma PlannedCancelled(a: Began, l: Left, chains: seq<seq<BlockNode>>, b: nat, k: nat, visited: seq<BlockNode>,
                         groups: map<Callstack, seq<BlockNode>>, n: BlockNode, m: BlockNode)
    requires Planned(a, l, chains, b, k, visited, groups) && b < |chains| && k < |chains[b]| && chains[b][k] == n
    requires n.allocator in groups && Partner(n, l.snap, groups[n.allocator]) == m
    requires m.allocator in groups && m in groups[m.allocator] && m in l.snap
    ensures Planned(a, Left(l.cur - {n}, l.snap - {m}), chains[b := RemoveAt(chains[b], k)], b, k, visited + [n],
                    groups[m.allocator := Without(groups[m.allocator], m)])
  {
    hide Partner, Without, GroupsLeft;
    AfterOne(a, visited, n);
    SameGroup(a, l.snap, groups, n.allocator);
    ComingCut(chains, b, k);
    GroupsCut(a, l.snap, groups, m);
  }

  lemma SameGroup(a: Began, snap: set<BlockNode>, groups: map<Callstack, seq<BlockNode>>, cs: Callstack)
    requires GroupsLeft(a, snap, groups) && cs in groups
    ensures GroupLeft(a, cs, snap) == groups[cs]
  {
  }

  lemma GroupsCut(a: Began, snap: set<BlockNode>, groups: map<Callstack, seq<BlockNode>>, m: BlockNode)
    requires GroupsLeft(a, snap, groups) && m.allocator in groups && m in groups[m.allocator] && m in snap
    ensures GroupsLeft(a, snap - {m}, groups[m.allocator := Without(groups[m.allocator], m)])
  {
    forall cs | cs in groups
      ensures cs != m.allocator ==> Only(a.order[cs], snap - {m}) == Only(a.order[cs], snap)
      ensures cs == m.allocator ==> Only(a.order[cs], snap - {m}) == Without(groups[cs], m)
    {
      if cs == m.allocator {
        OnlyHas(a.order[cs], snap);
        OnlyDrop(a.order[cs], snap, m);
      } else {
        assert forall x :: x in a.order[cs] ==> x.allocator == cs;
        OnlySame(a.order[cs], snap, m);
      }
    }
  }

  lemma ComingCut(chains: seq<seq<BlockNode>>, b: nat, k: nat)
    requires b < |chains| && k < |chains[b]|
    ensures Coming(chains, b, k) == [chains[b][k]] + Coming(chains[b := RemoveAt(chains[b], k)], b, k)
  {
    var cut := chains[b := RemoveAt(chains[b], k)];
    ComingStep(chains, b, k);
    ComingSame(chains, cut, b + 1);
    assert cut[b][k..] == chains[b][k + 1..];
  }

  lemma PlannedRow(a: Began, l: Left, chains: seq<seq<BlockNode>>, b: nat, visited: seq<BlockNode>,
                   groups: map<Callstack, seq<BlockNode>>)
    requires b < |chains| && Planned(a, l, chains, b, |chains[b]|, visited, groups)
    ensures Planned(a, l, chains, b + 1, 0, visited, groups)
  {
    ComingRow(chains, b);
  }

  lemma PlannedStart(a: Began, chains: seq<seq<BlockNode>>)
    requires Coming(chains, 0, 0) == a.walk
    requires forall cs {:trigger a.order[cs]} :: cs in a.order ==> Distinct(a.order[cs])
    requires Ordered(a) && forall cs, n :: cs in a.order && n in a.order[cs] ==> n in a.snap
    ensures (|chains| > 0 || a.walk == []) ==> Planned(a, Left(a.cur, a.snap), chains, 0, 0, [], a.order)
  {
    forall cs | cs in a.order
      ensures Only(a.order[cs], a.snap) == a.order[cs]
    {
      OnlyAll(a.order[cs], a.snap);
    }
  }
}

/** What a comparison reports per call stack (the second half of memchk_snapshot.c). */
module Report {
  import opened Blocks
  import opened Chains
  import opened Tally
  import opened PtrHashtable
  import opened CallstackGroups
  import opened CallstackHashtable
  import opened Snapshot

  /** A call stack's list is headed by null exactly when it allocated none of the blocks. */
  lemma ListIsOf(lists: GroupLists, c: Callstack)
    requires lists.Valid() && c in lists.groups
    ensures Elements(lists.groups[c]) == Of(lists.members, c) && Distinct(lists.groups[c])
    ensures |c.groupHead| == LINK_MAX && lists.link < LINK_MAX
    ensures c.groupHead[lists.link] == null <==> Of(lists.members, c) == {}
    ensures Linked(c.groupHead[lists.link], lists.groups[c])
  {
    var g := lists.groups[c];
    assert forall n :: n in Of(lists.members, c) ==> n in g;
    assert g != [] ==> g[0] in Of(lists.members, c);
  }

  /** Add up the user sizes along one list. */
  method GroupBytes(lists: GroupLists, c: Callstack) returns (total: nat)
    requires lists.Valid() && c in lists.groups
    requires forall n :: n in lists.members ==> n.live
    ensures total == BytesOf(lists.members, c)
  {
    hide GroupLists.Valid;
    ListIsOf(lists, c);
    ghost var g := lists.groups[c];
    BytesOfList(g);
    assert Elements(g) == set n | n in g;
    total := 0;
    ghost var k := 0;
    var n := c.groupHead[lists.link];
    while n != null
      invariant k <= |g| && n == NodeAt(g, k)
      invariant total + BytesInOrder(g[k..]) == BytesInOrder(g)
      decreases |g| - k
    {
      assert n in Elements(g);
      assert g[k..][0] == n && g[k..][1..] == g[k + 1..];
      total := total + n.memblk.usrsize;
      n := n.GroupNext();
      k := k + 1;
    }
    assert g[k..] == [];
  }

  /** The call stacks of `s` that still have a block on either side. */
  ghost function Changed(s: set<Callstack>, a: set<BlockNode>, b: set<BlockNode>): set<Callstack>
  {
    set c | c in s && (Of(a, c) != {} || Of(b, c) != {})
  }

  predicate Skipped(c: Callstack)
    requires |c.groupHead| == LINK_MAX
    reads c`groupHead
  {
    c.groupHead[LINK_CURRENT] == null && c.groupHead[LINK_SNAPSHOT] == null
  }

  lemma SkippedIff(d: Comparison, c: Callstack)
    requires d.Valid() && c in d.Stacks()
    ensures |c.groupHead| == LINK_MAX
    ensures Skipped(c) <==> Of(d.cur.nodes, c) == {} && Of(d.snap.nodes, c) == {}
  {
    ListIsOf(d.curGroups, c);
    ListIsOf(d.snapGroups, c);
  }

  lemma LiveLists(d: Comparison)
    requires d.Valid()
    ensures d.curGroups.Valid() && d.curGroups.members == d.cur.nodes && d.Stacks() == d.curGroups.groups.Keys
    ensures d.snapGroups.Valid() && d.snapGroups.members == d.snap.nodes && d.Stacks() == d.snapGroups.groups.Keys
    ensures forall n :: n in d.cur.nodes + d.snap.nodes ==> n.live
  {
  }

  /** One call stack's net size: what is left of the current blocks minus what is left of the snapshot. */
  method SumUp(d: Comparison, c: Callstack)
    requires d.Valid() && c in d.Stacks()
    modifies c`totalSize
    ensures c.totalSize == Net(d.cur.nodes, d.snap.nodes, c)
  {
    hide Comparison.Valid, GroupLists.Valid, BytesOf;
    LiveLists(d);
    c.totalSize := 0;
    var plus := GroupBytes(d.curGroups, c);
    c.totalSize := c.totalSize + plus;
    var minus := GroupBytes(d.snapGroups, c);
    c.totalSize := c.totalSize - minus;
  }

  /** The counting pass: how many call stacks the report will have. */
  method CountChanged(d: Comparison, stacks: CallstackTable) returns (total: nat)
    requires d.Valid() && stacks.Valid() && stacks.nodes == d.Stacks()
    ensures total == |Changed(stacks.nodes, d.cur.nodes, d.snap.nodes)|
  {
    hide Passed, CallstackTable.Valid, Comparison.Valid, Skipped, Of;
    stacks.WalkStart();
    total := 0;
    var b := 0;
    while b < stacks.buckets.Length
      invariant b <= stacks.buckets.Length == |stacks.chains|
      invariant total == |Changed(Passed(stacks.chains, b, 0), d.cur.nodes, d.snap.nodes)|
    {
      stacks.HeadAt(b);
      var c := stacks.buckets[b];
      ghost var k := 0;
      while c != null
        invariant k <= |stacks.chains[b]| && c == StackAt(stacks.chains[b], k)
        invariant total == |Changed(Passed(stacks.chains, b, k), d.cur.nodes, d.snap.nodes)|
        decreases |stacks.chains[b]| - k
      {
        stacks.WalkAt(b, k);
        SkippedIff(d, c);
        ChangedOne(Passed(stacks.chains, b, k), c, d.cur.nodes, d.snap.nodes);
        if !Skipped(c) {
          total := total + 1;
        }
        c := c.hashNext;
        k := k + 1;
      }
      PassRow(stacks.chains, b);
      b := b + 1;
    }
  }

  lemma ChangedOne(s: set<Callstack>, c: Callstack, a: set<BlockNode>, b: set<BlockNode>)
    requires c !in s
    ensures Changed(s + {c}, a, b) == Changed(s, a, b) + if Of(a, c) == {} && Of(b, c) == {} then {} else {c}
    ensures c !in Changed(s, a, b)
  {
  }

  /** `listed`, stored in `report`, are the changed call stacks among `passed`, with their net sizes. */
  ghost predicate Filled(report: array<Callstack?>, listed: seq<Callstack>, passed: set<Callstack>,
                         a: set<BlockNode>, b: set<BlockNode>)
    reads report, passed`totalSize
  {
    && |listed| == |Changed(passed, a, b)| <= report.Length && Distinct(listed)
    && Elements(listed) == Changed(passed, a, b)
    && (forall j :: 0 <= j < |listed| ==> report[j] == listed[j])
    && (forall c :: c in Changed(passed, a, b) ==> c.totalSize == Net(a, b, c))
  }

  /**
    The reporting pass: the changed call stacks, each once, with their net sizes. The array was sized
    by the counting pass; `listed` is what it ends up holding.
   */
  method FillReport(d: Comparison, stacks: CallstackTable)
    returns (report: array<Callstack?>, ghost listed: seq<Callstack>)
    requires d.Valid() && stacks.Valid() && stacks.nodes == d.Stacks()
    modifies stacks.nodes`totalSize
    ensures fresh(report) && report.Length == |listed|
    ensures Filled(report, listed, stacks.nodes, d.cur.nodes, d.snap.nodes)
  {
    hide Passed, CallstackTable.Valid, Comparison.Valid, Changed, Filled, Skipped, Of, Net;
    stacks.WalkStart();
    ghost var a, z := d.cur.nodes, d.snap.nodes;
    var total := CountChanged(d, stacks);
    report := new Callstack?[total](_ => null);
    listed := [];
    FilledNone(report, a, z);
    var i := 0;
    var b := 0;
    while b < stacks.buckets.Length
      invariant b <= stacks.buckets.Length == |stacks.chains|
      invariant i == |listed| && Filled(report, listed, Passed(stacks.chains, b, 0), a, z)
    {
      stacks.HeadAt(b);
      var c := stacks.buckets[b];
      ghost var k := 0;
      while c != null
        invariant k <= |stacks.chains[b]| && c == StackAt(stacks.chains[b], k)
        invariant i == |listed| && Filled(report, listed, Passed(stacks.chains, b, k), a, z)
        decreases |stacks.chains[b]| - k
      {
        stacks.WalkAt(b, k);
        stacks.PassedInNodes(b, k);
        i, listed := ReportOne(d, stacks, c, report, i, listed, Passed(stacks.chains, b, k));
        c := c.hashNext;
        k := k + 1;
      }
      PassRow(stacks.chains, b);
      b := b + 1;
    }
    assert Filled(report, listed, stacks.nodes, a, z);
    FilledLength(report, listed, stacks.nodes, a, z);
  }

  method ReportOne(d: Comparison, ghost stacks: CallstackTable, c: Callstack, report: array<Callstack?>, i: nat,
                   ghost listed: seq<Callstack>, ghost passed: set<Callstack>)
    returns (i': nat, ghost listed': seq<Callstack>)
    requires d.Valid() && stacks.nodes == d.Stacks()
    requires report.Length == |Changed(stacks.nodes, d.cur.nodes, d.snap.nodes)|
    requires c in stacks.nodes && c !in passed && passed <= stacks.nodes
    requires i == |listed| && Filled(report, listed, passed, d.cur.nodes, d.snap.nodes)
    modifies report, c`totalSize
    ensures i' == |listed'| && Filled(report, listed', passed + {c}, d.cur.nodes, d.snap.nodes)
  {
    hide Comparison.Valid, Skipped, Of, BytesOf, Changed;
    SkippedIff(d, c);
    ghost var a, z := d.cur.nodes, d.snap.nodes;
    ChangedOne(passed, c, a, z);
    i', listed' := i, listed;
    if !Skipped(c) {
      RoomLeft(passed, stacks.nodes, c, a, z);
      Append(d, c, report, i, listed, passed);
      i' := i + 1;
      listed' := listed + [c];
    }
  }

  method Append(d: Comparison, c: Callstack, report: array<Callstack?>, i: nat, ghost listed: seq<Callstack>,
                ghost passed: set<Callstack>)
    requires d.Valid() && c in d.Stacks() && c !in passed
    requires i == |listed| < report.Length && Filled(report, listed, passed, d.cur.nodes, d.snap.nodes)
    requires Changed(passed + {c}, d.cur.nodes, d.snap.nodes) == Changed(passed, d.cur.nodes, d.snap.nodes) + {c}
    modifies report, c`totalSize
    ensures Filled(report, listed + [c], passed + {c}, d.cur.nodes, d.snap.nodes)
  {
    hide Comparison.Valid, Changed, Distinct, Elements, Net;
    ghost var a, z := d.cur.nodes, d.snap.nodes;
    ChangedWithin(passed, a, z);
    SumUp(d, c);
    report[i] := c;
    FilledMore(report, listed, passed, c, a, z);
  }

  lemma FilledMore(report: array<Callstack?>, listed: seq<Callstack>, passed: set<Callstack>, c: Callstack,
                   a: set<BlockNode>, b: set<BlockNode>)
    requires |listed| == |Changed(passed, a, b)| < report.Length && Distinct(listed)
    requires Elements(listed) == Changed(passed, a, b) && c !in Changed(passed, a, b)
    requires Changed(passed + {c}, a, b) == Changed(passed, a, b) + {c}
    requires forall j :: 0 <= j < |listed| ==> report[j] == listed[j]
    requires report[|listed|] == c
    requires forall d :: d in Changed(passed, a, b) + {c} ==> d.totalSize == Net(a, b, d)
    ensures Filled(report, listed + [c], passed + {c}, a, b)
  {
    hide Changed, Net;
    assert c !in Elements(listed);
    assert Elements(listed + [c]) == Elements(listed) + {c};
  }

  lemma FilledNone(report: array<Callstack?>, a: set<BlockNode>, b: set<BlockNode>)
    ensures Filled(report, [], {}, a, b)
  {
  }

  lemma FilledLength(report: array<Callstack?>, listed: seq<Callstack>, passed: set<Callstack>,
                     a: set<BlockNode>, b: set<BlockNode>)
    requires Filled(report, listed, passed, a, b)
    ensures |listed| == |Changed(passed, a, b)|
  {
  }

  lemma ChangedWithin(s: set<Callstack>, a: set<BlockNode>, b: set<BlockNode>)
    ensures Changed(s, a, b) <= s
  {
  }

  lemma RoomLeft(s: set<Callstack>, all: set<Callstack>, c: Callstack, a: set<BlockNode>, b: set<BlockNode>)
    requires s <= all && c in all && c !in s && (Of(a, c) != {} || Of(b, c) != {})
    ensures |Changed(s, a, b)| < |Changed(all, a, b)|
  {
    var part, whole := Changed(s, a, b) + {c}, Changed(all, a, b);
    assert part <= whole;
    assert whole == part + (whole - part);
    assert |Changed(s, a, b) + {c}| == |Changed(s, a, b)| + 1;
  }

  /** The reported totals, added up. */
  ghost function ReportTotal(listed: seq<Callstack>): int
    reads listed`totalSize
  {
    if listed == [] then 0 else ReportTotal(listed[..|listed| - 1]) + listed[|listed| - 1].totalSize
  }

  lemma {:induction false} TotalIsNetSum(listed: seq<Callstack>, a: set<BlockNode>, b: set<BlockNode>)
    requires Distinct(listed) && forall c :: c in listed ==> c.totalSize == Net(a, b, c)
    ensures ReportTotal(listed) == NetSum(Elements(listed), a, b)
  {
    if listed == [] {
      assert Elements(listed) == {};
    } else {
      var front, c := listed[..|listed| - 1], listed[|listed| - 1];
      TotalIsNetSum(front, a, b);
      assert c !in front;
      assert Elements(listed) - {c} == Elements(front) by {
        assert listed == front + [c];
      }
      NetWithout(Elements(listed), a, b, c);
    }
  }

  /** Call stacks with nothing left on either side have net size zero. */
  lemma UnchangedNetZero(c: Callstack, a: set<BlockNode>, b: set<BlockNode>)
    requires Of(a, c) == {} && Of(b, c) == {}
    ensures Net(a, b, c) == 0
  {
  }
}

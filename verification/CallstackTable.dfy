/** The table that keeps one record per distinct call stack (memchk_hashtable.c, memchk_callstack.c). */
module CallstackHashtable {
  import opened Blocks
  import opened Chains

  const TWO_TO_64 := 0x1_0000_0000_0000_0000

  ghost function Sum(key: seq<nat>): nat
  {
    if key == [] then 0 else Sum(key[..|key| - 1]) + key[|key| - 1]
  }

  ghost function KeyHash(key: seq<nat>, size: nat): (h: nat)
    requires size > 0
    ensures h < size
  {
    Sum(key) % TWO_TO_64 % size
  }

  method CalcCallstackHash(depth: nat, trace: Trace, size: nat) returns (h: nat)
    requires depth <= MAX_CALLSTACK_DEPTH && size > 0
    ensures h < size && h == KeyHash(trace[..depth], size) == Sum(trace[..depth]) % 0x1_0000_0000_0000_0000 % size
  {
    var val := 0;
    for i := 0 to depth
      invariant val == Sum(trace[..i]) % TWO_TO_64
    {
      assert trace[..i + 1][..i] == trace[..i];
      WrapOnce(Sum(trace[..i]), trace[i]);
      val := (val + trace[i]) % TWO_TO_64;
    }
    h := val % size;
  }

  /** Wrapping early or late gives the same 64-bit sum. */
  lemma WrapOnce(x: nat, y: nat)
    ensures (x % TWO_TO_64 + y) % TWO_TO_64 == (x + y) % TWO_TO_64
  {
  }

  /** The comparison `mc_match_callstack` makes; true stands for its result 0. */
  predicate MatchCallstack(depth: nat, trace: Trace, c: Callstack)
    requires depth <= MAX_CALLSTACK_DEPTH && c.depth <= MAX_CALLSTACK_DEPTH
  {
    depth == c.depth && trace[..depth] == c.trace[..depth]
  }

  ghost function StackAt(s: seq<Callstack>, i: nat): Callstack?
  {
    if i < |s| then s[i] else null
  }

  /** Equal call stacks are the same object. */
  ghost predicate Interned(stacks: set<Callstack>)
  {
    && (forall c :: c in stacks ==> c.depth <= MAX_CALLSTACK_DEPTH)
    && (forall c, d :: c in stacks && d in stacks && c.Key() == d.Key() ==> c == d)
  }

  /** Every call stack sits in its own hash's chain; the chains hold exactly `nodes`. */
  ghost predicate StackShape(size: nat, chains: seq<seq<Callstack>>, nodes: set<Callstack>)
  {
    && |chains| == size > 0 && Interned(nodes)
    && (forall b, i, j {:trigger chains[b][i], chains[b][j]} ::
          0 <= b < size && 0 <= i < j < |chains[b]| ==> chains[b][i] != chains[b][j])
    && (forall b, i {:trigger chains[b][i]} :: 0 <= b < size && 0 <= i < |chains[b]| ==>
          chains[b][i] in nodes && KeyHash(chains[b][i].Key(), size) == b)
    && (forall c :: c in nodes ==> c in chains[KeyHash(c.Key(), size)])
  }

  lemma StackShapeHolds(size: nat, chains: seq<seq<Callstack>>, nodes: set<Callstack>)
    requires StackShape(size, chains, nodes)
    ensures Holds(chains, nodes)
  {
    var rows := Rows(chains, size);
    forall n | n in nodes
      ensures n in rows
    {
      InRows(chains, size, n);
      assert n in chains[KeyHash(n.Key(), size)];
    }
    forall n | n in rows
      ensures n in nodes
    {
      InRows(chains, size, n);
      var c :| 0 <= c < size && n in chains[c];
      var i :| 0 <= i < |chains[c]| && chains[c][i] == n;
    }
    assert nodes == rows;
  }

  lemma StackShapeAdd(size: nat, chains: seq<seq<Callstack>>, nodes: set<Callstack>, c: Callstack)
    requires StackShape(size, chains, nodes) && c.depth <= MAX_CALLSTACK_DEPTH
    requires forall d :: d in nodes ==> d.Key() != c.Key()
    ensures c !in nodes
    ensures var h := KeyHash(c.Key(), size);
      StackShape(size, chains[h := [c] + chains[h]], nodes + {c})
  {
    var h := KeyHash(c.Key(), size);
    var chain' := [c] + chains[h];
    assert chain'[0] == c;
    assert forall i :: 0 < i < |chain'| ==> chain'[i] == chains[h][i - 1];
  }

  class CallstackTable {
    const buckets: array<Callstack?>
    ghost var chains: seq<seq<Callstack>>
    ghost var nodes: set<Callstack>

    ghost predicate Valid()
      reads this, buckets, nodes`hashNext
    {
      && StackShape(buckets.Length, chains, nodes)
      && (forall b {:trigger buckets[b]} :: 0 <= b < |chains| ==> buckets[b] == StackAt(chains[b], 0))
      && (forall b, i {:trigger chains[b][i].hashNext} :: 0 <= b < |chains| && 0 <= i < |chains[b]| ==>
            chains[b][i].hashNext == StackAt(chains[b], i + 1))
    }

    constructor (size: nat)
      requires size > 0
      ensures Valid() && nodes == {} && buckets.Length == size && fresh(buckets)
    {
      buckets := new Callstack?[size](_ => null);
      chains := seq(size, _ => []);
      nodes := {};
    }

    method Find(depth: nat, trace: Trace) returns (c: Callstack?)
      requires Valid() && depth <= MAX_CALLSTACK_DEPTH
      ensures c == null ==> forall d :: d in nodes ==> d.Key() != trace[..depth]
      ensures c != null ==> c in nodes && c.Key() == trace[..depth]
    {
      var hash := CalcCallstackHash(depth, trace, buckets.Length);
      c := buckets[hash];
      ghost var k := 0;
      while c != null
        invariant 0 <= k <= |chains[hash]| && c == StackAt(chains[hash], k)
        invariant forall j :: 0 <= j < k ==> chains[hash][j].Key() != trace[..depth]
        decreases |chains[hash]| - k
      {
        if MatchCallstack(depth, trace, c) {
          break;
        }
        c := c.hashNext;
        k := k + 1;
      }
    }

    method Add(c: Callstack)
      requires Valid() && c.depth <= MAX_CALLSTACK_DEPTH
      requires forall d :: d in nodes ==> d.Key() != c.Key()
      modifies `chains, `nodes, buckets, c`hashNext
      ensures Valid() && nodes == old(nodes) + {c}
    {
      hide StackShape, KeyHash;
      Placed();
      var hash := CalcCallstackHash(c.depth, c.trace, buckets.Length);
      StackShapeAdd(buckets.Length, chains, nodes, c);
      c.hashNext := buckets[hash];
      buckets[hash] := c;
      chains := chains[hash := [c] + chains[hash]];
      nodes := nodes + {c};
    }

    /** The record for this call stack: the one already kept if there is one, else a new one. */
    method GetCallstack(depth: nat, trace: Trace) returns (c: Callstack)
      requires Valid() && depth <= MAX_CALLSTACK_DEPTH
      modifies `chains, `nodes, buckets
      ensures Valid() && nodes == old(nodes) + {c} && c.depth <= MAX_CALLSTACK_DEPTH && c.Key() == trace[..depth]
      ensures c !in old(nodes) <==> forall d :: d in old(nodes) ==> d.Key() != trace[..depth]
      ensures c !in old(nodes) ==> fresh(c) && c.groupHead == [null, null]
    {
      var found := Find(depth, trace);
      if found != null {
        return found;
      }
      c := new Callstack(depth, trace);
      Add(c);
    }

    lemma Placed()
      requires Valid()
      ensures |chains| == buckets.Length > 0
      ensures forall b, i {:trigger chains[b][i]} :: 0 <= b < |chains| && 0 <= i < |chains[b]| ==> chains[b][i] in nodes
    {
    }

    lemma NoTwoAlike()
      requires Valid()
      ensures Interned(nodes)
    {
    }

    lemma WalkStart()
      requires Valid()
      ensures |chains| == buckets.Length
      ensures Passed(chains, 0, 0) == {} && Passed(chains, |chains|, 0) == nodes
    {
      StackShapeHolds(buckets.Length, chains, nodes);
    }

    lemma HeadAt(b: nat)
      requires Valid() && b < |chains|
      ensures b < buckets.Length && buckets[b] == StackAt(chains[b], 0)
    {
    }

    lemma PassedInNodes(b: nat, k: nat)
      requires Valid() && b < |chains| && k <= |chains[b]|
      ensures Passed(chains, b, k) <= nodes
    {
      StackShapeHolds(buckets.Length, chains, nodes);
      PassedWithin(chains, nodes, b, k);
    }

    lemma WalkAt(b: nat, k: nat)
      requires Valid() && b < |chains| && k < |chains[b]|
      ensures var c := chains[b][k];
        && c in nodes && c.hashNext == StackAt(chains[b], k + 1)
        && c !in Passed(chains, b, k) && Passed(chains, b, k + 1) == Passed(chains, b, k) + {c}
    {
      StackShapeHolds(buckets.Length, chains, nodes);
      PassOne(chains, nodes, b, k);
    }

    /** Empty the heads of one link index in every call stack. */
    method ResetGroups(link: nat)
      requires Valid() && link < LINK_MAX
      requires forall c :: c in nodes ==> |c.groupHead| == LINK_MAX
      modifies nodes`groupHead
      ensures Valid()
      ensures forall c {:trigger c.groupHead} :: c in nodes ==>
        |c.groupHead| == LINK_MAX && c.groupHead[link] == null && c.groupHead[1 - link] == old(c.groupHead)[1 - link]
    {
      hide Passed, StackShape;
      WalkStart();
      var b := 0;
      while b < buckets.Length
        invariant b <= buckets.Length == |chains| && Valid()
        invariant forall c {:trigger c.groupHead} :: c in nodes ==>
          |c.groupHead| == LINK_MAX && c.groupHead[1 - link] == old(c.groupHead)[1 - link]
          && (c in Passed(chains, b, 0) ==> c.groupHead[link] == null)
      {
        var c := buckets[b];
        ghost var k := 0;
        while c != null
          invariant k <= |chains[b]| && c == StackAt(chains[b], k) && Valid()
          invariant forall c {:trigger c.groupHead} :: c in nodes ==>
            |c.groupHead| == LINK_MAX && c.groupHead[1 - link] == old(c.groupHead)[1 - link]
            && (c in Passed(chains, b, k) ==> c.groupHead[link] == null)
          decreases |chains[b]| - k
        {
          WalkAt(b, k);
          c.groupHead := c.groupHead[link := null];
          c := c.hashNext;
          k := k + 1;
        }
        PassRow(chains, b);
        b := b + 1;
      }
    }
  }
}

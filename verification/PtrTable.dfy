/** The chained hash table keyed by user pointer (memchk_hashtable.c). */
module PtrHashtable {
  import opened Blocks
  import opened Chains

  function PtrHash(ptr: nat, size: nat): (h: nat)
    requires size > 0
    ensures h < size
  {
    ptr % size
  }

  ghost predicate NoSharedPtr(nodes: set<BlockNode>)
  {
    forall n, m :: n in nodes && m in nodes && n.memblk.ptr == m.memblk.ptr ==> n == m
  }

  ghost function Ptrs(nodes: set<BlockNode>): set<nat>
  {
    set n | n in nodes :: n.memblk.ptr
  }

  /** The finite map from user pointers to blocks that a table stands for. */
  ghost function Contents(nodes: set<BlockNode>): (c: map<nat, BlockNode>)
    ensures forall n {:trigger n in nodes} :: n in nodes ==> n.memblk.ptr in c
    ensures forall p {:trigger c[p]} :: p in c ==> c[p] in nodes && c[p].memblk.ptr == p
  {
    map p | p in Ptrs(nodes) :: (var n :| n in nodes && n.memblk.ptr == p; n)
  }

  /** Adding a block with a new pointer updates the map. */
  lemma AddIsUpdate(nodes: set<BlockNode>, n: BlockNode)
    requires NoSharedPtr(nodes) && n.memblk.ptr !in Contents(nodes)
    ensures NoSharedPtr(nodes + {n}) && Contents(nodes + {n}) == Contents(nodes)[n.memblk.ptr := n]
  {
    var c, d := Contents(nodes), Contents(nodes + {n});
    hide Contents;
    assert n in nodes + {n};
    forall p | p in d
      ensures p in c[n.memblk.ptr := n] && c[n.memblk.ptr := n][p] == d[p]
    {
      assert d[p] in nodes + {n} && d[p].memblk.ptr == p;
    }
    forall p | p in c
      ensures p in d
    {
      assert c[p] in nodes + {n};
    }
  }

  /** Removing a block deletes its pointer from the map. */
  lemma RemoveIsDelete(nodes: set<BlockNode>, n: BlockNode)
    requires NoSharedPtr(nodes) && n in nodes
    ensures NoSharedPtr(nodes - {n}) && Contents(nodes - {n}) == Contents(nodes) - {n.memblk.ptr}
  {
    var c, d := Contents(nodes), Contents(nodes - {n});
    assert forall p :: p in d ==> d[p] in nodes - {n} && d[p].memblk.ptr == p;
    AddIsUpdate(nodes - {n}, n);
    assert nodes - {n} + {n} == nodes;
  }

  /** What `Find` returns, and `Remove` takes out, is what the map holds at the pointer. */
  lemma FoundIsLookup(nodes: set<BlockNode>, ptr: nat, n: BlockNode?)
    requires NoSharedPtr(nodes)
    requires n == null ==> forall m :: m in nodes ==> m.memblk.ptr != ptr
    requires n != null ==> n in nodes && n.memblk.ptr == ptr
    ensures if ptr in Contents(nodes) then n == Contents(nodes)[ptr] else n == null
  {
    if ptr in Contents(nodes) {
      assert Contents(nodes)[ptr] in nodes;
    }
  }

  class PtrTable {
    const buckets: array<BlockNode?>
    ghost var chains: seq<seq<BlockNode>>
    ghost var nodes: set<BlockNode>

    ghost predicate Valid()
      reads this, buckets, nodes`hashNext, nodes`live
    {
      && Shape(buckets.Length, chains, nodes)
      && (forall n :: n in nodes ==> n.live)
      && (forall b {:trigger buckets[b]} :: 0 <= b < |chains| ==> buckets[b] == NodeAt(chains[b], 0))
      && (forall b, i {:trigger chains[b][i].hashNext} :: 0 <= b < |chains| && 0 <= i < |chains[b]| ==>
            chains[b][i].hashNext == NodeAt(chains[b], i + 1))
    }

    /** Pointers are distinct within the table. */
    ghost predicate UniquePtrs()
      reads this
    {
      NoSharedPtr(nodes)
    }

    constructor (size: nat)
      requires size > 0
      ensures Valid() && nodes == {} && buckets.Length == size && fresh(buckets)
      ensures UniquePtrs()
    {
      buckets := new BlockNode?[size](_ => null);
      chains := seq(size, _ => []);
      nodes := {};
    }

    function Hash(ptr: nat): (h: nat)
      requires buckets.Length > 0
      ensures h < buckets.Length
    {
      PtrHash(ptr, buckets.Length)
    }

    /** `for_each_hashnode`, used only to count. */
    method CountNodes() returns (count: nat)
      requires Valid()
      ensures count == |nodes|
    {
      hide Passed, Holds;
      WalkStart();
      count := 0;
      var b := 0;
      while b < buckets.Length
        invariant b <= buckets.Length
        invariant count == |Passed(chains, b, 0)|
      {
        var n := buckets[b];
        ghost var k := 0;
        while n != null
          invariant k <= |chains[b]| && n == NodeAt(chains[b], k)
          invariant count == |Passed(chains, b, k)|
          decreases |chains[b]| - k
        {
          WalkAt(b, k);
          count := count + 1;
          n := n.HashNext();
          k := k + 1;
        }
        PassRow(chains, b);
        b := b + 1;
      }
    }

    /** What holds where a bucket-by-bucket walk starts and ends. */
    lemma WalkStart()
      requires Valid()
      ensures |chains| == buckets.Length
      ensures Passed(chains, 0, 0) == {} && Passed(chains, |chains|, 0) == nodes
    {
      ShapeHolds(buckets.Length, chains, nodes);
    }

    lemma SomeBucket()
      requires Valid()
      ensures buckets.Length > 0
    {
    }

    lemma HeadAt(b: nat)
      requires Valid() && b < |chains|
      ensures b < buckets.Length && buckets[b] == NodeAt(chains[b], 0)
    {
    }

    lemma PassedInNodes(b: nat, k: nat)
      requires Valid() && b < |chains| && k <= |chains[b]|
      ensures Passed(chains, b, k) <= nodes
    {
      ShapeHolds(buckets.Length, chains, nodes);
      PassedWithin(chains, nodes, b, k);
    }

    /** What the table says about the node at position `k` of chain `b`. */
    lemma WalkAt(b: nat, k: nat)
      requires Valid() && b < |chains| && k < |chains[b]|
      ensures var n := chains[b][k];
        && n in nodes && Hash(n.memblk.ptr) == b && n.live && n.hashNext == NodeAt(chains[b], k + 1)
        && n !in Passed(chains, b, k) && Passed(chains, b, k + 1) == Passed(chains, b, k) + {n}
      ensures Distinct(chains[b])
    {
      ShapeHolds(buckets.Length, chains, nodes);
      PassOne(chains, nodes, b, k);
    }

    method Add(n: BlockNode)
      requires Valid() && n !in nodes && n.live
      modifies `chains, `nodes, buckets, n`hashNext
      ensures Valid() && nodes == old(nodes) + {n}
      ensures chains == old(chains)[Hash(n.memblk.ptr) := [n] + old(chains)[Hash(n.memblk.ptr)]]
    {
      var hash := Hash(n.memblk.ptr);
      n.hashNext := buckets[hash];
      buckets[hash] := n;
      chains := chains[hash := [n] + chains[hash]];
      nodes := nodes + {n};
    }

    method Find(ptr: nat) returns (n: BlockNode?)
      requires Valid()
      ensures n == null ==> forall m :: m in nodes ==> m.memblk.ptr != ptr
      ensures n != null ==> n in nodes && n.memblk.ptr == ptr
    {
      var hash := Hash(ptr);
      n := buckets[hash];
      ghost var k := 0;
      while n != null
        invariant 0 <= k <= |chains[hash]| && n == NodeAt(chains[hash], k)
        invariant forall j :: 0 <= j < k ==> chains[hash][j].memblk.ptr != ptr
        decreases |chains[hash]| - k
      {
        if n.memblk.ptr == ptr {
          break;
        }
        n := n.HashNext();
        k := k + 1;
      }
    }

    method Remove(ptr: nat) returns (n: BlockNode?, ghost k: nat)
      requires Valid()
      modifies `chains, `nodes, buckets, nodes`hashNext
      ensures Valid()
      ensures n == null ==> nodes == old(nodes) && chains == old(chains)
      ensures n == null ==> forall m :: m in nodes ==> m.memblk.ptr != ptr
      ensures n != null ==>
        var c := old(chains)[Hash(ptr)];
        && n in old(nodes) && n.memblk.ptr == ptr && n.hashNext == old(n.hashNext) && n.live
        && nodes == old(nodes) - {n}
        && k < |c| && c[k] == n && (forall j :: 0 <= j < k ==> c[j].memblk.ptr != ptr)
        && chains == old(chains)[Hash(ptr) := RemoveAt(c, k)]
    {
      var hash := Hash(ptr);
      var prev: BlockNode? := null;
      n := buckets[hash];
      k := 0;
      ghost var c := chains[hash];
      while n != null
        invariant 0 <= k <= |c| && n == NodeAt(c, k)
        invariant prev == if k == 0 then null else c[k - 1]
        invariant forall j :: 0 <= j < k ==> c[j].memblk.ptr != ptr
        decreases |c| - k
      {
        if n.memblk.ptr == ptr {
          break;
        }
        prev := n;
        n := n.HashNext();
        k := k + 1;
      }
      if n == null {
        return;
      }
      Unlink(hash, prev, n, k);
    }

    /** The last part of a removal: bypass the node at position `k` of its chain. */
    method Unlink(hash: nat, prev: BlockNode?, n: BlockNode, ghost k: nat)
      requires Valid()
      requires hash < |chains| && k < |chains[hash]| && chains[hash][k] == n
      requires prev == if k == 0 then null else chains[hash][k - 1]
      modifies `chains, `nodes, buckets, nodes`hashNext
      ensures Valid() && n.hashNext == old(n.hashNext)
      ensures nodes == old(nodes) - {n}
      ensures chains == old(chains)[hash := RemoveAt(old(chains)[hash], k)]
    {
      hide Shape;
      ghost var c := chains[hash];
      OnlyPlace(buckets.Length, chains, nodes, hash, k);
      if k > 0 {
        OnlyPlace(buckets.Length, chains, nodes, hash, k - 1);
      }
      ShapeRemove(buckets.Length, chains, nodes, hash, k);
      if prev != null {
        prev.hashNext := n.HashNext();
      } else {
        buckets[hash] := n.HashNext();
      }
      ghost var c' := RemoveAt(c, k);
      forall i | 0 <= i < |c'|
        ensures c'[i].hashNext == NodeAt(c', i + 1)
      {
        assert c'[i] == c[if i < k then i else i + 1];
        assert i + 1 < |c'| ==> c'[i + 1] == c[if i + 1 < k then i + 1 else i + 2];
      }
      chains := chains[hash := c'];
      nodes := nodes - {n};
    }
  }

  /** Every node sits in its own hash's chain, once; the chains hold exactly `nodes`. */
  ghost predicate Shape(size: nat, chains: seq<seq<BlockNode>>, nodes: set<BlockNode>)
  {
    && |chains| == size > 0
    && (forall b {:trigger chains[b]} :: 0 <= b < size ==> Distinct(chains[b]))
    && (forall b, i {:trigger chains[b][i]} :: 0 <= b < size && 0 <= i < |chains[b]| ==>
          chains[b][i] in nodes && PtrHash(chains[b][i].memblk.ptr, size) == b)
    && (forall n :: n in nodes ==> n in chains[PtrHash(n.memblk.ptr, size)])
  }

  lemma OnlyPlace(size: nat, chains: seq<seq<BlockNode>>, nodes: set<BlockNode>, h: nat, k: nat)
    requires Shape(size, chains, nodes) && h < |chains| && k < |chains[h]|
    ensures |chains| == size && chains[h][k] in nodes
    ensures forall b, i {:trigger chains[b][i]} :: 0 <= b < size && 0 <= i < |chains[b]| ==>
      chains[b][i] in nodes && (chains[b][i] == chains[h][k] ==> b == h && i == k)
  {
  }

  /** Taking one node out of its chain keeps the shape, for the remaining nodes. */
  lemma ShapeRemove(size: nat, chains: seq<seq<BlockNode>>, nodes: set<BlockNode>, h: nat, k: nat)
    requires Shape(size, chains, nodes) && h < size && k < |chains[h]|
    ensures Shape(size, chains[h := RemoveAt(chains[h], k)], nodes - {chains[h][k]})
  {
    var c, n := chains[h], chains[h][k];
    var c' := RemoveAt(c, k);
    forall m | m in nodes - {n} && m in c
      ensures m in c'
    {
      var i :| 0 <= i < |c| && c[i] == m;
      assert c'[if i < k then i else i - 1] == m;
    }
  }

  lemma ShapeHolds(size: nat, chains: seq<seq<BlockNode>>, nodes: set<BlockNode>)
    requires Shape(size, chains, nodes)
    ensures Holds(chains, nodes)
  {
    var rows := Rows(chains, size);
    forall n | n in nodes
      ensures n in rows
    {
      InRows(chains, size, n);
      assert n in chains[PtrHash(n.memblk.ptr, size)];
    }
    forall n | n in rows
      ensures n in nodes
    {
      InRows(chains, size, n);
      var c :| 0 <= c < size && n in chains[c];
      var i :| 0 <= i < |chains[c]| && chains[c][i] == n;
    }
    assert nodes == rows;
  }
}

/** Copying a table of blocks, and giving a whole table back to the pool (memchk_snapshot.c). */
module Copies {
  import opened Blocks
  import opened Chains
  import opened Tally
  import opened PtrHashtable

  /** `copyOf` pairs blocks one to one with blocks that carry the same record and allocator. */
  ghost predicate Copying(copyOf: map<BlockNode, BlockNode>)
  {
    && (forall n {:trigger copyOf[n]} :: n in copyOf ==>
          copyOf[n].memblk == n.memblk && copyOf[n].allocator == n.allocator)
    && (forall n, m {:trigger copyOf[n], copyOf[m]} :: n in copyOf && m in copyOf && copyOf[n] == copyOf[m] ==> n == m)
  }

  lemma OneCopyLess(copyOf: map<BlockNode, BlockNode>, n: BlockNode)
    requires Copying(copyOf) && n in copyOf
    ensures var rest := copyOf - {n};
      && Copying(rest) && rest.Keys == copyOf.Keys - {n} && rest.Values == copyOf.Values - {copyOf[n]}
      && |rest| < |copyOf|
    ensures copyOf[n] in copyOf.Values && copyOf[n].memblk == n.memblk && copyOf[n].allocator == n.allocator
  {
    var rest := copyOf - {n};
    assert rest.Keys == copyOf.Keys - {n};
    forall m | m in copyOf && m != n
      ensures m in rest && rest[m] == copyOf[m] && copyOf[m] != copyOf[n]
    {
    }
    assert copyOf.Keys == rest.Keys + {n};
  }

  /** Copies weigh the same as the originals, kind by kind and call stack by call stack. */
  lemma {:induction false} CopiesTally(copyOf: map<BlockNode, BlockNode>, cs: Callstack, z: nat)
    requires Copying(copyOf)
    ensures Count(copyOf.Values, cs, z) == Count(copyOf.Keys, cs, z)
    ensures BytesOf(copyOf.Values, cs) == BytesOf(copyOf.Keys, cs)
    ensures Bytes(copyOf.Values) == Bytes(copyOf.Keys)
    decreases |copyOf|
  {
    hide Copying, Count, BytesOf, Bytes;
    if copyOf.Keys == {} {
      assert copyOf.Values == copyOf.Keys;
    } else {
      var n :| n in copyOf.Keys;
      var rest := copyOf - {n};
      OneCopyLess(copyOf, n);
      CopiesTally(rest, cs, z);
      OneLess(copyOf.Keys, n, cs, z);
      OneLess(copyOf.Values, copyOf[n], cs, z);
      BytesWithout(copyOf.Keys, n);
      BytesWithout(copyOf.Values, copyOf[n]);
    }
  }

  /**
    Half-way through copying: each chain of `dest` holds, in reverse, copies of what a walk that stands
    at position `k` of chain `b` has passed of the same chain of `src`.
   */
  ghost predicate Mirrored(dest: seq<seq<BlockNode>>, src: seq<seq<BlockNode>>, b: nat, k: nat)
    requires b <= |src| && (b < |src| ==> k <= |src[b]|)
  {
    && |dest| == |src|
    && (forall c {:trigger dest[c]} :: 0 <= c < |src| ==>
          |dest[c]| == if c < b then |src[c]| else if c == b then k else 0)
    && (forall c, i {:trigger dest[c][i]} :: 0 <= c < |src| && 0 <= i < |dest[c]| ==>
          dest[c][i].memblk == src[c][|dest[c]| - 1 - i].memblk)
  }

  lemma CopyingNone()
    ensures Copying(map[])
  {
  }

  lemma MirrorNone(t: PtrTable, src: seq<seq<BlockNode>>)
    requires t.Valid() && t.nodes == {} && |src| == t.buckets.Length
    ensures Mirrored(t.chains, src, 0, 0)
  {
    assert forall c :: 0 <= c < |t.chains| && t.chains[c] != [] ==> t.chains[c][0] in t.nodes;
  }

  lemma MirrorOne(dest: seq<seq<BlockNode>>, src: seq<seq<BlockNode>>, b: nat, k: nat, copy: BlockNode)
    requires b < |src| && k < |src[b]| && Mirrored(dest, src, b, k) && copy.memblk == src[b][k].memblk
    ensures Mirrored(dest[b := [copy] + dest[b]], src, b, k + 1)
  {
  }

  lemma MirrorRow(dest: seq<seq<BlockNode>>, src: seq<seq<BlockNode>>, b: nat)
    requires b < |src| && Mirrored(dest, src, b, |src[b]|)
    ensures Mirrored(dest, src, b + 1, 0)
  {
  }

  /** Add a fresh copy of every block of `src` to `dest`, each in front of its chain. */
  method DuplicateAll(dest: PtrTable, src: PtrTable) returns (ghost copyOf: map<BlockNode, BlockNode>)
    requires dest.Valid() && src.Valid() && dest != src && dest.buckets != src.buckets && dest.nodes !! src.nodes
    modifies dest`chains, dest`nodes, dest.buckets
    ensures dest.Valid() && src.Valid() && Copying(copyOf) && copyOf.Keys == src.nodes
    ensures fresh(copyOf.Values) && dest.nodes == old(dest.nodes) + copyOf.Values
    ensures old(dest.nodes) == {} && dest.buckets.Length == src.buckets.Length ==>
      Mirrored(dest.chains, src.chains, |src.chains|, 0)
  {
    hide PtrTable.Valid, Passed, Mirrored, Copying, PtrHash;
    CopyingNone();
    src.WalkStart();
    copyOf := map[];
    ghost var alike := dest.nodes == {} && dest.buckets.Length == src.buckets.Length;
    if alike {
      MirrorNone(dest, src.chains);
    }
    var b := 0;
    while b < src.buckets.Length
      invariant b <= src.buckets.Length == |src.chains|
      invariant dest.Valid() && src.Valid() && Copying(copyOf) && copyOf.Keys == Passed(src.chains, b, 0)
      invariant fresh(copyOf.Values) && dest.nodes == old(dest.nodes) + copyOf.Values
      invariant alike ==> Mirrored(dest.chains, src.chains, b, 0)
    {
      src.HeadAt(b);
      var n := src.buckets[b];
      ghost var k := 0;
      while n != null
        invariant k <= |src.chains[b]| && n == NodeAt(src.chains[b], k)
        invariant dest.Valid() && src.Valid() && Copying(copyOf) && copyOf.Keys == Passed(src.chains, b, k)
        invariant fresh(copyOf.Values) && dest.nodes == old(dest.nodes) + copyOf.Values
        invariant alike ==> Mirrored(dest.chains, src.chains, b, k)
        decreases |src.chains[b]| - k
      {
        src.WalkAt(b, k);
        dest.SomeBucket();
        copyOf := CopyOne(dest, src, n, b, k, alike, copyOf);
        n := n.HashNext();
        k := k + 1;
      }
      PassRow(src.chains, b);
      if alike {
        MirrorRow(dest.chains, src.chains, b);
      }
      b := b + 1;
    }
  }

  /** Put a copy of `n`, on which the walk along `src` stands, into `dest`. */
  method CopyOne(dest: PtrTable, ghost src: PtrTable, n: BlockNode, ghost b: nat, ghost k: nat, ghost alike: bool,
                 ghost copyOf: map<BlockNode, BlockNode>)
    returns (ghost copyOf': map<BlockNode, BlockNode>)
    requires dest.Valid() && dest.buckets.Length > 0 && Copying(copyOf) && n !in copyOf && copyOf.Values <= dest.nodes
    requires b < |src.chains| && k < |src.chains[b]| && n == src.chains[b][k]
    requires alike ==> Mirrored(dest.chains, src.chains, b, k) && dest.Hash(n.memblk.ptr) == b
    requires dest != src
    modifies dest`chains, dest`nodes, dest.buckets
    ensures dest.Valid() && Copying(copyOf') && copyOf'.Keys == copyOf.Keys + {n}
    ensures fresh(copyOf'.Values - copyOf.Values) && copyOf.Values <= copyOf'.Values
    ensures dest.nodes == old(dest.nodes) + copyOf'.Values
    ensures alike ==> Mirrored(dest.chains, src.chains, b, k + 1)
  {
    hide PtrTable.Valid, Mirrored, Copying;
    var copy := new BlockNode(n.memblk, n.allocator, null);
    if alike {
      MirrorOne(dest.chains, src.chains, b, k, copy);
    }
    dest.Add(copy);
    copyOf' := AddPair(copyOf, n, copy);
  }

  ghost function AddPair(copyOf: map<BlockNode, BlockNode>, n: BlockNode, copy: BlockNode):
    (r: map<BlockNode, BlockNode>)
    requires Copying(copyOf) && n !in copyOf && copy !in copyOf.Values
    requires copy.memblk == n.memblk && copy.allocator == n.allocator
    ensures Copying(r) && r.Keys == copyOf.Keys + {n} && r.Values == copyOf.Values + {copy}
  {
    assert forall m :: m in copyOf ==> copyOf[m] in copyOf.Values;
    var r := copyOf[n := copy];
    assert forall m :: m in copyOf ==> r[m] == copyOf[m];
    assert r[n] == copy;
    r
  }

  /**
    Half-way through destroying a table: blocks passed are back in the pool, except the last one, whose
    link is still needed; those ahead are untouched.
   */
  ghost predicate HalfFreed(t: PtrTable, b: nat, k: nat, prev: BlockNode?)
    reads t, t.buckets, t.nodes`hashNext, t.nodes`live
  {
    && Shape(t.buckets.Length, t.chains, t.nodes)
    && b <= |t.chains| && (b < |t.chains| ==> k <= |t.chains[b]|) && (b == |t.chains| ==> k == 0)
    && (forall c {:trigger t.buckets[c]} :: 0 <= c < |t.chains| ==> t.buckets[c] == NodeAt(t.chains[c], 0))
    && (forall c, i {:trigger t.chains[c][i].hashNext} :: 0 <= c < |t.chains| && 0 <= i < |t.chains[c]| ==>
          t.chains[c][i].live ==> t.chains[c][i].hashNext == NodeAt(t.chains[c], i + 1))
    && (forall n :: n in t.nodes ==> (n.live <==> n !in Passed(t.chains, b, k) || n == prev))
    && (prev != null ==> prev in Passed(t.chains, b, k) && prev in t.nodes)
  }

  /** Give every block of the table back to the pool, each one round late, and empty the buckets. */
  method DestroyAll(t: PtrTable)
    requires t.Valid()
    modifies t`chains, t`nodes, t.buckets, t.nodes
    ensures t.Valid() && t.nodes == {}
    ensures forall n :: n in old(t.nodes) ==> !n.live
  {
    hide PtrTable.Valid, HalfFreed, Shape, Passed;
    HalfStart(t);
    var prev: BlockNode? := null;
    var b := 0;
    while b < t.buckets.Length
      invariant b <= t.buckets.Length == |t.chains| && t.nodes == old(t.nodes)
      invariant HalfFreed(t, b, 0, prev)
    {
      HalfHead(t, b, prev);
      var n := t.buckets[b];
      ghost var k := 0;
      while n != null
        invariant t.nodes == old(t.nodes) && t.buckets.Length == |t.chains|
        invariant k <= |t.chains[b]| && n == NodeAt(t.chains[b], k)
        invariant HalfFreed(t, b, k, prev)
        decreases |t.chains[b]| - k
      {
        FreePrevious(t, n, b, k, prev);
        prev := n;
        n := n.HashNext();
        k := k + 1;
      }
      HalfRow(t, b, prev);
      b := b + 1;
    }
    FreeLast(t, prev);
    Clear(t);
  }

  lemma HalfStart(t: PtrTable)
    requires t.Valid()
    ensures HalfFreed(t, 0, 0, null) && |t.chains| == t.buckets.Length
  {
    t.WalkStart();
  }

  lemma HalfHead(t: PtrTable, b: nat, prev: BlockNode?)
    requires HalfFreed(t, b, 0, prev) && b < |t.chains|
    ensures t.buckets.Length == |t.chains| && t.buckets[b] == NodeAt(t.chains[b], 0)
  {
  }

  lemma HalfRow(t: PtrTable, b: nat, prev: BlockNode?)
    requires b < |t.chains| && HalfFreed(t, b, |t.chains[b]|, prev)
    ensures HalfFreed(t, b + 1, 0, prev)
  {
    PassRow(t.chains, b);
  }

  method FreePrevious(t: PtrTable, n: BlockNode, ghost b: nat, ghost k: nat, prev: BlockNode?)
    requires HalfFreed(t, b, k, prev)
    requires b < |t.chains| && k < |t.chains[b]| && n == t.chains[b][k]
    modifies t.nodes
    ensures HalfFreed(t, b, k + 1, n)
    ensures n.live && n.hashNext == NodeAt(t.chains[b], k + 1)
  {
    hide Passed;
    ShapeHolds(t.buckets.Length, t.chains, t.nodes);
    PassOne(t.chains, t.nodes, b, k);
    if prev != null {
      FreeNode(prev);
    }
  }

  method FreeLast(t: PtrTable, prev: BlockNode?)
    requires HalfFreed(t, |t.chains|, 0, prev)
    modifies t.nodes
    ensures forall n :: n in t.nodes ==> !n.live
    ensures t.buckets.Length == |t.chains| > 0
  {
    ShapeHolds(t.buckets.Length, t.chains, t.nodes);
    if prev != null {
      FreeNode(prev);
    }
  }

  method Clear(t: PtrTable)
    requires t.buckets.Length > 0
    modifies t`chains, t`nodes, t.buckets
    ensures t.Valid() && t.nodes == {}
  {
    forall i | 0 <= i < t.buckets.Length {
      t.buckets[i] := null;
    }
    t.chains := seq(t.buckets.Length, _ => []);
    t.nodes := {};
  }
}

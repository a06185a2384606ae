/** The snapshot commands (memchk_manage_memblk.c): take a snapshot, compare with it. */
module Commands {
  import opened Blocks
  import opened Tally
  import opened Cancelling
  import opened PtrHashtable
  import opened CallstackHashtable
  import opened Compare
  import opened Copies

  /** The same number of blocks of every kind, and the same bytes per call stack and overall. */
  ghost predicate SameTally(stacks: set<Callstack>, a: set<BlockNode>, b: set<BlockNode>)
  {
    && (forall cs, z {:trigger Count(a, cs, z)} {:trigger Count(b, cs, z)} :: cs in stacks ==>
          Count(a, cs, z) == Count(b, cs, z))
    && (forall cs {:trigger BytesOf(a, cs)} {:trigger BytesOf(b, cs)} :: cs in stacks ==>
          BytesOf(a, cs) == BytesOf(b, cs))
    && Bytes(a) == Bytes(b)
  }

  datatype Record = Record(memblk: Memblk, allocator: Callstack)

  /** What a table says about its blocks. */
  ghost function Records(s: set<BlockNode>): set<Record>
  {
    set n | n in s :: Record(n.memblk, n.allocator)
  }

  lemma CopiesRecords(copyOf: map<BlockNode, BlockNode>)
    requires Copying(copyOf)
    ensures Records(copyOf.Values) == Records(copyOf.Keys)
  {
    forall r | r in Records(copyOf.Keys)
      ensures r in Records(copyOf.Values)
    {
      var n :| n in copyOf && r == Record(n.memblk, n.allocator);
      assert copyOf[n] in copyOf.Values && r == Record(copyOf[n].memblk, copyOf[n].allocator);
    }
  }

  /** Equal records: whatever is in the one, the other has a block just like it. */
  lemma JustLike(a: set<BlockNode>, b: set<BlockNode>, n: BlockNode) returns (m: BlockNode)
    requires Records(a) == Records(b) && n in a
    ensures m in b && m.memblk == n.memblk && m.allocator == n.allocator
  {
    assert Record(n.memblk, n.allocator) in Records(a);
    m :| m in b && Record(n.memblk, n.allocator) == Record(m.memblk, m.allocator);
  }

  /**
    No live block is in `fewer`. Of each kind whose live blocks all are in the snapshot, too, `more` has none,
    and `fewer` has exactly the records of those snapshot blocks whose pointer no live block of the kind has.
   */
  ghost predicate TwinsReported(stacks: set<Callstack>, live: set<BlockNode>, snapshot: set<BlockNode>,
                                more: set<BlockNode>, fewer: set<BlockNode>)
  {
    && Records(more) <= Records(live) && Records(fewer) <= Records(snapshot)
    && (forall n, s :: n in live && s in fewer ==> !Twin(n, s))
    && forall cs, z {:trigger Twinned(live, snapshot, cs, z)} :: cs in stacks && Twinned(live, snapshot, cs, z) ==>
      && (forall n :: n in more ==> !(n.allocator == cs && n.memblk.usrsize == z))
      && (forall s :: s in snapshot && s.allocator == cs && s.memblk.usrsize == z ==>
            (Record(s.memblk, cs) in Records(fewer) <==> forall n :: n in live ==> !Twin(n, s)))
  }

  lemma TwinnedCopies(a: set<BlockNode>, b: set<BlockNode>, a': set<BlockNode>, b': set<BlockNode>,
                      cs: Callstack, z: nat)
    requires Records(a) == Records(a') && Records(b) == Records(b') && Twinned(a, b, cs, z)
    ensures Twinned(a', b', cs, z)
  {
    hide Records;
    forall n' | n' in a' && n'.allocator == cs && n'.memblk.usrsize == z
      ensures exists s' :: s' in b' && Twin(n', s')
    {
      var n := JustLike(a', a, n');
      var s :| s in b && Twin(n, s);
      var s' := JustLike(b, b', s);
    }
  }

  lemma StillThere(a: set<BlockNode>, a': set<BlockNode>, n: BlockNode, s: BlockNode)
    requires Records(a) == Records(a') && n in a && forall n' :: n' in a' ==> !Twin(n', s)
    ensures !Twin(n, s)
  {
    var n' := JustLike(a, a', n);
    assert !Twin(n', s);
  }

  lemma FewerOfCopies(a: set<BlockNode>, b: set<BlockNode>, a': set<BlockNode>, b': set<BlockNode>,
                      fewer: set<BlockNode>, s: BlockNode)
    requires Records(a) == Records(a') && Records(b) == Records(b')
    requires OnePtrEach(b') && fewer <= b' && s in b
    requires forall s' :: s' in b' && s'.allocator == s.allocator && s'.memblk.usrsize == s.memblk.usrsize ==>
      (s' in fewer <==> forall n :: n in a' ==> !Twin(n, s'))
    ensures Record(s.memblk, s.allocator) in Records(fewer) <==> forall n :: n in a ==> !Twin(n, s)
  {
    var s' := JustLike(b, b', s);
    assert s' in fewer ==> Record(s'.memblk, s'.allocator) in Records(fewer);
    if Record(s.memblk, s.allocator) in Records(fewer) {
      var f :| f in fewer && Record(s.memblk, s.allocator) == Record(f.memblk, f.allocator);
      assert f == s';
    }
    if n :| n in a && Twin(n, s) {
      var n' := JustLike(a, a', n);
      assert Twin(n', s');
    }
    if n' :| n' in a' && Twin(n', s') {
      var n := JustLike(a', a, n');
      assert Twin(n, s);
    }
  }

  lemma TwinsOfCopies(stacks: set<Callstack>, a: set<BlockNode>, b: set<BlockNode>,
                      a': set<BlockNode>, b': set<BlockNode>, more: set<BlockNode>, fewer: set<BlockNode>)
    requires Records(a) == Records(a') && Records(b) == Records(b') && OnePtrEach(b')
    requires more <= a' && fewer <= b' && TwinsGone(stacks, a', b', more, fewer)
    ensures TwinsReported(stacks, a, b, more, fewer)
  {
    hide Twinned, OnePtrEach, Twin;
    assert Records(more) <= Records(a') && Records(fewer) <= Records(b');
    hide Records;
    forall n, s | n in a && s in fewer
      ensures !Twin(n, s)
    {
      StillThere(a, a', n, s);
    }
    forall cs, z | cs in stacks && Twinned(a, b, cs, z)
      ensures forall n :: n in more ==> !(n.allocator == cs && n.memblk.usrsize == z)
      ensures forall s :: s in b && s.allocator == cs && s.memblk.usrsize == z ==>
        (Record(s.memblk, cs) in Records(fewer) <==> forall n :: n in a ==> !Twin(n, s))
    {
      TwinnedCopies(a, b, a', b', cs, z);
      forall s | s in b && s.allocator == cs && s.memblk.usrsize == z
        ensures Record(s.memblk, cs) in Records(fewer) <==> forall n :: n in a ==> !Twin(n, s)
      {
        FewerOfCopies(a, b, a', b', fewer, s);
      }
    }
  }

  lemma CopiesSame(copyOf: map<BlockNode, BlockNode>, stacks: set<Callstack>)
    requires Copying(copyOf)
    ensures SameTally(stacks, copyOf.Keys, copyOf.Values)
  {
    var a, b := copyOf.Keys, copyOf.Values;
    forall cs, z | cs in stacks
      ensures Count(a, cs, z) == Count(b, cs, z)
    {
      CopiesTally(copyOf, cs, z);
    }
    forall cs | cs in stacks
      ensures BytesOf(a, cs) == BytesOf(b, cs)
    {
      CopiesTally(copyOf, cs, 0);
    }
    if a == {} {
      assert b == {};
    } else {
      var n :| n in a;
      CopiesTally(copyOf, n.allocator, 0);
    }
  }

  /** Fill an empty table with copies of another table's blocks. */
  method Duplicate(dest: PtrTable, src: PtrTable, ghost stacks: set<Callstack>)
    requires dest.Valid() && dest.nodes == {} && src.Valid() && src.UniquePtrs()
    requires dest != src && dest.buckets != src.buckets && AllocatorsIn(src.nodes, stacks)
    modifies dest`chains, dest`nodes, dest.buckets
    ensures dest.Valid() && dest.UniquePtrs() && src.Valid() && fresh(dest.nodes)
    ensures AllocatorsIn(dest.nodes, stacks) && SameTally(stacks, src.nodes, dest.nodes)
    ensures Records(dest.nodes) == Records(src.nodes)
  {
    hide PtrTable.Valid, SameTally, Records;
    ghost var copyOf := DuplicateAll(dest, src);
    CopiesSame(copyOf, stacks);
    CopiesRecords(copyOf);
    assert dest.nodes == copyOf.Values;
    forall n, m | n in dest.nodes && m in dest.nodes && n.memblk.ptr == m.memblk.ptr
      ensures n == m
    {
      var n0 :| n0 in copyOf && copyOf[n0] == n;
      var m0 :| m0 in copyOf && copyOf[m0] == m;
    }
  }

  /** `mc_create_snapshot`: drop the old snapshot and copy the current blocks. */
  method CreateSnapshot(live: PtrTable, snapshot: PtrTable, ghost stacks: set<Callstack>)
    requires live.Valid() && live.UniquePtrs() && snapshot.Valid()
    requires live != snapshot && live.buckets != snapshot.buckets && live.nodes !! snapshot.nodes
    requires AllocatorsIn(live.nodes, stacks)
    modifies snapshot`chains, snapshot`nodes, snapshot.buckets, snapshot.nodes
    ensures live.Valid() && snapshot.Valid() && snapshot.UniquePtrs() && fresh(snapshot.nodes)
    ensures AllocatorsIn(snapshot.nodes, stacks) && SameTally(stacks, live.nodes, snapshot.nodes)
    ensures Records(snapshot.nodes) == Records(live.nodes)
    ensures forall n :: n in old(snapshot.nodes) ==> !n.live
  {
    hide PtrTable.Valid, SameTally, Records;
    DestroyAll(snapshot);
    Duplicate(snapshot, live, stacks);
  }

  lemma DifferenceOfCopies(stacks: set<Callstack>, a: set<BlockNode>, b: set<BlockNode>,
                           a': set<BlockNode>, b': set<BlockNode>, more: set<BlockNode>, fewer: set<BlockNode>)
    requires SameTally(stacks, a, a') && SameTally(stacks, b, b') && Difference(stacks, a', b', more, fewer)
    ensures Difference(stacks, a, b, more, fewer)
  {
    forall cs, z | cs in stacks
      ensures Count(more, cs, z) == Excess(Count(a, cs, z), Count(b, cs, z))
      ensures Count(fewer, cs, z) == Excess(Count(b, cs, z), Count(a, cs, z))
    {
      assert Count(a', cs, z) == Count(a, cs, z) && Count(b', cs, z) == Count(b, cs, z);
    }
  }

  lemma ReportOfCopies(listed: seq<Callstack>, stacks: set<Callstack>, a: set<BlockNode>, b: set<BlockNode>,
                       a': set<BlockNode>, b': set<BlockNode>)
    requires SameTally(stacks, a, a') && SameTally(stacks, b, b') && GoodReport(listed, stacks, a', b')
    ensures GoodReport(listed, stacks, a, b)
  {
    forall c | c in stacks
      ensures Net(a, b, c) == Net(a', b', c)
    {
      assert BytesOf(a', c) == BytesOf(a, c) && BytesOf(b', c) == BytesOf(b, c);
    }
    assert forall c :: c in listed ==> c in stacks by {
      assert forall c :: c in listed ==> c in Chains.Elements(listed);
    }
  }

  /** Comparing with a snapshot of the very same blocks finds nothing on either side. */
  lemma NoBlockChanged(stacks: set<Callstack>, a: set<BlockNode>, b: set<BlockNode>,
                       more: set<BlockNode>, fewer: set<BlockNode>)
    requires SameTally(stacks, a, b) && Difference(stacks, a, b, more, fewer)
    requires AllocatorsIn(more, stacks) && AllocatorsIn(fewer, stacks)
    ensures more == {} && fewer == {}
  {
    forall cs, z | cs in stacks
      ensures OfKind(more, cs, z) == {} && OfKind(fewer, cs, z) == {}
    {
      assert Count(a, cs, z) == Count(b, cs, z);
      assert Count(more, cs, z) == 0 && Count(fewer, cs, z) == 0;
    }
    assert forall n :: n in more ==> n in OfKind(more, n.allocator, n.memblk.usrsize);
    assert forall n :: n in fewer ==> n in OfKind(fewer, n.allocator, n.memblk.usrsize);
  }

  method DuplicateBoth(live: PtrTable, snapshot: PtrTable, liveCopy: PtrTable, snapshotCopy: PtrTable,
                       stacks: CallstackTable)
    requires Comparable(live, snapshot, stacks)
    requires liveCopy.Valid() && liveCopy.nodes == {} && snapshotCopy.Valid() && snapshotCopy.nodes == {}
    requires liveCopy != snapshotCopy && {liveCopy, snapshotCopy} !! {live, snapshot}
    requires liveCopy.buckets != snapshotCopy.buckets
    requires {liveCopy.buckets, snapshotCopy.buckets} !! {live.buckets, snapshot.buckets}
    modifies liveCopy`chains, liveCopy`nodes, liveCopy.buckets
    modifies snapshotCopy`chains, snapshotCopy`nodes, snapshotCopy.buckets
    ensures Comparable(live, snapshot, stacks) && Comparable(liveCopy, snapshotCopy, stacks)
    ensures fresh(liveCopy.nodes) && fresh(snapshotCopy.nodes)
    ensures SameTally(stacks.nodes, live.nodes, liveCopy.nodes)
    ensures SameTally(stacks.nodes, snapshot.nodes, snapshotCopy.nodes)
    ensures Records(liveCopy.nodes) == Records(live.nodes) && Records(snapshotCopy.nodes) == Records(snapshot.nodes)
  {
    hide Records, PtrTable.Valid, CallstackTable.Valid, PtrTable.UniquePtrs, SameTally, HeadsEmpty, AllocatorsIn;
    Duplicate(liveCopy, live, stacks.nodes);
    Duplicate(snapshotCopy, snapshot, stacks.nodes);
  }

  /**
    `mc_compare_with_snapshot_per_callstack`: compare copies of the live and snapshot blocks, leaving
    both as they are. `more` and `fewer` are the blocks found on one side only. All copies are given back.
   */
  method CompareWithSnapshotPerCallstack(live: PtrTable, snapshot: PtrTable, liveCopy: PtrTable, snapshotCopy: PtrTable,
                                         stacks: CallstackTable)
    returns (numCur: int, numSnap: int, report: array<Callstack?>, ghost listed: seq<Callstack>,
             ghost more: set<BlockNode>, ghost fewer: set<BlockNode>,
             ghost liveCopies: set<BlockNode>, ghost snapshotCopies: set<BlockNode>)
    requires Comparable(live, snapshot, stacks)
    requires liveCopy.Valid() && liveCopy.nodes == {} && snapshotCopy.Valid() && snapshotCopy.nodes == {}
    requires liveCopy != snapshotCopy && {liveCopy, snapshotCopy} !! {live, snapshot}
    requires liveCopy.buckets != snapshotCopy.buckets
    requires {liveCopy.buckets, snapshotCopy.buckets} !! {live.buckets, snapshot.buckets}
    modifies liveCopy`chains, liveCopy`nodes, liveCopy.buckets
    modifies snapshotCopy`chains, snapshotCopy`nodes, snapshotCopy.buckets
    modifies stacks.nodes`groupHead, stacks.nodes`totalSize
    ensures Comparable(live, snapshot, stacks) && live.nodes == old(live.nodes) && snapshot.nodes == old(snapshot.nodes)
    ensures liveCopy.Valid() && liveCopy.nodes == {} && snapshotCopy.Valid() && snapshotCopy.nodes == {}
    ensures Difference(stacks.nodes, live.nodes, snapshot.nodes, more, fewer)
    ensures TwinsReported(stacks.nodes, live.nodes, snapshot.nodes, more, fewer)
    ensures more <= liveCopies && fewer <= snapshotCopies && liveCopies !! snapshotCopies
    ensures Records(liveCopies) == Records(live.nodes) && Records(snapshotCopies) == Records(snapshot.nodes)
    ensures fresh(liveCopies) && fresh(snapshotCopies) && forall n :: n in liveCopies + snapshotCopies ==> !n.live
    ensures numCur == |more| && numSnap == |fewer|
    ensures report.Length == |listed| && forall i :: 0 <= i < |listed| ==> report[i] == listed[i]
    ensures GoodReport(listed, stacks.nodes, live.nodes, snapshot.nodes)
  {
    hide PtrTable.Valid, CallstackTable.Valid, PtrTable.UniquePtrs, HeadsEmpty, AllocatorsIn;
    hide SameTally, Difference, GoodReport, Records, TwinsGone, TwinsReported;
    DuplicateBoth(live, snapshot, liveCopy, snapshotCopy, stacks);
    liveCopies, snapshotCopies := liveCopy.nodes, snapshotCopy.nodes;
    OnePtrs(snapshotCopy);
    numCur, numSnap, report, listed := CompareCopies(liveCopy, snapshotCopy, stacks, live, snapshot);
    more, fewer := liveCopy.nodes, snapshotCopy.nodes;
    DifferenceOfCopies(stacks.nodes, live.nodes, snapshot.nodes, liveCopies, snapshotCopies, more, fewer);
    TwinsOfCopies(stacks.nodes, live.nodes, snapshot.nodes, liveCopies, snapshotCopies, more, fewer);
    ReportOfCopies(listed, stacks.nodes, live.nodes, snapshot.nodes, liveCopies, snapshotCopies);
    DestroyBoth(liveCopy, snapshotCopy, live, snapshot, stacks);
  }

  /** Of blocks `before`, those no longer left are back in the pool. */
  ghost predicate GivenBack(before: set<BlockNode>, left: set<BlockNode>)
    reads before`live
  {
    forall n :: n in before && n !in left ==> !n.live
  }

  lemma OnePtrs(t: PtrTable)
    requires t.UniquePtrs()
    ensures OnePtrEach(t.nodes)
  {
  }

  /** Comparing copies leaves the copied tables as they are. */
  method CompareCopies(liveCopy: PtrTable, snapshotCopy: PtrTable, stacks: CallstackTable,
                       ghost live: PtrTable, ghost snapshot: PtrTable)
    returns (numCur: int, numSnap: int, report: array<Callstack?>, ghost listed: seq<Callstack>)
    requires Comparable(liveCopy, snapshotCopy, stacks) && Comparable(live, snapshot, stacks)
    requires liveCopy.nodes + snapshotCopy.nodes !! live.nodes + snapshot.nodes
    requires {liveCopy, snapshotCopy} !! {live, snapshot}
    requires {liveCopy.buckets, snapshotCopy.buckets} !! {live.buckets, snapshot.buckets}
    modifies liveCopy`chains, liveCopy`nodes, liveCopy.buckets, liveCopy.nodes
    modifies snapshotCopy`chains, snapshotCopy`nodes, snapshotCopy.buckets, snapshotCopy.nodes
    modifies stacks.nodes`groupHead, stacks.nodes`totalSize
    ensures Comparable(live, snapshot, stacks)
    ensures liveCopy.Valid() && snapshotCopy.Valid()
    ensures liveCopy.nodes <= old(liveCopy.nodes) && snapshotCopy.nodes <= old(snapshotCopy.nodes)
    ensures Difference(stacks.nodes, old(liveCopy.nodes), old(snapshotCopy.nodes), liveCopy.nodes, snapshotCopy.nodes)
    ensures TwinsGone(stacks.nodes, old(liveCopy.nodes), old(snapshotCopy.nodes), liveCopy.nodes, snapshotCopy.nodes)
    ensures GivenBack(old(liveCopy.nodes), liveCopy.nodes) && GivenBack(old(snapshotCopy.nodes), snapshotCopy.nodes)
    ensures numCur == |liveCopy.nodes| && numSnap == |snapshotCopy.nodes|
    ensures report.Length == |listed| && forall i :: 0 <= i < |listed| ==> report[i] == listed[i]
    ensures GoodReport(listed, stacks.nodes, old(liveCopy.nodes), old(snapshotCopy.nodes))
  {
    hide PtrTable.Valid, CallstackTable.Valid, PtrTable.UniquePtrs, Difference, GoodReport, AllocatorsIn, TwinsGone;
    numCur, numSnap, report, listed := ComparePerCallstack(liveCopy, snapshotCopy, stacks);
  }

  method DestroyBoth(liveCopy: PtrTable, snapshotCopy: PtrTable,
                     ghost live: PtrTable, ghost snapshot: PtrTable, ghost stacks: CallstackTable)
    requires Comparable(live, snapshot, stacks) && liveCopy.Valid() && snapshotCopy.Valid()
    requires liveCopy.nodes + snapshotCopy.nodes !! live.nodes + snapshot.nodes && liveCopy.nodes !! snapshotCopy.nodes
    requires liveCopy != snapshotCopy && {liveCopy, snapshotCopy} !! {live, snapshot}
    requires liveCopy.buckets != snapshotCopy.buckets
    requires {liveCopy.buckets, snapshotCopy.buckets} !! {live.buckets, snapshot.buckets}
    modifies liveCopy`chains, liveCopy`nodes, liveCopy.buckets, liveCopy.nodes
    modifies snapshotCopy`chains, snapshotCopy`nodes, snapshotCopy.buckets, snapshotCopy.nodes
    ensures Comparable(live, snapshot, stacks)
    ensures liveCopy.Valid() && liveCopy.nodes == {} && snapshotCopy.Valid() && snapshotCopy.nodes == {}
    ensures forall n :: n in old(liveCopy.nodes) + old(snapshotCopy.nodes) ==> !n.live
  {
    hide PtrTable.Valid, CallstackTable.Valid, PtrTable.UniquePtrs, HeadsEmpty, AllocatorsIn;
    DestroyAll(liveCopy);
    DestroyAll(snapshotCopy);
  }
}

/**
  The records the checker keeps about heap blocks: the plain `memblk` record, the node that
  carries it through the hash tables and group lists, and the interned call stack.
 */
module Blocks {

  // Indices of the two group lists every call stack heads.
  const LINK_SNAPSHOT := 0
  const LINK_CURRENT := 1
  const LINK_MAX := 2

  const MAX_CALLSTACK_DEPTH := 32

  /** The fixed-size array of return addresses in a call stack record. */
  type Trace = t: seq<nat> | |t| == MAX_CALLSTACK_DEPTH witness seq(MAX_CALLSTACK_DEPTH, _ => 0)

  /** One tracked buffer: `buf` is what the underlying malloc returned, `ptr` what the user got. */
  datatype Memblk = Memblk(buf: nat, bufsize: nat, usrsize: nat, ptr: nat)

  /** A recorded call stack. Only the first `depth` entries of the trace count. */
  class Callstack {
    const depth: nat
    const trace: Trace
    var hashNext: Callstack?
    var groupHead: seq<BlockNode?>
    var totalSize: int

    constructor (depth: nat, trace: Trace)
      requires depth <= MAX_CALLSTACK_DEPTH
      ensures this.depth == depth && this.trace == trace
      ensures hashNext == null && groupHead == [null, null]
    {
      this.depth, this.trace := depth, trace;
      hashNext, groupHead, totalSize := null, [null, null], 0;
    }

    /** The part of the record that identifies the call stack. */
    function Key(): seq<nat>
      requires depth <= MAX_CALLSTACK_DEPTH
    {
      trace[..depth]
    }
  }

  /**
    An `alloc_memblk` or `free_memblk`: the record itself never changes while the node is in use,
    only its links do. `live` says that the node has not been given back to its pool.
   */
  class BlockNode {
    const memblk: Memblk
    const allocator: Callstack
    const freer: Callstack?
    var hashNext: BlockNode?
    var groupPrev: BlockNode?
    var groupNext: BlockNode?
    ghost var live: bool

    constructor (memblk: Memblk, allocator: Callstack, freer: Callstack?)
      ensures this.memblk == memblk && this.allocator == allocator && this.freer == freer
      ensures hashNext == null && groupPrev == null && groupNext == null && live
    {
      this.memblk, this.allocator, this.freer := memblk, allocator, freer;
      hashNext, groupPrev, groupNext, live := null, null, null, true;
    }

    /** Reading a link of a node that was given back is not allowed. */
    function HashNext(): BlockNode?
      requires live
      reads `hashNext, `live
    {
      hashNext
    }

    function GroupPrev(): BlockNode?
      requires live
      reads `groupPrev, `live
    {
      groupPrev
    }

    function GroupNext(): BlockNode?
      requires live
      reads `groupNext, `live
    {
      groupNext
    }
  }

  /** Give a node back to its pool. From here on nothing is known about its links. */
  method FreeNode(n: BlockNode)
    requires n.live
    modifies n
    ensures !n.live
  {
    n.live := false;
    n.hashNext, n.groupPrev, n.groupNext := *, *, *;
  }

  ghost function NodeAt(s: seq<BlockNode>, i: nat): BlockNode?
  {
    if i < |s| then s[i] else null
  }

  ghost function RemoveAt(s: seq<BlockNode>, k: nat): (r: seq<BlockNode>)
    requires k < |s|
    ensures |r| == |s| - 1
    ensures forall i {:trigger r[i]} :: 0 <= i < |r| ==> r[i] == s[if i < k then i else i + 1]
  {
    s[..k] + s[k + 1..]
  }
}

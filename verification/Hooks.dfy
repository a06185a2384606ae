/** The replacements of malloc and its relatives while hooking is on (memchk_hook.c). */
module Hooks {
  import opened Bits
  import opened Blocks
  import opened PtrHashtable
  import opened Buffers
  import opened Registry
  import opened CallstackHashtable
  import opened Compare

  const NULL := 0

  /**
    What the underlying malloc promises for a request of `bufsize` bytes: a null pointer, or a buffer that
    lies in memory and overlaps none that has not been handed back.
   */
  ghost predicate MallocGives(r: Registry, buf: nat, bufsize: nat)
    reads r, r.tracked, r.freed
  {
    buf == NULL ||
    (buf + bufsize <= r.mem.Length && forall h :: h in r.tracked.nodes + r.freed.nodes ==>
       buf + bufsize <= h.memblk.buf || h.memblk.buf + h.memblk.bufsize <= buf)
  }

  lemma GivenFits(r: Registry, buf: nat, bufsize: nat, m: Memblk)
    requires MallocGives(r, buf, bufsize) && buf != NULL && WellFormed(m) && m.buf == buf && m.bufsize == bufsize
    ensures Fits(m, r.mem.Length) && forall h :: h in r.tracked.nodes + r.freed.nodes ==> Apart(m, h.memblk)
  {
  }

  /** The bytes of a block laid out at `buf`: 16 bytes of red zone, the user area, 16 bytes of red zone. */
  ghost predicate Bytes(before: seq<byte>, after: seq<byte>, buf: nat, size: nat)
  {
    && |before| == |after|
    && forall a {:trigger after[a]} :: 0 <= a < |after| ==>
         after[a] == if buf + 16 <= a < buf + 16 + size then 0xa5
                     else if buf <= a < buf + 32 + size then 0x5a else before[a]
  }

  lemma BytesBy(before: seq<byte>, after: seq<byte>, m: Memblk, buf: nat, size: nat)
    requires LaidOut(before, after, m) && PlainZones(m, buf, size)
    ensures Bytes(before, after, buf, size)
  {
  }

  /** The call stacks that allocated the tracked blocks are interned, and no group list is in use. */
  ghost predicate Traced(nodes: set<BlockNode>, stacks: CallstackTable)
    reads stacks, stacks.buckets, stacks.nodes`hashNext, stacks.nodes`groupHead
  {
    stacks.Valid() && HeadsEmpty(stacks.nodes) && AllocatorsIn(nodes, stacks.nodes)
  }

  /** So the registry's own table can be compared with a snapshot at any time. */
  lemma LiveIsComparable(r: Registry, snapshot: PtrTable, stacks: CallstackTable)
    requires r.Valid() && Traced(r.tracked.nodes, stacks)
    requires snapshot.Valid() && snapshot.UniquePtrs() && AllocatorsIn(snapshot.nodes, stacks.nodes)
    requires snapshot != r.tracked && snapshot.buckets != r.tracked.buckets && r.tracked.nodes !! snapshot.nodes
    ensures Comparable(r.tracked, snapshot, stacks)
  {
  }

  lemma TracedPart(nodes: set<BlockNode>, part: set<BlockNode>, stacks: CallstackTable)
    requires Traced(nodes, stacks) && part <= nodes
    ensures Traced(part, stacks)
  {
  }

  lemma TracedMore(nodes: set<BlockNode>, n: BlockNode, stacks: CallstackTable)
    requires Traced(nodes, stacks) && n.allocator in stacks.nodes
    ensures Traced(nodes + {n}, stacks)
  {
  }

  /** The record of the calling stack, which is new if it has not allocated before. */
  method Intern(stacks: CallstackTable, depth: nat, trace: Trace, ghost nodes: set<BlockNode>) returns (c: Callstack)
    requires Traced(nodes, stacks) && depth <= MAX_CALLSTACK_DEPTH
    modifies stacks`chains, stacks`nodes, stacks.buckets
    ensures Traced(nodes, stacks) && c in stacks.nodes && c.depth <= MAX_CALLSTACK_DEPTH && c.Key() == trace[..depth]
    ensures old(stacks.nodes) <= stacks.nodes && fresh(stacks.nodes - old(stacks.nodes))
  {
    hide CallstackTable.Valid;
    c := stacks.GetCallstack(depth, trace);
  }

  /**
    `buf` is what the underlying malloc returns for the enlarged request; `n` is the block's record,
    which names the interned call stack of the caller.
   */
  method Malloc(r: Registry, stacks: CallstackTable, depth: nat, trace: Trace, size: nat, buf: nat)
    returns (usrptr: nat, ghost n: BlockNode?)
    requires r.Valid() && MallocGives(r, buf, size + 32)
    requires Traced(r.tracked.nodes, stacks) && depth <= MAX_CALLSTACK_DEPTH
    modifies r, r.mem, r.histogram, r.tracked`chains, r.tracked`nodes, r.tracked.buckets
    modifies stacks`chains, stacks`nodes, stacks.buckets
    ensures r.Valid() && r.quarantine == old(r.quarantine) && Traced(r.tracked.nodes, stacks)
    ensures old(stacks.nodes) <= stacks.nodes && fresh(stacks.nodes - old(stacks.nodes))
    ensures buf == NULL ==>
      && usrptr == NULL && r.tracked.nodes == old(r.tracked.nodes) && r.mem[..] == old(r.mem[..])
      && stacks.nodes == old(stacks.nodes)
    ensures buf != NULL ==>
      && usrptr == buf + 16 && fresh(n) && PlainZones(n.memblk, buf, size)
      && n.allocator in stacks.nodes && n.allocator.depth <= MAX_CALLSTACK_DEPTH && n.allocator.Key() == trace[..depth]
      && r.tracked.nodes == old(r.tracked.nodes) + {n} && LaidOut(old(r.mem[..]), r.mem[..], n.memblk)
      && n.memblk.ptr == usrptr && Bytes(old(r.mem[..]), r.mem[..], buf, size)
  {
    hide Registry.Valid, Fits, InUser, InBuffer, InRedZone, WellFormed, Traced, MallocGives, Apart;
    if buf == NULL {
      return NULL, null;
    }
    PlainBlockIs(buf, size);
    GivenFits(r, buf, size + 32, PlainBlock(buf, size));
    usrptr := buf + REDZONE_SIZE;
    var allocator := Intern(stacks, depth, trace, r.tracked.nodes);
    ghost var was := r.tracked.nodes;
    n := r.Register(PlainBlock(buf, size), allocator);
    TracedMore(was, n, stacks);
    BytesBy(old(r.mem[..]), r.mem[..], n.memblk, buf, size);
  }

  /** The aligned variants; the alignment has been checked to be a power of two. */
  method AlignedAllocator(r: Registry, stacks: CallstackTable, depth: nat, trace: Trace, alignment: nat, size: nat,
                          buf: nat)
    returns (usrptr: nat, ghost n: BlockNode?)
    requires r.Valid() && PowerOfTwo(alignment) && MallocGives(r, buf, size + 31 + alignment)
    requires Traced(r.tracked.nodes, stacks) && depth <= MAX_CALLSTACK_DEPTH
    modifies r, r.mem, r.histogram, r.tracked`chains, r.tracked`nodes, r.tracked.buckets
    modifies stacks`chains, stacks`nodes, stacks.buckets
    ensures r.Valid() && r.quarantine == old(r.quarantine) && Traced(r.tracked.nodes, stacks)
    ensures old(stacks.nodes) <= stacks.nodes && fresh(stacks.nodes - old(stacks.nodes))
    ensures buf == NULL ==>
      && usrptr == NULL && r.tracked.nodes == old(r.tracked.nodes) && r.mem[..] == old(r.mem[..])
      && stacks.nodes == old(stacks.nodes)
    ensures buf != NULL ==>
      && usrptr % alignment == 0 && usrptr >= buf + 16
      && fresh(n) && AlignedZones(n.memblk, buf, size, alignment) && n.memblk.ptr == usrptr
      && n.allocator in stacks.nodes && n.allocator.depth <= MAX_CALLSTACK_DEPTH && n.allocator.Key() == trace[..depth]
      && r.tracked.nodes == old(r.tracked.nodes) + {n} && LaidOut(old(r.mem[..]), r.mem[..], n.memblk)
  {
    hide Registry.Valid, Fits, InUser, InBuffer, AlignAddr, WellFormed, Traced, MallocGives, Apart;
    if buf == NULL {
      return NULL, null;
    }
    AlignedBlockIs(buf, size, alignment);
    GivenFits(r, buf, size + 31 + alignment, AlignedBlock(buf, size, alignment));
    var allocator := Intern(stacks, depth, trace, r.tracked.nodes);
    usrptr := AlignAddr(buf + REDZONE_SIZE, alignment);
    AlignAddrIs(buf + REDZONE_SIZE, alignment);
    ghost var was := r.tracked.nodes;
    n := r.Register(AlignedBlock(buf, size, alignment), allocator);
    TracedMore(was, n, stacks);
  }

  /** The buffer that one more free hands back when `q` is the quarantine. */
  ghost function Evicted(q: seq<BlockNode>): Option<nat>
  {
    if |q| < 128 then None else Some(q[0].memblk.buf)
  }

  /** A free that has been accepted with `q` the quarantine. */
  ghost predicate Accepted(outcome: Option<Outcome>, q: seq<BlockNode>)
  {
    outcome.Some? && outcome.value.Freed? && outcome.value.handedBack == Evicted(q)
  }

  /**
    Free a user pointer: `t` is the tracked block it belongs to, `f` its record in quarantine. What the
    outcome hands back goes to the underlying free. A null pointer is ignored. The `record` of a double
    free is the one in quarantine, which names the call stacks to report.
   */
  method Free(r: Registry, ghost stacks: CallstackTable, ptr: nat, freer: Callstack)
    returns (outcome: Option<Outcome>, record: BlockNode?, ghost t: BlockNode?, ghost f: BlockNode?)
    requires r.Valid() && Traced(r.tracked.nodes, stacks)
    modifies r, r.mem, r.ring, r.histogram, r.tracked`chains, r.tracked`nodes, r.tracked.buckets, r.tracked.nodes
    modifies r.freed`chains, r.freed`nodes, r.freed.buckets, r.freed.nodes
    ensures r.Valid() && Traced(r.tracked.nodes, stacks) && fresh(r.freed.nodes - old(r.freed.nodes))
    ensures outcome == None <==> ptr == NULL
    ensures outcome == None || outcome.value.Rejected? ==>
      r.tracked.nodes == old(r.tracked.nodes) && r.quarantine == old(r.quarantine) && r.mem[..] == old(r.mem[..])
    ensures outcome.Some? ==>
      (outcome.value.Rejected? <==> forall n :: n in old(r.tracked.nodes) ==> n.memblk.ptr != ptr)
    ensures outcome.Some? && outcome.value.Rejected? ==>
      && (outcome.value.double <==> exists q :: q in old(r.quarantine) && q.memblk.ptr == ptr)
      && (outcome.value.double <==> record != null)
      && (forall q :: q in r.quarantine && q.memblk.ptr == ptr ==> q == record)
    ensures outcome.Some? && outcome.value.Freed? ==>
      && t in old(r.tracked.nodes) && t.memblk.ptr == ptr && r.tracked.nodes == old(r.tracked.nodes) - {t}
      && fresh(f) && f.memblk == t.memblk && f.allocator == t.allocator && f.freer == freer
      && r.quarantine == Pushed(old(r.quarantine), f)
      && Quarantined(old(r.quarantine), r.quarantine, t, freer) && Accepted(outcome, old(r.quarantine))
      && forall a {:trigger r.mem[a]} :: 0 <= a < r.mem.Length ==>
           r.mem[a] == if InBuffer(t.memblk, a) then 0xcc else old(r.mem[a])
  {
    hide Traced, Quarantined, Registry.Valid, Fits, InBuffer, Pushed, RedZonesIntact, Poisoned;
    if ptr == NULL {
      return None, null, null, null;
    }
    var o;
    ghost var was := r.tracked.nodes;
    o, record, t, f := r.Unregister(ptr, freer);
    outcome := Some(o);
    TracedPart(was, r.tracked.nodes, stacks);
    if o.Freed? {
      QuarantinedBy(old(r.quarantine), f, t, freer);
    }
  }

  method HandleReallocMemblk(r: Registry, ptr: nat) returns (oldsize: Option<nat>, ghost n: BlockNode?)
    requires r.Valid()
    ensures oldsize == None <==> forall t :: t in r.tracked.nodes ==> t.memblk.ptr != ptr
    ensures oldsize.Some? ==> n in r.tracked.nodes && n.memblk.ptr == ptr && oldsize.value == n.memblk.usrsize
  {
    n := null;
    var found := r.tracked.Find(ptr);
    if found == null {
      return None, null;
    }
    n := found;
    oldsize := Some(found.memblk.usrsize);
  }

  /** Copy the first `n` bytes of one area to another. */
  method MemCopy(mem: array<byte>, to: nat, from: nat, n: nat)
    requires to + n <= mem.Length && from + n <= mem.Length
    modifies mem
    ensures forall a {:trigger mem[a]} :: 0 <= a < mem.Length ==>
      mem[a] == if to <= a < to + n then old(mem[from + (a - to)]) else old(mem[a])
  {
    forall a | to <= a < to + n {
      mem[a] := mem[from + (a - to)];
    }
  }

  /** The new user area holds the old contents, up to the lesser size, and fresh bytes after them. */
  ghost predicate Moved(before: seq<byte>, after: seq<byte>, from: nat, oldsize: nat, to: nat, size: nat)
  {
    && |after| == |before| && from + oldsize <= |before| && to + size <= |after|
    && forall a {:trigger after[a]} :: to <= a < to + size ==>
         after[a] == if a - to < oldsize then before[from + (a - to)] else 0xa5
  }

  /** The branch of realloc that has found the tracked block `t`; `n` is the new block's record. */
  method Move(r: Registry, stacks: CallstackTable, depth: nat, trace: Trace, ghost t: BlockNode,
              ptr: nat, oldsize: nat, size: nat, buf: nat, freer: Callstack)
    returns (newptr: nat, outcome: Option<Outcome>, ghost n: BlockNode?)
    requires r.Valid() && MallocGives(r, buf, size + 32)
    requires Traced(r.tracked.nodes, stacks) && depth <= MAX_CALLSTACK_DEPTH
    requires t in r.tracked.nodes && ptr == t.memblk.ptr != NULL && oldsize == t.memblk.usrsize
    modifies r, r.mem, r.ring, r.histogram, r.tracked`chains, r.tracked`nodes, r.tracked.buckets, r.tracked.nodes
    modifies r.freed`chains, r.freed`nodes, r.freed.buckets, r.freed.nodes
    modifies stacks`chains, stacks`nodes, stacks.buckets
    ensures r.Valid() && Traced(r.tracked.nodes, stacks)
    ensures old(stacks.nodes) <= stacks.nodes && fresh(stacks.nodes - old(stacks.nodes))
    ensures fresh(r.tracked.nodes - old(r.tracked.nodes)) && fresh(r.freed.nodes - old(r.freed.nodes))
    ensures buf == NULL ==>
      && newptr == NULL && outcome == None && r.mem[..] == old(r.mem[..])
      && r.tracked.nodes == old(r.tracked.nodes) && r.quarantine == old(r.quarantine)
    ensures buf != NULL ==>
      && newptr == buf + 16 && fresh(n) && n.memblk.ptr == newptr && PlainZones(n.memblk, buf, size)
      && n.allocator.depth <= MAX_CALLSTACK_DEPTH && n.allocator.Key() == trace[..depth]
      && r.tracked.nodes == old(r.tracked.nodes) - {t} + {n}
      && Quarantined(old(r.quarantine), r.quarantine, t, freer) && Accepted(outcome, old(r.quarantine))
      && Moved(old(r.mem[..]), r.mem[..], ptr, oldsize, newptr, size)
  {
    hide Registry.Valid, Fits, InUser, InBuffer, Moved, Copied, MallocGives, Apart, Pushed, Bytes, PlainZones;
    hide Traced, Quarantined, Accepted;
    Bounds(r, t, buf, size);
    newptr, n := MallocCopy(r, stacks, depth, trace, t, ptr, oldsize, size, buf);
    outcome := None;
    if newptr != NULL {
      ghost var copied := r.mem[..];
      UserArea(n.memblk, buf, size);
      SameBlock(r, t);
      var record;
      ghost var freed, f;
      outcome, record, freed, f := Free(r, stacks, ptr, freer);
      MovedBy(old(r.mem[..]), copied, r.mem[..], t.memblk, n.memblk);
    }
  }

  /** Quarantine `q` has become `q'` by one more free, by `freer`, of block `t`. */
  ghost predicate Quarantined(q: seq<BlockNode>, q': seq<BlockNode>, t: BlockNode, freer: Callstack)
  {
    && q' != [] && q' == Pushed(q, q'[|q'| - 1])
    && var f := q'[|q'| - 1]; f.memblk == t.memblk && f.allocator == t.allocator && f.freer == freer
  }

  lemma QuarantinedBy(q: seq<BlockNode>, f: BlockNode, t: BlockNode, freer: Callstack)
    requires f.memblk == t.memblk && f.allocator == t.allocator && f.freer == freer
    ensures Quarantined(q, Pushed(q, f), t, freer)
  {
  }

  /** Allocate the new block and copy what fits of the old one into it. */
  method MallocCopy(r: Registry, stacks: CallstackTable, depth: nat, trace: Trace, ghost t: BlockNode,
                    ptr: nat, oldsize: nat, size: nat, buf: nat)
    returns (newptr: nat, ghost n: BlockNode?)
    requires r.Valid() && MallocGives(r, buf, size + 32)
    requires Traced(r.tracked.nodes, stacks) && depth <= MAX_CALLSTACK_DEPTH
    requires t in r.tracked.nodes && ptr == t.memblk.ptr && oldsize == t.memblk.usrsize
    modifies r, r.mem, r.histogram, r.tracked`chains, r.tracked`nodes, r.tracked.buckets
    modifies stacks`chains, stacks`nodes, stacks.buckets
    ensures r.Valid() && r.quarantine == old(r.quarantine) && Traced(r.tracked.nodes, stacks)
    ensures old(stacks.nodes) <= stacks.nodes && fresh(stacks.nodes - old(stacks.nodes))
    ensures buf == NULL ==> newptr == NULL && r.mem[..] == old(r.mem[..]) && r.tracked.nodes == old(r.tracked.nodes)
    ensures buf != NULL ==>
      && newptr == buf + 16 && fresh(n) && n.memblk.ptr == newptr && PlainZones(n.memblk, buf, size)
      && n.allocator.depth <= MAX_CALLSTACK_DEPTH && n.allocator.Key() == trace[..depth]
      && r.tracked.nodes == old(r.tracked.nodes) + {n} && Copied(old(r.mem[..]), r.mem[..], t.memblk, n.memblk)
  {
    hide Registry.Valid, Fits, InUser, InBuffer, MallocGives, Apart, Copied, LaidOut, Traced, Bytes, PlainZones;
    Bounds(r, t, buf, size);
    newptr, n := Malloc(r, stacks, depth, trace, size, buf);
    if newptr != NULL {
      ghost var laid := r.mem[..];
      UserArea(n.memblk, buf, size);
      MemCopy(r.mem, newptr, ptr, if size >= oldsize then oldsize else size);
      CopiedBy(old(r.mem[..]), laid, r.mem[..], t.memblk, n.memblk);
    }
  }

  lemma CopiedBy(before: seq<byte>, laid: seq<byte>, copied: seq<byte>, t: Memblk, m: Memblk)
    requires |before| == |laid| == |copied| && Fits(t, |before|) && Fits(m, |before|) && Apart(m, t)
    requires LaidOut(before, laid, m)
    requires var n := if m.usrsize >= t.usrsize then t.usrsize else m.usrsize;
      forall a {:trigger copied[a]} :: 0 <= a < |copied| ==>
        copied[a] == if m.ptr <= a < m.ptr + n then laid[t.ptr + (a - m.ptr)] else laid[a]
    ensures Copied(before, copied, t, m)
  {
  }

  lemma UserArea(m: Memblk, buf: nat, size: nat)
    requires PlainZones(m, buf, size)
    ensures m.ptr == buf + 16 && m.usrsize == size
  {
  }

  lemma Bounds(r: Registry, t: BlockNode, buf: nat, size: nat)
    requires r.Valid() && t in r.tracked.nodes && MallocGives(r, buf, size + 32)
    ensures Fits(t.memblk, r.mem.Length) && t.memblk.ptr + t.memblk.usrsize <= r.mem.Length
    ensures forall m {:trigger PlainZones(m, buf, size)} :: buf != NULL && PlainZones(m, buf, size) ==>
      Fits(m, r.mem.Length) && m.ptr + m.usrsize <= r.mem.Length && Apart(m, t.memblk)
  {
  }

  /** A tracked pointer belongs to one tracked block only. */
  lemma SameBlock(r: Registry, t: BlockNode)
    requires r.Valid() && t in r.tracked.nodes
    ensures forall n :: n in r.tracked.nodes && n.memblk.ptr == t.memblk.ptr ==> n == t
  {
  }

  /** Block `m` has been laid out and holds what fits of block `t`. */
  ghost predicate Copied(before: seq<byte>, after: seq<byte>, t: Memblk, m: Memblk)
  {
    && |before| == |after| && t.ptr + t.usrsize <= |before|
    && (forall a {:trigger after[a]} :: 0 <= a < |after| && InUser(m, a) ==>
          after[a] == if a - m.ptr < t.usrsize then before[t.ptr + (a - m.ptr)] else INITBUF_PATTERN)
    && (forall a {:trigger after[a]} :: 0 <= a < |after| && !InUser(m, a) ==>
          after[a] == if InBuffer(m, a) then REDZONE_PATTERN else before[a])
  }

  lemma MovedBy(before: seq<byte>, copied: seq<byte>, after: seq<byte>, t: Memblk, m: Memblk)
    requires |before| == |copied| == |after| && Fits(t, |before|) && Fits(m, |before|) && Apart(m, t)
    requires Copied(before, copied, t, m)
    requires forall a {:trigger after[a]} :: 0 <= a < |after| && !InBuffer(t, a) ==> after[a] == copied[a]
    ensures Moved(before, after, t.ptr, t.usrsize, m.ptr, m.usrsize)
  {
  }

  /**
    Reallocate a tracked block: the contents survive up to the lesser of the two sizes, in a fresh
    block, recorded as `n`. A null pointer makes it malloc, size 0 makes it free, an unknown pointer is
    refused.
   */
  method Realloc(r: Registry, stacks: CallstackTable, depth: nat, trace: Trace, ptr: nat, size: nat, buf: nat,
                 freer: Callstack)
    returns (newptr: nat, outcome: Option<Outcome>, ghost n: BlockNode?)
    requires r.Valid() && MallocGives(r, buf, size + 32)
    requires Traced(r.tracked.nodes, stacks) && depth <= MAX_CALLSTACK_DEPTH
    modifies r, r.mem, r.ring, r.histogram, r.tracked`chains, r.tracked`nodes, r.tracked.buckets, r.tracked.nodes
    modifies r.freed`chains, r.freed`nodes, r.freed.buckets, r.freed.nodes
    modifies stacks`chains, stacks`nodes, stacks.buckets
    ensures r.Valid() && Traced(r.tracked.nodes, stacks)
    ensures old(stacks.nodes) <= stacks.nodes && fresh(stacks.nodes - old(stacks.nodes))
    ensures fresh(r.tracked.nodes - old(r.tracked.nodes)) && fresh(r.freed.nodes - old(r.freed.nodes))
    ensures ptr != NULL && (forall t :: t in old(r.tracked.nodes) ==> t.memblk.ptr != ptr) ==>
      && newptr == NULL && r.tracked.nodes == old(r.tracked.nodes) && r.quarantine == old(r.quarantine)
      && r.mem[..] == old(r.mem[..])
      && (size != 0 ==> outcome == None)
      && (size == 0 ==> outcome == Some(Rejected(exists q :: q in old(r.quarantine) && q.memblk.ptr == ptr)))
    ensures buf == NULL && (ptr == NULL || size != 0) ==>
      && newptr == NULL && outcome == None && r.mem[..] == old(r.mem[..])
      && r.tracked.nodes == old(r.tracked.nodes) && r.quarantine == old(r.quarantine)
    ensures ptr == NULL && buf != NULL ==>
      && newptr == buf + 16 && outcome == None && fresh(n) && n.memblk.ptr == newptr && PlainZones(n.memblk, buf, size)
      && n.allocator.depth <= MAX_CALLSTACK_DEPTH && n.allocator.Key() == trace[..depth]
      && r.tracked.nodes == old(r.tracked.nodes) + {n} && r.quarantine == old(r.quarantine)
      && Bytes(old(r.mem[..]), r.mem[..], buf, size)
    ensures forall t :: t in old(r.tracked.nodes) && t.memblk.ptr == ptr && ptr != NULL && size == 0 ==>
      && newptr == NULL && r.tracked.nodes == old(r.tracked.nodes) - {t}
      && Quarantined(old(r.quarantine), r.quarantine, t, freer) && Accepted(outcome, old(r.quarantine))
      && forall a {:trigger r.mem[a]} :: 0 <= a < r.mem.Length ==>
           r.mem[a] == if InBuffer(t.memblk, a) then 0xcc else old(r.mem[a])
    ensures forall t :: t in old(r.tracked.nodes) && t.memblk.ptr == ptr && ptr != NULL && size != 0 && buf != NULL ==>
      && newptr == buf + 16 && fresh(n) && n.memblk.ptr == newptr && PlainZones(n.memblk, buf, size)
      && n.allocator.depth <= MAX_CALLSTACK_DEPTH && n.allocator.Key() == trace[..depth]
      && r.tracked.nodes == old(r.tracked.nodes) - {t} + {n}
      && Quarantined(old(r.quarantine), r.quarantine, t, freer) && Accepted(outcome, old(r.quarantine))
      && Moved(old(r.mem[..]), r.mem[..], ptr, t.memblk.usrsize, newptr, size)
  {
    hide Traced, Accepted;
    hide Registry.Valid, Fits, InUser, InBuffer, Moved, MallocGives, LaidOut, Bytes, Evicted, Pushed, Quarantined;
    hide PlainZones;
    outcome, n := None, null;
    if ptr == NULL {
      newptr, n := Malloc(r, stacks, depth, trace, size, buf);
    } else {
      newptr, outcome, n := ReallocBlock(r, stacks, depth, trace, ptr, size, buf, freer);
    }
  }

  /** The part of realloc for a pointer that is not null. */
  method ReallocBlock(r: Registry, stacks: CallstackTable, depth: nat, trace: Trace, ptr: nat, size: nat, buf: nat,
                      freer: Callstack)
    returns (newptr: nat, outcome: Option<Outcome>, ghost n: BlockNode?)
    requires ptr != NULL && r.Valid() && MallocGives(r, buf, size + 32)
    requires Traced(r.tracked.nodes, stacks) && depth <= MAX_CALLSTACK_DEPTH
    modifies r, r.mem, r.ring, r.histogram, r.tracked`chains, r.tracked`nodes, r.tracked.buckets, r.tracked.nodes
    modifies r.freed`chains, r.freed`nodes, r.freed.buckets, r.freed.nodes
    modifies stacks`chains, stacks`nodes, stacks.buckets
    ensures r.Valid() && Traced(r.tracked.nodes, stacks)
    ensures old(stacks.nodes) <= stacks.nodes && fresh(stacks.nodes - old(stacks.nodes))
    ensures fresh(r.tracked.nodes - old(r.tracked.nodes)) && fresh(r.freed.nodes - old(r.freed.nodes))
    ensures (forall t :: t in old(r.tracked.nodes) ==> t.memblk.ptr != ptr) ==>
      && newptr == NULL && r.tracked.nodes == old(r.tracked.nodes) && r.quarantine == old(r.quarantine)
      && r.mem[..] == old(r.mem[..])
      && (size != 0 ==> outcome == None)
      && (size == 0 ==> outcome == Some(Rejected(exists q :: q in old(r.quarantine) && q.memblk.ptr == ptr)))
    ensures buf == NULL && size != 0 ==>
      && newptr == NULL && outcome == None && r.mem[..] == old(r.mem[..])
      && r.tracked.nodes == old(r.tracked.nodes) && r.quarantine == old(r.quarantine)
    ensures forall t :: t in old(r.tracked.nodes) && t.memblk.ptr == ptr && size == 0 ==>
      && newptr == NULL && r.tracked.nodes == old(r.tracked.nodes) - {t}
      && Quarantined(old(r.quarantine), r.quarantine, t, freer) && Accepted(outcome, old(r.quarantine))
      && forall a {:trigger r.mem[a]} :: 0 <= a < r.mem.Length ==>
           r.mem[a] == if InBuffer(t.memblk, a) then 0xcc else old(r.mem[a])
    ensures forall t :: t in old(r.tracked.nodes) && t.memblk.ptr == ptr && size != 0 && buf != NULL ==>
      && newptr == buf + 16 && fresh(n) && n.memblk.ptr == newptr && PlainZones(n.memblk, buf, size)
      && n.allocator.depth <= MAX_CALLSTACK_DEPTH && n.allocator.Key() == trace[..depth]
      && r.tracked.nodes == old(r.tracked.nodes) - {t} + {n}
      && Quarantined(old(r.quarantine), r.quarantine, t, freer) && Accepted(outcome, old(r.quarantine))
      && Moved(old(r.mem[..]), r.mem[..], ptr, t.memblk.usrsize, newptr, size)
  {
    hide Traced, Accepted;
    hide Registry.Valid, Fits, InUser, InBuffer, Moved, MallocGives, LaidOut, Bytes, Evicted, Pushed, Quarantined;
    hide PlainZones;
    outcome, n := None, null;
    Unambiguous(r);
    if size == 0 {
      var record;
      ghost var t, f;
      outcome, record, t, f := Free(r, stacks, ptr, freer);
      return NULL, outcome, null;
    }
    var oldsize, t := HandleReallocMemblk(r, ptr);
    if oldsize == None {
      return NULL, None, null;
    }
    newptr, outcome, n := Move(r, stacks, depth, trace, t, ptr, oldsize.value, size, buf, freer);
  }

  lemma Unambiguous(r: Registry)
    requires r.Valid()
    ensures forall s, t :: s in r.tracked.nodes && t in r.tracked.nodes && s.memblk.ptr == t.memblk.ptr ==> s == t
  {
  }
}

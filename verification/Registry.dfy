/** The registry of tracked blocks, with its quarantine of freed ones (memchk_manage_memblk.c). */
module Registry {
  import opened Blocks
  import opened Chains
  import opened Tally
  import opened PtrHashtable
  import opened Buffers

  const HISTO_BINS := 10
  const HISTO_MAGNIFICATION := 4
  const FREE_FIFO_SIZE := 128

  // ----- The histogram -----

  ghost function Power4(i: nat): nat
  {
    if i == 0 then 1 else 4 * Power4(i - 1)
  }

  /** The first bin, from `i` on, whose limit is at least the size; the last one takes the rest. */
  ghost function BinFrom(usrsize: nat, i: nat): nat
    requires i < HISTO_BINS
    decreases HISTO_BINS - i
  {
    if usrsize <= Power4(i + 1) || i == HISTO_BINS - 1 then i else BinFrom(usrsize, i + 1)
  }

  ghost function Bin(usrsize: nat): nat
  {
    BinFrom(usrsize, 0)
  }

  /** Bin `i` holds the sizes above 4 to the `i`, up to 4 to the `i + 1`; the ends are open. */
  lemma {:induction false} BinFromIs(usrsize: nat, i: nat)
    requires i < HISTO_BINS && (i == 0 || usrsize > Power4(i))
    ensures var b := BinFrom(usrsize, i);
      && i <= b < HISTO_BINS
      && (b > 0 ==> usrsize > Power4(b)) && (b < HISTO_BINS - 1 ==> usrsize <= Power4(b + 1))
    decreases HISTO_BINS - i
  {
    if !(usrsize <= Power4(i + 1) || i == HISTO_BINS - 1) {
      BinFromIs(usrsize, i + 1);
    }
  }

  /** The ten bins: up to 4, above 4 up to 16, and so on; above 4 to the 9th all sizes share the last. */
  lemma BinIs(usrsize: nat)
    ensures Bin(usrsize) < 10
    ensures Bin(usrsize) > 0 ==> usrsize > Power4(Bin(usrsize))
    ensures Bin(usrsize) < 9 ==> usrsize <= Power4(Bin(usrsize) + 1)
  {
    BinFromIs(usrsize, 0);
  }

  /** Move the bin of a size up or down by one. */
  method UpdateHistogram(histogram: array<int>, usrsize: nat, inc: bool)
    requires histogram.Length == HISTO_BINS
    modifies histogram
    ensures Bin(usrsize) < HISTO_BINS
    ensures histogram[..] ==
      old(histogram[..])[Bin(usrsize) := old(histogram[..])[Bin(usrsize)] + if inc then 1 else -1]
  {
    BinFromIs(usrsize, 0);
    var size := HISTO_MAGNIFICATION;
    var i := 0;
    while i < HISTO_BINS
      invariant i <= HISTO_BINS && size == Power4(i + 1)
      invariant i < HISTO_BINS ==> Bin(usrsize) == BinFrom(usrsize, i)
      invariant i == HISTO_BINS ==> Bin(usrsize) == HISTO_BINS - 1
      invariant histogram[..] == old(histogram[..])
    {
      if usrsize <= size {
        histogram[i] := histogram[i] + if inc then 1 else -1;
        return;
      }
      size := size * HISTO_MAGNIFICATION;
      i := i + 1;
    }
    histogram[i - 1] := histogram[i - 1] + if inc then 1 else -1;
  }

  ghost function InBin(nodes: set<BlockNode>, i: nat): set<BlockNode>
  {
    set n | n in nodes && Bin(n.memblk.usrsize) == i
  }

  /** What the counters say about the tracked blocks. */
  ghost predicate Counted(nodes: set<BlockNode>, numMemblk: int, allocCnt: int, freeCnt: int, size: int,
                          histogram: seq<int>)
  {
    && numMemblk == |nodes| && allocCnt - freeCnt == numMemblk && size == Bytes(nodes)
    && |histogram| == HISTO_BINS && forall i :: 0 <= i < HISTO_BINS ==> histogram[i] == |InBin(nodes, i)|
  }

  lemma CountedNone(histogram: seq<int>)
    requires |histogram| == HISTO_BINS && forall i :: 0 <= i < HISTO_BINS ==> histogram[i] == 0
    ensures Counted({}, 0, 0, 0, 0, histogram)
  {
    hide Bin;
    assert forall i :: 0 <= i < HISTO_BINS ==> InBin({}, i) == {};
  }

  lemma OneInBin(nodes: set<BlockNode>, n: BlockNode, i: nat)
    requires n in nodes
    ensures |InBin(nodes, i)| == |InBin(nodes - {n}, i)| + if Bin(n.memblk.usrsize) == i then 1 else 0
  {
    hide Bin;
    if Bin(n.memblk.usrsize) == i {
      assert InBin(nodes - {n}, i) == InBin(nodes, i) - {n};
      assert n in InBin(nodes, i);
    } else {
      assert InBin(nodes - {n}, i) == InBin(nodes, i);
    }
  }

  lemma CountedAdd(nodes: set<BlockNode>, num: int, allocs: int, frees: int, size: int, histogram: seq<int>,
                   n: BlockNode)
    requires Counted(nodes, num, allocs, frees, size, histogram) && n !in nodes
    ensures var z := n.memblk.usrsize; var b := Bin(z);
      b < HISTO_BINS && Counted(nodes + {n}, num + 1, allocs + 1, frees, size + z, histogram[b := histogram[b] + 1])
  {
    hide Bin, InBin, Power4;
    var b := Bin(n.memblk.usrsize);
    BinIs(n.memblk.usrsize);
    BytesWithout(nodes + {n}, n);
    assert nodes + {n} - {n} == nodes;
    forall i | 0 <= i < HISTO_BINS
      ensures histogram[b := histogram[b] + 1][i] == |InBin(nodes + {n}, i)|
    {
      OneInBin(nodes + {n}, n, i);
    }
  }

  lemma CountedRemove(nodes: set<BlockNode>, num: int, allocs: int, frees: int, size: int, histogram: seq<int>,
                      n: BlockNode)
    requires Counted(nodes, num, allocs, frees, size, histogram) && n in nodes
    ensures var z := n.memblk.usrsize; var b := Bin(z);
      b < HISTO_BINS && Counted(nodes - {n}, num - 1, allocs, frees + 1, size - z, histogram[b := histogram[b] - 1])
  {
    hide Bin, InBin, Power4;
    var b := Bin(n.memblk.usrsize);
    BinIs(n.memblk.usrsize);
    BytesWithout(nodes, n);
    forall i | 0 <= i < HISTO_BINS
      ensures histogram[b := histogram[b] - 1][i] == |InBin(nodes - {n}, i)|
    {
      OneInBin(nodes, n, i);
    }
  }

  // ----- The ring -----

  /** What slot `s` holds when `q` is the quarantine, oldest first, and `idx` the slot to fill next. */
  ghost function Slot(q: seq<BlockNode>, idx: nat, s: nat): BlockNode?
    requires idx < FREE_FIFO_SIZE
  {
    if |q| < FREE_FIFO_SIZE then NodeAt(q, s)
    else NodeAt(q, if s >= idx then s - idx else s - idx + FREE_FIFO_SIZE)
  }

  ghost predicate RingHolds(ring: seq<BlockNode?>, idx: nat, q: seq<BlockNode>)
  {
    && |ring| == FREE_FIFO_SIZE && idx < FREE_FIFO_SIZE && |q| <= FREE_FIFO_SIZE
    && (|q| < FREE_FIFO_SIZE ==> idx == |q|)
    && forall s {:trigger ring[s]} :: 0 <= s < FREE_FIFO_SIZE ==> ring[s] == Slot(q, idx, s)
  }

  /** The quarantine after one more free: of 128 blocks the oldest leaves. */
  ghost function Pushed(q: seq<BlockNode>, n: BlockNode): seq<BlockNode>
  {
    if |q| < 128 then q + [n] else q[1..] + [n]
  }

  lemma RingEmpty(ring: seq<BlockNode?>)
    requires |ring| == FREE_FIFO_SIZE && forall s :: 0 <= s < FREE_FIFO_SIZE ==> ring[s] == null
    ensures RingHolds(ring, 0, [])
  {
  }

  /** Overwriting the slot to fill next evicts the oldest block, once the ring is full. */
  lemma RingPush(ring: seq<BlockNode?>, idx: nat, q: seq<BlockNode>, n: BlockNode)
    requires RingHolds(ring, idx, q)
    ensures ring[idx] == if |q| < FREE_FIFO_SIZE then null else q[0]
    ensures RingHolds(ring[idx := n], if idx + 1 == FREE_FIFO_SIZE then 0 else idx + 1, Pushed(q, n))
  {
  }

  lemma PushedElements(q: seq<BlockNode>, n: BlockNode)
    requires Distinct(q) && n !in q && |q| <= FREE_FIFO_SIZE
    ensures Distinct(Pushed(q, n))
    ensures Elements(Pushed(q, n)) == Elements(q) + {n} - if |q| < FREE_FIFO_SIZE then {} else {q[0]}
  {
    if |q| < FREE_FIFO_SIZE {
      assert Elements(q + [n]) == Elements(q) + {n};
    } else {
      assert q == [q[0]] + q[1..];
      assert Elements(q) == {q[0]} + Elements(q[1..]);
      assert Elements(q[1..] + [n]) == Elements(q[1..]) + {n};
    }
  }

  /** What a call to free comes to. */
  datatype Outcome =
    | Rejected(double: bool)
    | Freed(redZonesIntact: bool, handedBack: Option<nat>, poisonIntact: bool)

  datatype Option<T> = None | Some(value: T)

  // ----- The buffers -----

  ghost predicate Apart(a: Memblk, b: Memblk)
  {
    a.buf + a.bufsize <= b.buf || b.buf + b.bufsize <= a.buf
  }

  /** The buffers of these blocks lie in memory and do not overlap. */
  ghost predicate Held(nodes: set<BlockNode>, limit: nat)
  {
    && (forall n :: n in nodes ==> Fits(n.memblk, limit))
    && (forall n, m :: n in nodes && m in nodes && n != m ==> Apart(n.memblk, m.memblk))
  }

  lemma HeldNone(limit: nat)
    ensures Held({} + {}, limit)
  {
  }

  lemma HeldAdd(nodes: set<BlockNode>, limit: nat, n: BlockNode)
    requires Held(nodes, limit) && Fits(n.memblk, limit) && forall m :: m in nodes ==> Apart(n.memblk, m.memblk)
    ensures Held(nodes + {n}, limit)
  {
  }

  /** A freed block's record moves from one node to another. */
  lemma HeldSwap(nodes: set<BlockNode>, limit: nat, n: BlockNode, f: BlockNode)
    requires Held(nodes, limit) && n in nodes && f !in nodes && f.memblk == n.memblk
    ensures Held(nodes - {n} + {f}, limit)
  {
  }

  lemma HeldPart(nodes: set<BlockNode>, part: set<BlockNode>, limit: nat)
    requires Held(nodes, limit) && part <= nodes
    ensures Held(part, limit)
  {
  }

  // ----- Checking everything -----

  ghost predicate AllFit(nodes: set<BlockNode>, limit: nat)
  {
    forall n :: n in nodes ==> Fits(n.memblk, limit)
  }

  /** Every red zone of `t` and every freed buffer of `f` is as it was laid. */
  ghost predicate AllIntact(mem: seq<byte>, t: set<BlockNode>, f: set<BlockNode>)
    requires AllFit(t + f, |mem|)
  {
    && (forall n :: n in t ==> RedZonesIntact(mem, n.memblk))
    && (forall n :: n in f ==> Poisoned(mem, n.memblk))
  }

  /** Address `a` is in a red zone of `t` or in a freed buffer of `f`. */
  ghost predicate Guarded(t: set<BlockNode>, f: set<BlockNode>, a: nat)
  {
    (exists n :: n in t && InRedZone(n.memblk, a)) || (exists n :: n in f && InBuffer(n.memblk, a))
  }

  /** Everything of `t` and `f` is intact in `after`, and no other byte differs from `before`. */
  ghost predicate Repaired(before: seq<byte>, after: seq<byte>, t: set<BlockNode>, f: set<BlockNode>)
    requires |after| == |before| && AllFit(t + f, |before|)
  {
    && AllIntact(after, t, f)
    && forall a {:trigger after[a]} :: 0 <= a < |after| && !Guarded(t, f, a) ==> after[a] == before[a]
  }

  lemma NotGuarded(t: set<BlockNode>, f: set<BlockNode>, n: BlockNode, limit: nat, a: nat)
    requires Held(t + f + {n}, limit) && n !in t && n !in f && InBuffer(n.memblk, a)
    ensures !Guarded(t, f, a)
  {
  }

  lemma RepairTracked(before: seq<byte>, mid: seq<byte>, after: seq<byte>, t: set<BlockNode>, f: set<BlockNode>,
                      n: BlockNode)
    requires |before| == |mid| == |after| && Held(t + f + {n}, |before|) && n !in t && n !in f
    requires AllFit(t + f, |before|) && Repaired(before, mid, t, f)
    requires forall a {:trigger after[a]} :: 0 <= a < |after| ==>
      after[a] == if InRedZone(n.memblk, a) then REDZONE_PATTERN else mid[a]
    ensures AllFit(t + {n} + f, |before|) && Repaired(before, after, t + {n}, f)
  {
    forall m | m in t
      ensures RedZonesIntact(after, m.memblk)
    {
      assert RedZonesIntact(mid, m.memblk);
      assert Apart(m.memblk, n.memblk);
    }
    forall m | m in f
      ensures Poisoned(after, m.memblk)
    {
      assert Poisoned(mid, m.memblk);
      assert Apart(m.memblk, n.memblk);
    }
    forall a | 0 <= a < |after| && !Guarded(t + {n}, f, a)
      ensures after[a] == before[a]
    {
      assert n in t + {n};
      assert forall m :: m in t ==> m in t + {n};
      assert !Guarded(t, f, a);
    }
  }

  lemma RepairFreed(before: seq<byte>, mid: seq<byte>, after: seq<byte>, t: set<BlockNode>, f: set<BlockNode>,
                    n: BlockNode)
    requires |before| == |mid| == |after| && Held(t + f + {n}, |before|) && n !in t && n !in f
    requires AllFit(t + f, |before|) && Repaired(before, mid, t, f)
    requires forall a {:trigger after[a]} :: 0 <= a < |after| ==>
      after[a] == if InBuffer(n.memblk, a) then FREEDBUF_PATTERN else mid[a]
    ensures AllFit(t + (f + {n}), |before|) && Repaired(before, after, t, f + {n})
  {
    forall m | m in t
      ensures RedZonesIntact(after, m.memblk)
    {
      assert RedZonesIntact(mid, m.memblk);
      assert Apart(m.memblk, n.memblk);
    }
    forall m | m in f
      ensures Poisoned(after, m.memblk)
    {
      assert Poisoned(mid, m.memblk);
      assert Apart(m.memblk, n.memblk);
    }
    forall a | 0 <= a < |after| && !Guarded(t, f + {n}, a)
      ensures after[a] == before[a]
    {
      assert n in f + {n};
      assert forall m :: m in f ==> m in f + {n};
      assert !Guarded(t, f, a);
    }
  }

  /** A block not reached yet is found as it was at the start, whatever has been repaired elsewhere. */
  lemma SeenAsBefore(before: seq<byte>, mid: seq<byte>, t: set<BlockNode>, f: set<BlockNode>, n: BlockNode)
    requires |before| == |mid| && Held(t + f + {n}, |before|) && n !in t && n !in f
    requires AllFit(t + f, |before|) && Repaired(before, mid, t, f)
    ensures Fits(n.memblk, |before|)
    ensures RedZonesIntact(mid, n.memblk) <==> RedZonesIntact(before, n.memblk)
    ensures Poisoned(mid, n.memblk) <==> Poisoned(before, n.memblk)
  {
    assert n in t + f + {n};
    forall a | 0 <= a < |mid| && InBuffer(n.memblk, a)
      ensures mid[a] == before[a]
    {
      NotGuarded(t, f, n, |before|, a);
    }
  }

  class Registry {
    const mem: array<byte>
    const tracked: PtrTable
    const freed: PtrTable
    const ring: array<BlockNode?>
    const histogram: array<int>
    var idx: nat
    var numAllocMemblk: int
    var numAllocCnt: int
    var numFreeCnt: int
    var allocatedSize: int
    ghost var quarantine: seq<BlockNode>

    ghost predicate Tables()
      reads tracked, tracked.buckets, tracked.nodes`hashNext, tracked.nodes`live
      reads freed, freed.buckets, freed.nodes`hashNext, freed.nodes`live
    {
      && tracked.Valid() && tracked.UniquePtrs() && freed.Valid() && freed.UniquePtrs()
      && tracked != freed && tracked.buckets != freed.buckets && ring != tracked.buckets && ring != freed.buckets
      && tracked.nodes !! freed.nodes
    }

    ghost predicate Valid()
      reads this, ring, histogram, tracked, tracked.buckets, tracked.nodes`hashNext, tracked.nodes`live
      reads freed, freed.buckets, freed.nodes`hashNext, freed.nodes`live
    {
      && Tables() && Held(tracked.nodes + freed.nodes, mem.Length)
      && RingHolds(ring[..], idx, quarantine) && Distinct(quarantine) && Elements(quarantine) == freed.nodes
      && Counted(tracked.nodes, numAllocMemblk, numAllocCnt, numFreeCnt, allocatedSize, histogram[..])
    }

    constructor (mem: array<byte>, trackedSize: nat, freedSize: nat)
      requires trackedSize > 0 && freedSize > 0
      ensures Valid() && tracked.nodes == {} && quarantine == [] && this.mem == mem
      ensures numAllocCnt == 0 && numFreeCnt == 0 && freed.nodes == {}
      ensures fresh(ring) && fresh(histogram)
      ensures fresh(tracked) && fresh(tracked.buckets) && fresh(freed) && fresh(freed.buckets)
    {
      hide RingHolds, Counted, Held, PtrTable.Valid, PtrTable.UniquePtrs;
      this.mem := mem;
      tracked := new PtrTable(trackedSize);
      freed := new PtrTable(freedSize);
      ring := new BlockNode?[FREE_FIFO_SIZE](_ => null);
      histogram := new int[HISTO_BINS](_ => 0);
      idx, numAllocMemblk, numAllocCnt, numFreeCnt, allocatedSize := 0, 0, 0, 0, 0;
      quarantine := [];
      new;
      RingEmpty(ring[..]);
      CountedNone(histogram[..]);
      HeldNone(mem.Length);
    }

    /**
      Start tracking a buffer the underlying malloc has just handed out: it lies in memory and does
      not overlap any buffer that has not been handed back.
     */
    method Register(m: Memblk, allocator: Callstack) returns (n: BlockNode)
      requires Valid() && Fits(m, mem.Length)
      requires forall h :: h in tracked.nodes + freed.nodes ==> Apart(m, h.memblk)
      modifies this, mem, histogram, tracked`chains, tracked`nodes, tracked.buckets
      ensures Valid() && fresh(n) && n.memblk == m && n.allocator == allocator
      ensures tracked.nodes == old(tracked.nodes) + {n} && quarantine == old(quarantine)
      ensures forall a {:trigger mem[a]} :: 0 <= a < mem.Length ==>
        mem[a] == if InUser(m, a) then INITBUF_PATTERN else if InBuffer(m, a) then REDZONE_PATTERN else old(mem[a])
      ensures numAllocCnt == old(numAllocCnt) + 1 && numFreeCnt == old(numFreeCnt)
    {
      hide PtrTable.Valid, Held, RingHolds, Counted, Distinct, Fits, InUser, InBuffer, PtrTable.UniquePtrs;
      n := new BlockNode(m, allocator, null);
      HeldAdd(tracked.nodes + freed.nodes, mem.Length, n);
      SetAllocatedBuffer(mem, m, true);
      tracked.Add(n);
      assert tracked.nodes + freed.nodes == old(tracked.nodes) + freed.nodes + {n};
      AllUnique(tracked.nodes + freed.nodes);
      assert tracked.nodes - {n} == old(tracked.nodes);
      CountUp(n, m.usrsize);
    }

    lemma AllUnique(all: set<BlockNode>)
      requires Held(all, mem.Length) && tracked.nodes <= all && freed.nodes <= all
      ensures tracked.UniquePtrs() && freed.UniquePtrs()
    {
    }

    method CountUp(ghost n: BlockNode, usrsize: nat)
      requires n in tracked.nodes && usrsize == n.memblk.usrsize
      requires Counted(tracked.nodes - {n}, numAllocMemblk, numAllocCnt, numFreeCnt, allocatedSize, histogram[..])
      modifies `numAllocMemblk, `numAllocCnt, `allocatedSize, histogram
      ensures Counted(tracked.nodes, numAllocMemblk, numAllocCnt, numFreeCnt, allocatedSize, histogram[..])
      ensures numAllocCnt == old(numAllocCnt) + 1
    {
      hide Bin;
      CountedAdd(tracked.nodes - {n}, numAllocMemblk, numAllocCnt, numFreeCnt, allocatedSize, histogram[..], n);
      assert tracked.nodes - {n} + {n} == tracked.nodes;
      numAllocCnt := numAllocCnt + 1;
      numAllocMemblk := numAllocMemblk + 1;
      allocatedSize := allocatedSize + usrsize;
      UpdateHistogram(histogram, usrsize, true);
    }

    method CountDown(ghost nodes: set<BlockNode>, ghost n: BlockNode, usrsize: nat)
      requires n in nodes && usrsize == n.memblk.usrsize
      requires Counted(nodes, numAllocMemblk, numAllocCnt, numFreeCnt, allocatedSize, histogram[..])
      modifies `numAllocMemblk, `numFreeCnt, `allocatedSize, histogram
      ensures Counted(nodes - {n}, numAllocMemblk, numAllocCnt, numFreeCnt, allocatedSize, histogram[..])
      ensures numFreeCnt == old(numFreeCnt) + 1
    {
      hide Bin;
      CountedRemove(nodes, numAllocMemblk, numAllocCnt, numFreeCnt, allocatedSize, histogram[..], n);
      numFreeCnt := numFreeCnt + 1;
      numAllocMemblk := numAllocMemblk - 1;
      allocatedSize := allocatedSize - usrsize;
      UpdateHistogram(histogram, usrsize, false);
    }

    /** Put `f` into the ring and return the block that was in its slot. */
    method Rotate(f: BlockNode) returns (evicted: BlockNode?)
      requires RingHolds(ring[..], idx, quarantine)
      modifies ring, `idx, `quarantine
      ensures evicted == if |old(quarantine)| < FREE_FIFO_SIZE then null else old(quarantine)[0]
      ensures quarantine == Pushed(old(quarantine), f) && RingHolds(ring[..], idx, quarantine)
    {
      hide RingHolds;
      RingRange();
      RingPush(ring[..], idx, quarantine, f);
      evicted := ring[idx];
      ring[idx] := f;
      idx := idx + 1;
      if idx == FREE_FIFO_SIZE {
        idx := 0;
      }
      quarantine := Pushed(quarantine, f);
    }

    lemma RingRange()
      requires RingHolds(ring[..], idx, quarantine)
      ensures idx < ring.Length && |quarantine| <= FREE_FIFO_SIZE
    {
    }

    /** Move a block just taken out of the table of tracked blocks into quarantine, poisoned. */
    method Retire(n: BlockNode, freer: Callstack) returns (f: BlockNode)
      requires Tables() && n !in tracked.nodes && n !in freed.nodes && n.live
      requires Held(tracked.nodes + {n} + freed.nodes, mem.Length)
      modifies mem, freed`chains, freed`nodes, freed.buckets, n
      ensures Tables() && fresh(f) && f.memblk == n.memblk && f.allocator == n.allocator && f.freer == freer && !n.live
      ensures freed.nodes == old(freed.nodes) + {f} && Held(tracked.nodes + freed.nodes, mem.Length)
      ensures forall a {:trigger mem[a]} :: 0 <= a < mem.Length ==>
        mem[a] == if InBuffer(n.memblk, a) then FREEDBUF_PATTERN else old(mem[a])
    {
      hide PtrTable.Valid, Held, PtrTable.UniquePtrs, InBuffer;
      f := new BlockNode(n.memblk, n.allocator, freer);
      FitsHeld(tracked.nodes + {n} + freed.nodes, n);
      SetFreedBuffer(mem, f.memblk);
      freed.Add(f);
      FreeNode(n);
      HeldSwap(old(tracked.nodes + {n} + freed.nodes), mem.Length, n, f);
      assert old(tracked.nodes + {n} + freed.nodes) - {n} + {f} == tracked.nodes + freed.nodes;
      AllUnique(tracked.nodes + freed.nodes);
    }

    lemma FitsHeld(nodes: set<BlockNode>, n: BlockNode)
      requires Held(nodes, mem.Length) && n in nodes
      ensures Fits(n.memblk, mem.Length)
    {
    }

    /** Check the evicted block's poison and take it out of quarantine for good. */
    method Evict(evicted: BlockNode) returns (intact: bool, buf: nat)
      requires Tables() && Held(tracked.nodes + freed.nodes, mem.Length) && evicted in freed.nodes
      modifies freed`chains, freed`nodes, freed.buckets, freed.nodes
      ensures Tables() && freed.nodes == old(freed.nodes) - {evicted} && !evicted.live
      ensures Held(tracked.nodes + freed.nodes, mem.Length)
      ensures Fits(evicted.memblk, mem.Length) && (intact <==> Poisoned(mem[..], evicted.memblk))
      ensures buf == evicted.memblk.buf
    {
      hide PtrTable.Valid, Held, Poisoned;
      FitsHeld(tracked.nodes + freed.nodes, evicted);
      var ret, _ := CheckFreedBuffer(mem, evicted.memblk);
      intact := ret == 0;
      var e, _ := freed.Remove(evicted.memblk.ptr);
      buf := evicted.memblk.buf;
      FreeNode(e);
      HeldPart(old(tracked.nodes + freed.nodes), tracked.nodes + freed.nodes, mem.Length);
    }

    /** Poisoning one block leaves another block's buffer as it was. */
    lemma PoisonKept(all: set<BlockNode>, n: BlockNode, o: BlockNode, before: seq<byte>, after: seq<byte>)
      requires Held(all, mem.Length) && n in all && o in all && n != o && |before| == |after| == mem.Length
      requires forall a {:trigger after[a]} :: 0 <= a < |after| && !InBuffer(n.memblk, a) ==> after[a] == before[a]
      ensures Fits(o.memblk, mem.Length) && (Poisoned(after, o.memblk) <==> Poisoned(before, o.memblk))
    {
      forall a | 0 <= a < |after| && InBuffer(o.memblk, a)
        ensures after[a] == before[a]
      {
        assert !InBuffer(n.memblk, a);
      }
    }

    /**
      Free a user pointer. A pointer that is not tracked is rejected, as a double free if it is still in
      quarantine. Otherwise the block is checked, poisoned and put in quarantine; the block that leaves
      the quarantine in exchange, if any, is checked and its buffer handed back. The `record` of a
      double free is the one in quarantine, with the call stacks that allocated and freed the block.
     */
    method Unregister(ptr: nat, freer: Callstack)
      returns (outcome: Outcome, record: BlockNode?, ghost n: BlockNode?, ghost f: BlockNode?)
      requires Valid()
      modifies this, mem, ring, histogram, tracked`chains, tracked`nodes, tracked.buckets, tracked.nodes
      modifies freed`chains, freed`nodes, freed.buckets, freed.nodes
      ensures Valid()
      ensures outcome.Rejected? <==> forall t :: t in old(tracked.nodes) ==> t.memblk.ptr != ptr
      ensures outcome.Rejected? ==>
        && (outcome.double <==> exists q :: q in old(quarantine) && q.memblk.ptr == ptr)
        && (outcome.double <==> record != null)
        && (forall q :: q in quarantine && q.memblk.ptr == ptr ==> q == record)
        && tracked.nodes == old(tracked.nodes) && freed.nodes == old(freed.nodes) && quarantine == old(quarantine)
        && mem[..] == old(mem[..]) && histogram[..] == old(histogram[..]) && allocatedSize == old(allocatedSize)
        && numAllocMemblk == old(numAllocMemblk) && numAllocCnt == old(numAllocCnt) && numFreeCnt == old(numFreeCnt)
      ensures outcome.Freed? ==>
        && n in old(tracked.nodes) && n.memblk.ptr == ptr && !n.live && tracked.nodes == old(tracked.nodes) - {n}
        && fresh(f) && f.memblk == n.memblk && quarantine == Pushed(old(quarantine), f)
        && freed.nodes <= old(freed.nodes) + {f} && f.allocator == n.allocator && f.freer == freer
      ensures outcome.Freed? ==>
        && Fits(n.memblk, mem.Length)
        && (outcome.redZonesIntact <==> RedZonesIntact(old(mem[..]), n.memblk))
        && forall a {:trigger mem[a]} :: 0 <= a < mem.Length ==>
             mem[a] == if InBuffer(n.memblk, a) then FREEDBUF_PATTERN else old(mem[a])
      ensures outcome.Freed? ==>
        outcome.handedBack ==
          if |old(quarantine)| < FREE_FIFO_SIZE then None else Some(old(quarantine)[0].memblk.buf)
      ensures outcome.Freed? && |old(quarantine)| == FREE_FIFO_SIZE ==>
        var oldest := old(quarantine)[0];
        && oldest in old(freed.nodes) && !oldest.live && Fits(oldest.memblk, mem.Length)
        && (outcome.poisonIntact <==> Poisoned(old(mem[..]), oldest.memblk))
      ensures outcome.Freed? && |old(quarantine)| < FREE_FIFO_SIZE ==> outcome.poisonIntact
      ensures outcome.Freed? ==> numAllocCnt == old(numAllocCnt) && numFreeCnt == old(numFreeCnt) + 1
    {
      hide PtrTable.Valid, Held, RingHolds, Counted, Distinct, PtrTable.UniquePtrs, RedZonesIntact, Poisoned, InBuffer;
      record, n, f := null, null, null;
      AllUnique(tracked.nodes + freed.nodes);
      var node, _ := tracked.Remove(ptr);
      if node == null {
        record := freed.Find(ptr);
        OneRecord(record, ptr);
        outcome := Rejected(record != null);
        return;
      }
      n := node;
      AllUnique(old(tracked.nodes + freed.nodes));
      assert tracked.nodes + {node} == old(tracked.nodes);
      outcome, f := Release(node, freer);
    }

    lemma OneRecord(record: BlockNode?, ptr: nat)
      requires freed.UniquePtrs() && (record != null ==> record in freed.nodes && record.memblk.ptr == ptr)
      requires record == null ==> forall n :: n in freed.nodes ==> n.memblk.ptr != ptr
      ensures forall n :: n in freed.nodes && n.memblk.ptr == ptr ==> n == record
    {
    }

    /** The rest of a call to free: `n` has just been taken out of the table of tracked blocks. */
    method Release(n: BlockNode, freer: Callstack) returns (outcome: Outcome, f: BlockNode)
      requires Tables() && n !in tracked.nodes && n !in freed.nodes && n.live
      requires Held(tracked.nodes + {n} + freed.nodes, mem.Length)
      requires RingHolds(ring[..], idx, quarantine) && Distinct(quarantine) && Elements(quarantine) == freed.nodes
      requires Counted(tracked.nodes + {n}, numAllocMemblk, numAllocCnt, numFreeCnt, allocatedSize, histogram[..])
      modifies this, mem, ring, histogram, n
      modifies freed`chains, freed`nodes, freed.buckets, freed.nodes
      ensures Valid()
      ensures outcome.Freed? && !n.live && fresh(f) && f.memblk == n.memblk && quarantine == Pushed(old(quarantine), f)
      ensures freed.nodes <= old(freed.nodes) + {f} && f.allocator == n.allocator && f.freer == freer
      ensures |old(quarantine)| < FREE_FIFO_SIZE ==> outcome.poisonIntact
      ensures Fits(n.memblk, mem.Length) && (outcome.redZonesIntact <==> RedZonesIntact(old(mem[..]), n.memblk))
      ensures forall a {:trigger mem[a]} :: 0 <= a < mem.Length ==>
        mem[a] == if InBuffer(n.memblk, a) then FREEDBUF_PATTERN else old(mem[a])
      ensures outcome.handedBack ==
        if |old(quarantine)| < FREE_FIFO_SIZE then None else Some(old(quarantine)[0].memblk.buf)
      ensures |old(quarantine)| == FREE_FIFO_SIZE ==>
        var oldest := old(quarantine)[0];
        && oldest in old(freed.nodes) && !oldest.live && Fits(oldest.memblk, mem.Length)
        && (outcome.poisonIntact <==> Poisoned(old(mem[..]), oldest.memblk))
      ensures numAllocCnt == old(numAllocCnt) && numFreeCnt == old(numFreeCnt) + 1
    {
      hide PtrTable.Valid, Held, RingHolds, Counted, Distinct, PtrTable.UniquePtrs, RedZonesIntact, Poisoned, InBuffer;
      var usrsize := n.memblk.usrsize;
      FitsHeld(tracked.nodes + {n} + freed.nodes, n);
      var ret, _, _ := CheckAllocatedBuffer(mem, n.memblk);
      f := Retire(n, freer);
      CountDown(tracked.nodes + {n}, n, usrsize);
      assert tracked.nodes + {n} - {n} == tracked.nodes;
      if |quarantine| == FREE_FIFO_SIZE {
        PoisonKept(old(tracked.nodes + {n} + freed.nodes), n, quarantine[0], old(mem[..]), mem[..]);
      }
      var handedBack, intact := Exchange(f);
      outcome := Freed(ret == 0, handedBack, intact);
    }

    /** Put a poisoned block in the ring; check the block that leaves the ring, if any, and hand it back. */
    method Exchange(f: BlockNode) returns (handedBack: Option<nat>, intact: bool)
      requires Tables() && Held(tracked.nodes + freed.nodes, mem.Length)
      requires RingHolds(ring[..], idx, quarantine) && Distinct(quarantine)
      requires f !in quarantine && freed.nodes == Elements(quarantine) + {f}
      modifies ring, `idx, `quarantine, freed`chains, freed`nodes, freed.buckets, freed.nodes
      ensures Tables() && Held(tracked.nodes + freed.nodes, mem.Length)
      ensures RingHolds(ring[..], idx, quarantine) && Distinct(quarantine) && Elements(quarantine) == freed.nodes
      ensures quarantine == Pushed(old(quarantine), f)
      ensures handedBack == if |old(quarantine)| < FREE_FIFO_SIZE then None else Some(old(quarantine)[0].memblk.buf)
      ensures |old(quarantine)| <= FREE_FIFO_SIZE && freed.nodes <= old(freed.nodes)
      ensures |old(quarantine)| < FREE_FIFO_SIZE ==> intact
      ensures |old(quarantine)| == FREE_FIFO_SIZE ==>
        var oldest := old(quarantine)[0];
        !oldest.live && Fits(oldest.memblk, mem.Length) && (intact <==> Poisoned(mem[..], oldest.memblk))
    {
      hide PtrTable.Valid, Held, RingHolds, Distinct, PtrTable.UniquePtrs, Poisoned;
      RingRange();
      PushedElements(quarantine, f);
      var evicted := Rotate(f);
      if evicted != null {
        var buf;
        intact, buf := Evict(evicted);
        handedBack := Some(buf);
      } else {
        handedBack, intact := None, true;
      }
    }

    /**
      Check and repair every red zone and every freed buffer. The result is 0 exactly when none was
      damaged; afterwards all are intact, and no other byte has changed.
     */
    method CheckAllMemblk() returns (ret: int)
      requires Valid()
      modifies mem
      ensures Valid() && AllFit(tracked.nodes + freed.nodes, mem.Length)
      ensures ret == if AllIntact(old(mem[..]), tracked.nodes, freed.nodes) then 0 else -1
      ensures Repaired(old(mem[..]), mem[..], tracked.nodes, freed.nodes)
    {
      hide PtrTable.Valid, Held, RingHolds, Counted, Distinct, PtrTable.UniquePtrs, Passed;
      hide AllFit, AllIntact, Repaired, RedZonesIntact, Poisoned;
      ret := CheckTracked();
      var ret2 := CheckFreed(old(mem[..]));
      ret := if ret == 0 then ret2 else ret;
      BothIntact(old(mem[..]), tracked.nodes, freed.nodes);
    }

    method CheckTracked() returns (ret: int)
      requires tracked.Valid() && Held(tracked.nodes + freed.nodes, mem.Length)
      modifies mem
      ensures AllFit(tracked.nodes + {}, mem.Length) && Repaired(old(mem[..]), mem[..], tracked.nodes, {})
      ensures ret == if AllIntact(old(mem[..]), tracked.nodes, {}) then 0 else -1
    {
      hide PtrTable.Valid, Held, Passed, AllFit, AllIntact, Repaired, RedZonesIntact, Poisoned, InRedZone;
      ghost var was := mem[..];
      tracked.WalkStart();
      NothingRepaired(was);
      ret := 0;
      var b := 0;
      while b < tracked.buckets.Length
        invariant b <= tracked.buckets.Length == |tracked.chains|
        invariant AllFit(Passed(tracked.chains, b, 0) + {}, mem.Length)
        invariant Repaired(was, mem[..], Passed(tracked.chains, b, 0), {})
        invariant ret == if AllIntact(was, Passed(tracked.chains, b, 0), {}) then 0 else -1
      {
        tracked.HeadAt(b);
        var n := tracked.buckets[b];
        ghost var k := 0;
        while n != null
          invariant k <= |tracked.chains[b]| && n == NodeAt(tracked.chains[b], k)
          invariant AllFit(Passed(tracked.chains, b, k) + {}, mem.Length)
          invariant Repaired(was, mem[..], Passed(tracked.chains, b, k), {})
          invariant ret == if AllIntact(was, Passed(tracked.chains, b, k), {}) then 0 else -1
          decreases |tracked.chains[b]| - k
        {
          tracked.WalkAt(b, k);
          tracked.PassedInNodes(b, k);
          var rc := CheckOneTracked(n, Passed(tracked.chains, b, k), was);
          ret := if ret == 0 then rc else ret;
          n := n.HashNext();
          k := k + 1;
        }
        PassRow(tracked.chains, b);
        b := b + 1;
      }
    }

    method CheckOneTracked(n: BlockNode, ghost done: set<BlockNode>, ghost was: seq<byte>) returns (ret: int)
      requires Held(tracked.nodes + freed.nodes, mem.Length)
      requires done <= tracked.nodes && n in tracked.nodes && n !in done
      requires |was| == mem.Length && AllFit(done + {}, mem.Length) && Repaired(was, mem[..], done, {})
      modifies mem
      ensures AllFit(done + {n} + {}, mem.Length) && Repaired(was, mem[..], done + {n}, {})
      ensures AllIntact(was, done + {n}, {}) <==> AllIntact(was, done, {}) && ret == 0
      ensures ret == 0 || ret == -1
    {
      hide RedZonesIntact, InRedZone, InUser, Repaired, AllFit, Held, Poisoned, AllIntact;
      HeldPart(tracked.nodes + freed.nodes, done + {} + {n}, mem.Length);
      FitsHeld(tracked.nodes + freed.nodes, n);
      SeenAsBefore(was, mem[..], done, {}, n);
      ghost var mid := mem[..];
      var rc, _, _ := CheckAllocatedBuffer(mem, n.memblk);
      ret := rc;
      if rc != 0 {
        SetAllocatedBuffer(mem, n.memblk, false);
      } else {
        AlreadyThere(mid, n.memblk);
      }
      RepairTracked(was, mid, mem[..], done, {}, n);
      OneMoreTracked(was, done, n);
    }

    lemma AlreadyThere(s: seq<byte>, m: Memblk)
      requires Fits(m, |s|) && RedZonesIntact(s, m)
      ensures forall a {:trigger s[a]} :: 0 <= a < |s| ==> s[a] == if InRedZone(m, a) then REDZONE_PATTERN else s[a]
    {
    }

    lemma OneMoreTracked(was: seq<byte>, done: set<BlockNode>, n: BlockNode)
      requires AllFit(done + {}, |was|) && AllFit(done + {n} + {}, |was|)
      ensures Fits(n.memblk, |was|)
      ensures AllIntact(was, done + {n}, {}) <==> AllIntact(was, done, {}) && RedZonesIntact(was, n.memblk)
    {
      assert n in done + {n} + {};
    }

    method CheckFreed(ghost was: seq<byte>) returns (ret: int)
      requires freed.Valid() && Held(tracked.nodes + freed.nodes, mem.Length) && tracked.nodes !! freed.nodes
      requires |was| == mem.Length && AllFit(tracked.nodes + {}, mem.Length)
      requires Repaired(was, mem[..], tracked.nodes, {})
      modifies mem
      ensures AllFit(tracked.nodes + freed.nodes, mem.Length) && AllFit({} + freed.nodes, mem.Length)
      ensures Repaired(was, mem[..], tracked.nodes, freed.nodes)
      ensures ret == if AllIntact(was, {}, freed.nodes) then 0 else -1
    {
      hide PtrTable.Valid, Held, Passed, AllFit, AllIntact, Repaired, RedZonesIntact, Poisoned, InRedZone;
      freed.WalkStart();
      NothingRepaired(was);
      ret := 0;
      var b := 0;
      while b < freed.buckets.Length
        invariant b <= freed.buckets.Length == |freed.chains|
        invariant AllFit(tracked.nodes + Passed(freed.chains, b, 0), mem.Length)
        invariant AllFit({} + Passed(freed.chains, b, 0), mem.Length)
        invariant Repaired(was, mem[..], tracked.nodes, Passed(freed.chains, b, 0))
        invariant ret == if AllIntact(was, {}, Passed(freed.chains, b, 0)) then 0 else -1
      {
        freed.HeadAt(b);
        var n := freed.buckets[b];
        ghost var k := 0;
        while n != null
          invariant k <= |freed.chains[b]| && n == NodeAt(freed.chains[b], k)
          invariant AllFit(tracked.nodes + Passed(freed.chains, b, k), mem.Length)
          invariant AllFit({} + Passed(freed.chains, b, k), mem.Length)
          invariant Repaired(was, mem[..], tracked.nodes, Passed(freed.chains, b, k))
          invariant ret == if AllIntact(was, {}, Passed(freed.chains, b, k)) then 0 else -1
          decreases |freed.chains[b]| - k
        {
          freed.WalkAt(b, k);
          freed.PassedInNodes(b, k);
          var rc := CheckOneFreed(n, Passed(freed.chains, b, k), was);
          ret := if ret == 0 then rc else ret;
          n := n.HashNext();
          k := k + 1;
        }
        PassRow(freed.chains, b);
        b := b + 1;
      }
    }

    method CheckOneFreed(n: BlockNode, ghost done: set<BlockNode>, ghost was: seq<byte>) returns (ret: int)
      requires Held(tracked.nodes + freed.nodes, mem.Length) && tracked.nodes !! freed.nodes
      requires done <= freed.nodes && n in freed.nodes && n !in done
      requires |was| == mem.Length && AllFit(tracked.nodes + done, mem.Length) && AllFit({} + done, mem.Length)
      requires Repaired(was, mem[..], tracked.nodes, done)
      modifies mem
      ensures AllFit(tracked.nodes + (done + {n}), mem.Length) && AllFit({} + (done + {n}), mem.Length)
      ensures Repaired(was, mem[..], tracked.nodes, done + {n})
      ensures AllIntact(was, {}, done + {n}) <==> AllIntact(was, {}, done) && ret == 0
      ensures ret == 0 || ret == -1
    {
      hide RedZonesIntact, InBuffer, InUser, Repaired, AllFit, Held, Poisoned, AllIntact;
      HeldPart(tracked.nodes + freed.nodes, tracked.nodes + done + {n}, mem.Length);
      FitsHeld(tracked.nodes + freed.nodes, n);
      SeenAsBefore(was, mem[..], tracked.nodes, done, n);
      ghost var mid := mem[..];
      var rc, _ := CheckFreedBuffer(mem, n.memblk);
      ret := rc;
      if rc != 0 {
        SetFreedBuffer(mem, n.memblk);
      } else {
        PoisonedAlready(mid, n.memblk);
      }
      RepairFreed(was, mid, mem[..], tracked.nodes, done, n);
      OneMoreFreed(was, tracked.nodes, done, n);
    }

    lemma PoisonedAlready(s: seq<byte>, m: Memblk)
      requires Fits(m, |s|) && Poisoned(s, m)
      ensures forall a {:trigger s[a]} :: 0 <= a < |s| ==> s[a] == if InBuffer(m, a) then FREEDBUF_PATTERN else s[a]
    {
    }

    lemma OneMoreFreed(was: seq<byte>, t: set<BlockNode>, done: set<BlockNode>, n: BlockNode)
      requires AllFit({} + done, |was|) && AllFit(t + (done + {n}), |was|)
      ensures Fits(n.memblk, |was|) && AllFit({} + (done + {n}), |was|)
      ensures AllIntact(was, {}, done + {n}) <==> AllIntact(was, {}, done) && Poisoned(was, n.memblk)
    {
      assert n in t + (done + {n});
      assert forall m :: m in {} + (done + {n}) ==> m in t + (done + {n});
    }
  }

  lemma BothIntact(s: seq<byte>, t: set<BlockNode>, f: set<BlockNode>)
    requires AllFit(t + f, |s|) && AllFit(t + {}, |s|) && AllFit({} + f, |s|)
    ensures AllIntact(s, t, f) <==> AllIntact(s, t, {}) && AllIntact(s, {}, f)
  {
  }

  /** Repairing touches no byte of a tracked block's user area. */
  lemma UserBytesKept(before: seq<byte>, after: seq<byte>, t: set<BlockNode>, f: set<BlockNode>, n: BlockNode, a: nat)
    requires |after| == |before| && Held(t + f, |before|) && AllFit(t + f, |before|) && t !! f
    requires Repaired(before, after, t, f) && n in t && InUser(n.memblk, a)
    ensures a < |before| && after[a] == before[a]
  {
    assert Fits(n.memblk, |before|);
    assert forall m :: m in t + f && m != n ==> Apart(m.memblk, n.memblk);
    assert !Guarded(t, f, a);
  }

  lemma NothingRepaired(s: seq<byte>)
    ensures AllFit({} + {}, |s|) && Repaired(s, s, {}, {}) && AllIntact(s, {}, {})
  {
  }
}

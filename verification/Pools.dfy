/** Pools of equal-sized slots, one per page, chained and grown four pages at a time (memchk_allocator.c). */
module Pools {
  import opened Bits
  import opened PoolBitmap

  const PAGE_SIZE := 4096
  const HEADER_SIZE := 80
  const MMAP_BATCH_PAGE_NUM := 4
  const NULL := 0

  /** The header at the start of a pool's page, at address `addr`. */
  class PoolHeader {
    const addr: nat
    const numMemblk: nat
    var numFree: int
    var seqno: nat
    var bitmap: Bitmap
    var top: PoolHeader?
    var prev: PoolHeader?
    var next: PoolHeader?
    var nextAvailable: PoolHeader?

    /** The part of `__init_header` that does not depend on where the pool goes in the chain. */
    constructor (addr: nat, slotSize: nat)
      requires slotSize > 0
      ensures this.addr == addr && numMemblk == SlotsFor(slotSize) && numFree == numMemblk
      ensures bitmap == [ALL_ONES, ALL_ONES, ALL_ONES] && seqno == 0
      ensures top == null && prev == null && next == null && nextAvailable == null
    {
      this.addr, numMemblk, numFree := addr, SlotsFor(slotSize), SlotsFor(slotSize);
      bitmap, seqno := [ALL_ONES, ALL_ONES, ALL_ONES], 0;
      top, prev, next, nextAvailable := null, null, null, null;
    }
  }

  function SlotsFor(slotSize: nat): nat
    requires slotSize > 0
  {
    (PAGE_SIZE - HEADER_SIZE) / slotSize
  }

  /** `__get_aligned_size`: the least positive multiple of the alignment that is large enough. */
  method GetAlignedSize(size: nat, alignment: nat) returns (ret: nat)
    requires alignment > 0
    ensures ret > 0 && ret % alignment == 0 && ret >= size
    ensures forall m :: 0 < m < ret && m % alignment == 0 ==> m < size
  {
    hide NoMultipleFits;
    ret := alignment;
    ghost var k := 0;
    NextMultiple(0, size, alignment);
    while ret < size
      invariant ret == k * alignment + alignment && NoMultipleFits(ret, size, alignment)
    {
      k := k + 1;
      NextMultiple(k, size, alignment);
      ret := ret + alignment;
    }
    LastMultiple(k, size, alignment);
  }

  /** No positive multiple of `d` below `x` is `size` or more. */
  ghost predicate NoMultipleFits(x: nat, size: nat, d: nat)
    requires d > 0
  {
    forall m :: 0 < m < x && m % d == 0 ==> m < size
  }

  lemma NextMultiple(k: nat, size: nat, d: nat)
    requires d > 0 && (k == 0 || (NoMultipleFits(k * d, size, d) && k * d < size))
    ensures NoMultipleFits(k * d + d, size, d)
    ensures k > 0 ==> k * d == (k - 1) * d + d
  {
    forall m | k * d < m < k * d + d
      ensures m % d != 0
    {
      ModUnique(m, d, k, m - k * d);
    }
  }

  lemma LastMultiple(k: nat, size: nat, d: nat)
    requires d > 0 && NoMultipleFits(k * d + d, size, d)
    ensures (k * d + d) % d == 0
    ensures forall m :: 0 < m < k * d + d && m % d == 0 ==> m < size
  {
    ModUnique(k * d + d, d, k + 1, 0);
  }

  /** A page has room for fewer than 192 slots, all the bitmap can tell apart, from 21 bytes a slot on. */
  lemma FewEnoughSlotsIff(slotSize: nat)
    requires slotSize > 0
    ensures SlotsFor(slotSize) < MAX_BITS <==> slotSize >= 21
  {
    var room, n := PAGE_SIZE - HEADER_SIZE, SlotsFor(slotSize);
    assert n * slotSize <= room < (n + 1) * slotSize;
    assert slotSize >= 21 && n >= MAX_BITS ==> n * slotSize >= MAX_BITS * 21;
    assert slotSize <= 20 && n < MAX_BITS ==> (n + 1) * slotSize <= MAX_BITS * 20;
  }

  /** A page of 4096 bytes has as many slots as fit behind a header of 80 bytes. */
  lemma SlotsFit(slotSize: nat)
    requires slotSize > 0
    ensures SlotsFor(slotSize) * slotSize <= 4096 - 80 < (SlotsFor(slotSize) + 1) * slotSize
  {
    var n, room := SlotsFor(slotSize), 4096 - 80;
    assert room == n * slotSize + room % slotSize;
  }

  lemma SlotBelow(i: nat, n: nat, slotSize: nat)
    requires 80 + (i + 1) * slotSize <= 4096 && 4096 - 80 < (n + 1) * slotSize
    ensures i < n
  {
    assert i >= n ==> (i + 1) * slotSize >= (n + 1) * slotSize;
  }

  /** No page has exactly 192 slots. */
  lemma NeverExactlyFull(slotSize: nat)
    requires slotSize > 0
    ensures SlotsFor(slotSize) != MAX_BITS
  {
    FewEnoughSlotsIff(slotSize);
    var n := SlotsFor(slotSize);
    assert n * slotSize <= PAGE_SIZE - HEADER_SIZE < (n + 1) * slotSize;
    assert slotSize <= 20 ==> (n + 1) * slotSize <= (n + 1) * 20;
  }

  // ----- Addresses -----

  function BufAddr(header: nat, index: nat, slotSize: nat): nat
  {
    header + HEADER_SIZE + slotSize * index
  }

  function GetIndex(header: nat, buf: nat, slotSize: nat): int
    requires slotSize > 0
  {
    (buf - header - HEADER_SIZE) / slotSize
  }

  /** A slot lies within its page behind the header; the page mask and the index division recover it. */
  lemma SlotIs(header: nat, index: nat, slotSize: nat)
    requires slotSize > 0 && header % PAGE_SIZE == 0 && index < SlotsFor(slotSize)
    ensures var a := BufAddr(header, index, slotSize);
      && header + HEADER_SIZE <= a && a + slotSize <= header + PAGE_SIZE
      && AndNot(a, PAGE_SIZE - 1) == header && GetIndex(header, a, slotSize) == index
  {
    hide AndNot;
    var n := SlotsFor(slotSize);
    assert slotSize * (index + 1) <= slotSize * n <= PAGE_SIZE - HEADER_SIZE;
    MaskToPage(header, HEADER_SIZE + slotSize * index);
    DivExact(slotSize, index);
  }

  lemma MaskToPage(header: nat, offset: nat)
    requires header % PAGE_SIZE == 0 && offset < PAGE_SIZE
    ensures AndNot(header + offset, PAGE_SIZE - 1) == header
  {
    PowerOfTwoPage();
    MaskRoundsDown(header + offset, PAGE_SIZE);
  }

  lemma DivExact(d: nat, q: nat)
    requires d > 0
    ensures d * q / d == q
  {
    ModUnique(d * q, d, q, 0);
    var k := d * q / d;
    assert d * q == k * d;
    assert k < q ==> (k + 1) * d <= q * d;
    assert k > q ==> (q + 1) * d <= k * d;
  }

  /** Different slots, of one pool or of pools on different pages, do not overlap. */
  lemma SlotsApart(h: nat, i: nat, g: nat, j: nat, slotSize: nat)
    requires slotSize > 0 && h % PAGE_SIZE == 0 && g % PAGE_SIZE == 0
    requires i < SlotsFor(slotSize) && j < SlotsFor(slotSize) && (h != g || i != j)
    ensures var a, b := BufAddr(h, i, slotSize), BufAddr(g, j, slotSize);
      a + slotSize <= b || b + slotSize <= a
  {
    SlotIs(h, i, slotSize);
    SlotIs(g, j, slotSize);
    if h == g && i < j {
      MulStep(slotSize, i, j);
    } else if h == g {
      MulStep(slotSize, j, i);
    } else {
      hide BufAddr, AndNot, GetIndex;
      PagesApart(h, g);
    }
  }

  lemma MulStep(d: nat, i: nat, j: nat)
    requires i < j
    ensures d * i + d <= d * j
  {
    assert d * (i + 1) <= d * j;
  }

  lemma PagesApart(h: nat, g: nat)
    requires h % PAGE_SIZE == 0 && g % PAGE_SIZE == 0 && h != g
    ensures h + PAGE_SIZE <= g || g + PAGE_SIZE <= h
  {
  }

  // ----- The chain of pools -----

  ghost function PoolAt(s: seq<PoolHeader>, i: nat): PoolHeader?
  {
    if i < |s| then s[i] else null
  }

  /** The counts of one pool agree with its bitmap. */
  ghost predicate PoolOk(h: PoolHeader, slotSize: nat)
    reads h`numFree, h`bitmap
  {
    && slotSize > 0 && 0 < h.numMemblk == SlotsFor(slotSize) < MAX_BITS && h.addr % PAGE_SIZE == 0
    && StraysSet(h.bitmap, h.numMemblk) && h.numFree == |FreeAmong(h.bitmap, h.numMemblk)|
  }

  /** `pools` is the chain: links agree both ways, all share the first pool as top, pages are distinct. */
  ghost predicate Chained(pools: seq<PoolHeader>)
    reads pools`next, pools`prev, pools`top
  {
    && pools != []
    && (forall i {:trigger pools[i].next} :: 0 <= i < |pools| ==> pools[i].next == PoolAt(pools, i + 1))
    && (forall i {:trigger pools[i].prev} :: 0 <= i < |pools| ==>
          pools[i].prev == if i == 0 then null else pools[i - 1])
    && (forall i {:trigger pools[i].top} :: 0 <= i < |pools| ==> pools[i].top == pools[0])
    && (forall i, j :: 0 <= i < j < |pools| ==> pools[i].addr != pools[j].addr)
  }

  /** A slot: its pool and its index. */
  datatype Slot = Slot(pool: PoolHeader, index: nat)

  class PoolFamily {
    const slotSize: nat
    const top: PoolHeader
    // Which header lies on a page: the memory the page mask leads to.
    var pages: map<nat, PoolHeader>
    ghost var pools: seq<PoolHeader>
    ghost var taken: set<Slot>

    ghost predicate Valid()
      reads this, pools`numFree, pools`bitmap, pools`next, pools`prev, pools`top, top`nextAvailable
    {
      && Chained(pools) && pools[0] == top && top.nextAvailable in pools
      && (forall h :: h in pools ==> PoolOk(h, slotSize)) && PagesOk(pages, pools)
      && TakenAre(pools, taken)
    }

    /** On each page noted lies the pool of that address, and every pool is on a page noted. */
    static ghost predicate PagesOk(pages: map<nat, PoolHeader>, pools: seq<PoolHeader>)
    {
      && (forall h :: h in pools ==> h.addr in pages && pages[h.addr] == h)
      && (forall a {:trigger pages[a]} :: a in pages ==> pages[a] in pools && pages[a].addr == a)
    }

    static lemma PagesGrow(pages: map<nat, PoolHeader>, pools: seq<PoolHeader>, h: PoolHeader)
      requires PagesOk(pages, pools) && h.addr !in pages
      ensures PagesOk(pages[h.addr := h], pools + [h])
      ensures forall g :: g in pools ==> g.addr != h.addr
    {
    }

    /** `taken` are the slots whose bits are clear. */
    static ghost predicate TakenAre(pools: seq<PoolHeader>, taken: set<Slot>)
      reads pools`bitmap
    {
      && (forall s :: s in taken ==> s.pool in pools && s.index < s.pool.numMemblk < MAX_BITS)
      && (forall h, i: nat {:trigger Slot(h, i)} :: h in pools && i < h.numMemblk < MAX_BITS ==>
            (Slot(h, i) in taken <==> !Bit(h.bitmap, i)))
    }

    /** `mc_allocator_init`: one pool on a page of its own. */
    constructor (addr: nat, slotSize: nat)
      requires addr % PAGE_SIZE == 0 && slotSize > 0 && 0 < SlotsFor(slotSize) < MAX_BITS
      ensures Valid() && taken == {} && this.slotSize == slotSize && fresh(top) && pools == [top]
      ensures top.addr == addr && pages.Keys == {addr} && top.nextAvailable == top && top.numFree == SlotsFor(slotSize)
    {
      this.slotSize := slotSize;
      var h := new PoolHeader(addr, slotSize);
      top := h;
      pages := map[addr := h];
      pools := [h];
      taken := {};
      new;
      h.top := h;
      h.nextAvailable := h;
      FreshPool(h, slotSize);
    }

    static lemma FreshPool(h: PoolHeader, slotSize: nat)
      requires slotSize > 0 && 0 < SlotsFor(slotSize) < MAX_BITS && h.addr % PAGE_SIZE == 0
      requires h.numMemblk == SlotsFor(slotSize) && h.numFree == h.numMemblk
      requires h.bitmap == [ALL_ONES, ALL_ONES, ALL_ONES]
      ensures PoolOk(h, slotSize) && forall i :: 0 <= i < MAX_BITS ==> Bit(h.bitmap, i)
    {
      AllFree(h.bitmap, h.numMemblk);
    }

    static lemma {:induction false} AllFree(b: Bitmap, num: nat)
      requires num <= MAX_BITS && forall i :: 0 <= i < num ==> Bit(b, i)
      ensures |FreeAmong(b, num)| == num
    {
      if num > 0 {
        AllFree(b, num - 1);
        assert FreeAmong(b, num) == FreeAmong(b, num - 1) + {num - 1};
      } else {
        assert FreeAmong(b, num) == {};
      }
    }

    /** Fresh pages from the operating system: page-aligned, and on none of them is there a pool. */
    ghost predicate Mappable(base: nat)
      reads this
    {
      base % PAGE_SIZE == 0 && forall k :: 0 <= k < MMAP_BATCH_PAGE_NUM ==> base + k * PAGE_SIZE !in pages
    }

    /** `__init_header`: set up the pool on a fresh page behind the last pool, and aim the search at it. */
    method InitHeader(addr: nat, prev: PoolHeader) returns (h: PoolHeader)
      requires Valid() && addr % PAGE_SIZE == 0 && addr !in pages && prev == pools[|pools| - 1]
      modifies `pages, `pools, top`nextAvailable, top`seqno, prev`next
      ensures Valid() && fresh(h) && h.addr == addr && h.numFree == h.numMemblk > 0
      ensures pools == old(pools) + [h] && taken == old(taken) && top.nextAvailable == h
      ensures pages == old(pages)[addr := h]
    {
      hide PoolOk, TakenAre, Bit, StraysSet, Chained, SlotsFor, PagesOk;
      SlotCount();
      h := new PoolHeader(addr, slotSize);
      PagesGrow(pages, pools, h);
      LinkLast(h, prev, pools);
      h.seqno := h.top.seqno;
      h.top.seqno := h.top.seqno + 1;
      h.top.nextAvailable := h;
      FreshPool(h, slotSize);
      TakenGrow(pools, taken, h);
      pages := pages[addr := h];
      pools := pools + [h];
    }

    static method LinkLast(h: PoolHeader, prev: PoolHeader, ghost pools: seq<PoolHeader>)
      requires Chained(pools) && prev == pools[|pools| - 1] && h !in pools
      requires forall g :: g in pools ==> g.addr != h.addr
      modifies h`top, h`prev, h`next, prev`next
      ensures Chained(pools + [h]) && h.top == pools[0]
    {
      h.top := prev.top;
      h.prev := prev;
      h.next := prev.next;
      prev.next := h;
    }

    lemma SlotCount()
      requires Valid()
      ensures slotSize > 0 && 0 < SlotsFor(slotSize) < MAX_BITS && pools != []
    {
      assert PoolOk(pools[0], slotSize);
    }

    static lemma TakenGrow(pools: seq<PoolHeader>, taken: set<Slot>, h: PoolHeader)
      requires TakenAre(pools, taken) && h !in pools && forall i :: 0 <= i < MAX_BITS ==> Bit(h.bitmap, i)
      ensures TakenAre(pools + [h], taken)
    {
    }

    /** These pools lie on the pages from `base` on. */
    static ghost predicate OnPages(added: seq<PoolHeader>, base: nat)
    {
      forall k {:trigger added[k].addr} :: 0 <= k < |added| ==> added[k].addr == base + k * PAGE_SIZE
    }

    static ghost function AddressesOf(added: seq<PoolHeader>): set<nat>
    {
      set h | h in added :: h.addr
    }

    static lemma AddressesAppend(added: seq<PoolHeader>, h: PoolHeader)
      ensures AddressesOf(added + [h]) == AddressesOf(added) + {h.addr}
    {
    }

    /** Append four pools on the pages from `base` on; the first of them is the result. */
    method Grow(last: PoolHeader, base: nat) returns (first: PoolHeader, ghost added: seq<PoolHeader>)
      requires Valid() && Mappable(base) && last == pools[|pools| - 1]
      modifies `pages, `pools, top`nextAvailable, top`seqno, last`next
      ensures Valid() && first.numFree == first.numMemblk > 0 && taken == old(taken)
      ensures |added| == MMAP_BATCH_PAGE_NUM && first == added[0] && fresh(added) && OnPages(added, base)
      ensures pools == old(pools) + added && pages.Keys == old(pages.Keys) + AddressesOf(added)
    {
      hide Valid, AddressesOf;
      SlotCount();
      var prev := last;
      ghost var was := pools;
      first, added := last, [];
      NoAddresses();
      var i := 0;
      while i < MMAP_BATCH_PAGE_NUM
        invariant i <= MMAP_BATCH_PAGE_NUM && Valid() && taken == old(taken)
        invariant |added| == i && pools == was + added && fresh(added) && OnPages(added, base)
        invariant prev == pools[|pools| - 1] && (i > 0 ==> fresh(prev))
        invariant i > 0 ==> first == added[0] && first.numFree == first.numMemblk > 0
        invariant forall k :: i <= k < MMAP_BATCH_PAGE_NUM ==> base + k * PAGE_SIZE !in pages
        invariant pages.Keys == old(pages.Keys) + AddressesOf(added)
      {
        var h := InitHeader(base + i * PAGE_SIZE, prev);
        AddressesAppend(added, h);
        added := added + [h];
        assert pools == was + added;
        if i == 0 {
          first := h;
        }
        prev := h;
        i := i + 1;
      }
    }

    static lemma NoAddresses()
      ensures AddressesOf([]) == {}
    {
    }

    /** The lowest free slot of a pool of the family: -1 exactly when the pool's free count is 0. */
    method GetLowestBit(h: PoolHeader) returns (index: int)
      requires Valid() && h in pools
      ensures index == -1 <==> h.numFree == 0
      ensures index != -1 ==> 0 <= index < h.numMemblk < MAX_BITS && Bit(h.bitmap, index)
      ensures index != -1 ==> forall i :: 0 <= i < index ==> !Bit(h.bitmap, i)
    {
      hide Chained, TakenAre, Bit;
      assert PoolOk(h, slotSize);
      index := LowestBit(h.bitmap, h.numMemblk);
      LowestBitIs(h.bitmap, h.numMemblk);
    }

    /** Set or clear one bit and adjust the pool's free count. */
    method Flip(h: PoolHeader, index: nat, free: bool)
      requires Valid() && h in pools && index < h.numMemblk < MAX_BITS && Bit(h.bitmap, index) != free
      modifies h`bitmap, h`numFree, `taken
      ensures Valid() && (Slot(h, index) in old(taken) <==> free)
      ensures taken == if free then old(taken) - {Slot(h, index)} else old(taken) + {Slot(h, index)}
      ensures h.numFree == old(h.numFree) + if free then 1 else -1
    {
      hide Chained, StraysSet, PoolOk, Bit, TakenAre;
      TakenNow(h, index);
      h.bitmap := WriteBit(h.bitmap, index, free);
      h.numFree := h.numFree + if free then 1 else -1;
      TakenFlip(h, index, free);
      PoolFlip(h, slotSize, index, free);
      taken := if free then taken - {Slot(h, index)} else taken + {Slot(h, index)};
    }

    lemma TakenNow(h: PoolHeader, index: nat)
      requires Valid() && h in pools && index < h.numMemblk < MAX_BITS
      ensures Slot(h, index) in taken <==> !Bit(h.bitmap, index)
    {
    }

    twostate lemma TakenFlip(new h: PoolHeader, new index: nat, new free: bool)
      requires pools == old(pools) && taken == old(taken) && old(TakenAre(pools, taken))
      requires h in pools && index < h.numMemblk < MAX_BITS
      requires h.bitmap == WriteBit(old(h.bitmap), index, free)
      requires forall g :: g in pools && g != h ==> g.bitmap == old(g.bitmap)
      ensures TakenAre(pools, if free then taken - {Slot(h, index)} else taken + {Slot(h, index)})
    {
      hide WriteBit;
    }

    static twostate lemma PoolFlip(h: PoolHeader, new slotSize: nat, new index: nat, new free: bool)
      requires old(PoolOk(h, slotSize)) && index < h.numMemblk < MAX_BITS && old(Bit(h.bitmap, index)) != free
      requires h.bitmap == WriteBit(old(h.bitmap), index, free)
      requires h.numFree == old(h.numFree) + if free then 1 else -1
      ensures PoolOk(h, slotSize)
    {
      hide WriteBit, Bit, FreeAmong;
      if free {
        GiveOne(old(h.bitmap), h.numMemblk, index);
      } else {
        TakeOne(old(h.bitmap), h.numMemblk, index);
      }
    }

    /** Where in the chain the search starts. */
    ghost function Aim(): (k: nat)
      requires top.nextAvailable in pools
      reads `pools, top`nextAvailable
      ensures k < |pools| && pools[k] == top.nextAvailable
    {
      var k :| 0 <= k < |pools| && pools[k] == top.nextAvailable;
      k
    }

    /** The pool the search starts at and all pools behind it are full. */
    ghost predicate AllFull()
      requires top.nextAvailable in pools
      reads `pools, top`nextAvailable, pools`numFree
    {
      forall j :: Aim() <= j < |pools| ==> pools[j].numFree == 0
    }

    lemma Aimed()
      requires Valid()
      ensures top.nextAvailable in pools && top in pools
    {
    }

    lemma ChainAt(k: nat)
      requires Valid() && k < |pools|
      ensures pools[k].next == PoolAt(pools, k + 1)
    {
    }

    /** The first pool with room, from position `k` on; `|pools|` if there is none. */
    ghost function ServingFrom(k: nat): (j: nat)
      requires k <= |pools|
      reads `pools, pools`numFree
      ensures k <= j <= |pools| && (j < |pools| ==> pools[j].numFree != 0)
      ensures forall i :: k <= i < j ==> pools[i].numFree == 0
      decreases |pools| - k
    {
      if k == |pools| || pools[k].numFree != 0 then k else ServingFrom(k + 1)
    }

    /** The pool that serves the next request. */
    ghost function Serving(): (j: nat)
      requires top.nextAvailable in pools
      reads `pools, top`nextAvailable, pools`numFree
      ensures Aim() <= j <= |pools| && (j == |pools| <==> AllFull())
    {
      ServingFrom(Aim())
    }

    /** The search along the chain: the first pool that is not full, from the one aimed at on, if there is one. */
    method SearchChain() returns (header: PoolHeader?, prev: PoolHeader?)
      requires Valid() && top.nextAvailable in pools && top.nextAvailable.numFree == 0
      ensures header == PoolAt(pools, Serving())
      ensures header == null <==> AllFull()
      ensures header != null ==> header in pools && header.numFree != 0
      ensures header == null ==> pools != [] && prev == pools[|pools| - 1]
    {
      hide Valid;
      header, prev := top.nextAvailable, null;
      ghost var k := Aim();
      while header != null && header.numFree == 0
        invariant Aim() <= k <= |pools| && header == PoolAt(pools, k)
        invariant k > Aim() ==> prev == pools[k - 1]
        invariant Serving() == ServingFrom(k)
        decreases |pools| - k
      {
        ChainAt(k);
        prev := header;
        header := header.next;
        k := k + 1;
      }
    }

    lemma BehindHeader(addr: nat, index: nat)
      ensures BufAddr(addr, index, slotSize) >= HEADER_SIZE
    {
    }

    method AimAt(h: PoolHeader)
      requires Valid() && h in pools
      modifies top`nextAvailable
      ensures Valid() && top.nextAvailable == h
    {
      top.nextAvailable := h;
    }

    /**
      Hand out a slot. The search starts at the pool last aimed at, and the chain grows, if the system
      gives pages, exactly when that pool and all behind it are full.
     */
    method Alloc(base: nat) returns (ret: nat, ghost s: Slot, ghost added: seq<PoolHeader>)
      requires Valid() && top.nextAvailable in pools && (base != NULL ==> Mappable(base))
      modifies `pages, `pools, `taken, top`nextAvailable, top`seqno
      modifies pools`next, pools`bitmap, pools`numFree
      ensures Valid() && pools == old(pools) + added && fresh(added) && OnPages(added, base)
      ensures |added| == if base != NULL && old(AllFull()) then 4 else 0
      ensures pages.Keys == old(pages.Keys) + AddressesOf(added)
      ensures added != [] || ret == NULL ==> old(NoRoom())
      ensures ret == NULL <==> base == NULL && old(AllFull())
      ensures ret == NULL ==> taken == old(taken) && top.nextAvailable == old(top.nextAvailable)
      ensures ret != NULL ==>
        && old(Serving()) < |pools| && s.pool == pools[old(Serving())] && top.nextAvailable == s.pool
        && ret == BufAddr(s.pool.addr, s.index, slotSize) == s.pool.addr + 80 + slotSize * s.index
        && s.index < s.pool.numMemblk && ret + slotSize <= s.pool.addr + 4096
        && s !in old(taken) && taken == old(taken) + {s}
        && forall i: nat :: i < s.index ==> Slot(s.pool, i) in old(taken)
    {
      hide Valid, AllFull, Bit, BufAddr, OnPages, AddressesOf, Serving;
      hide NoRoom;
      var header, index;
      s := Slot(top, 0);
      if AllFull() {
        FullHasNoRoom();
      }
      header, index, added := Supply(base);
      if header == null {
        return NULL, s, added;
      }
      ret := BufAddr(header.addr, index, slotSize);
      BehindHeader(header.addr, index);
      AllTaken(header, index);
      Placed(header, index);
      Flip(header, index, false);
      s := Slot(header, index);
    }

    lemma Placed(h: PoolHeader, index: nat)
      requires Valid() && h in pools && index < h.numMemblk
      ensures BufAddr(h.addr, index, slotSize) == h.addr + 80 + slotSize * index
      ensures BufAddr(h.addr, index, slotSize) + slotSize <= h.addr + 4096
    {
      assert PoolOk(h, slotSize);
      SlotIs(h.addr, index, slotSize);
    }

    /** Every slot that fits in a page is handed out, in the pool the search starts at and all behind it. */
    ghost predicate NoRoom()
      requires top.nextAvailable in pools
      reads `pools, `taken, top`nextAvailable
    {
      forall j, i: nat {:trigger Slot(pools[j], i)} ::
        Aim() <= j < |pools| && 80 + (i + 1) * slotSize <= 4096 ==> Slot(pools[j], i) in taken
    }

    /** A pool of the family has as many slots as fit in its page. */
    lemma RoomUsed(h: PoolHeader)
      requires Valid() && h in pools
      ensures h.numMemblk * slotSize <= 4096 - 80 < (h.numMemblk + 1) * slotSize
    {
      assert PoolOk(h, slotSize);
      SlotsFit(slotSize);
    }

    lemma FullHasNoRoom()
      requires Valid() && top.nextAvailable in pools && AllFull()
      ensures NoRoom()
    {
      forall j, i: nat | Aim() <= j < |pools| && 80 + (i + 1) * slotSize <= 4096
        ensures Slot(pools[j], i) in taken
      {
        RoomUsed(pools[j]);
        SlotBelow(i, pools[j].numMemblk, slotSize);
        FullIsTaken(pools[j], i);
      }
    }

    lemma FullIsTaken(h: PoolHeader, i: nat)
      requires Valid() && h in pools && h.numFree == 0 && i < h.numMemblk
      ensures Slot(h, i) in taken
    {
      assert PoolOk(h, slotSize);
      assert TakenAre(pools, taken);
      assert FreeAmong(h.bitmap, h.numMemblk) == {};
    }

    /** Find the pool that serves the request, growing the chain if need be, aim at it, and find its least free slot. */
    method Supply(base: nat) returns (header: PoolHeader?, index: int, ghost added: seq<PoolHeader>)
      requires Valid() && top.nextAvailable in pools && (base != NULL ==> Mappable(base))
      modifies `pages, `pools, top`nextAvailable, top`seqno, pools`next
      ensures Valid() && pools == old(pools) + added && fresh(added) && OnPages(added, base) && taken == old(taken)
      ensures |added| == if base != NULL && old(AllFull()) then MMAP_BATCH_PAGE_NUM else 0
      ensures pages.Keys == old(pages.Keys) + AddressesOf(added)
      ensures header == null <==> base == NULL && old(AllFull())
      ensures header == null ==> top.nextAvailable == old(top.nextAvailable)
      ensures header != null ==>
        && old(Serving()) < |pools| && header == pools[old(Serving())] && top.nextAvailable == header
        && 0 <= index < header.numMemblk < MAX_BITS && Bit(header.bitmap, index)
        && forall i :: 0 <= i < index ==> !Bit(header.bitmap, i)
    {
      hide Valid, Bit, OnPages, AddressesOf;
      added := [];
      NoAddresses();
      NoPages(base);
      header := top.nextAvailable;
      index := GetLowestBit(header);
      if index == -1 {
        var prev;
        header, prev := SearchChain();
        if header == null {
          if base == NULL {
            return;
          }
          header, added := Grow(prev, base);
        }
        index := GetLowestBit(header);
        AimAt(header);
      }
    }

    static lemma NoPages(base: nat)
      ensures OnPages([], base)
    {
    }

    lemma AllTaken(h: PoolHeader, index: nat)
      requires Valid() && h in pools && index < h.numMemblk < MAX_BITS
      requires forall i :: 0 <= i < index ==> !Bit(h.bitmap, i)
      ensures forall i: nat :: i < index ==> Slot(h, i) in taken
    {
      assert TakenAre(pools, taken);
    }

    /**
      Take back the slot `s` that `buf` is the address of: its pool is found by masking the address, its
      index by division, and its bit and the pool's count are as before the slot was handed out.
     */
    method Free(buf: nat, ghost s: Slot)
      requires Valid() && s in taken && buf == BufAddr(s.pool.addr, s.index, slotSize)
      modifies `taken, top`nextAvailable, pools`bitmap, pools`numFree
      ensures Valid() && taken == old(taken) - {s}
      ensures s.pool.numFree == old(s.pool.numFree) + 1
      ensures top.nextAvailable ==
        if s.pool.numFree > old(top.nextAvailable.numFree) && s.pool != old(top.nextAvailable)
        then s.pool else old(top.nextAvailable)
    {
      hide Valid, Bit, BufAddr, GetIndex, AndNot;
      Recovered(buf, s);
      var header := pages[AndNot(buf, PAGE_SIZE - 1)];
      var index := GetIndex(header.addr, buf, slotSize);
      var first := header.top;
      Flip(header, index, true);
      Aimed();
      if header.numFree > first.nextAvailable.numFree {
        AimAt(header);
      }
    }

    lemma Recovered(buf: nat, s: Slot)
      requires Valid() && s in taken && buf == BufAddr(s.pool.addr, s.index, slotSize)
      ensures slotSize > 0 && AndNot(buf, PAGE_SIZE - 1) in pages && pages[AndNot(buf, PAGE_SIZE - 1)] == s.pool
      ensures GetIndex(s.pool.addr, buf, slotSize) == s.index < s.pool.numMemblk < MAX_BITS
      ensures s.pool in pools && s.pool.top == top && !Bit(s.pool.bitmap, s.index)
    {
      hide Bit, BufAddr, GetIndex, AndNot;
      assert PoolOk(s.pool, slotSize);
      SlotIs(s.pool.addr, s.index, slotSize);
      assert TakenAre(pools, taken);
      var k :| 0 <= k < |pools| && pools[k] == s.pool;
      assert pools[k].top == pools[0];
      assert s == Slot(s.pool, s.index);
    }

    /** Slots handed out overlap neither each other nor any pool's header. */
    lemma OutstandingApart(s: Slot, t: Slot, h: PoolHeader)
      requires Valid() && s in taken && t in taken && h in pools
      ensures var a, b := BufAddr(s.pool.addr, s.index, slotSize), BufAddr(t.pool.addr, t.index, slotSize);
        && (s != t ==> a + slotSize <= b || b + slotSize <= a)
        && (a + slotSize <= h.addr || h.addr + HEADER_SIZE <= a)
    {
      hide Bit, BufAddr, StraysSet, FreeAmong;
      assert PoolOk(s.pool, slotSize) && PoolOk(t.pool, slotSize) && PoolOk(h, slotSize);
      SlotIs(s.pool.addr, s.index, slotSize);
      if s != t {
        if s.pool.addr == t.pool.addr {
          SamePage(s.pool, t.pool);
        }
        SlotsApart(s.pool.addr, s.index, t.pool.addr, t.index, slotSize);
      }
      if h.addr != s.pool.addr {
        PagesApart(h.addr, s.pool.addr);
      }
    }

    lemma SamePage(g: PoolHeader, h: PoolHeader)
      requires Valid() && g in pools && h in pools && g.addr == h.addr
      ensures g == h
    {
    }
  }
}

/** Whole runs of a pool family, and that the family carries them out. */
module PoolRuns {
  import opened Bits
  import opened Pools

  datatype Op = Alloc(base: nat) | Free(buf: nat)

  /** The pools in chain order: where they are, which of their slots are handed out, and where a search starts. */
  datatype Family = Family(slotSize: nat, addrs: seq<nat>, used: seq<set<nat>>, aim: nat)

  // ----- What a run does -----

  /** A page holds at least one slot, and few enough for the bitmap. */
  ghost predicate SizeOk(slotSize: nat)
  {
    slotSize > 0 && 0 < SlotsFor(slotSize) < 192
  }

  ghost predicate Good(f: Family)
  {
    && SizeOk(f.slotSize) && |f.used| == |f.addrs| && f.aim < |f.addrs|
    && (forall i :: 0 <= i < |f.addrs| ==> f.addrs[i] % PAGE_SIZE == 0)
    && (forall i, j :: 0 <= i < j < |f.addrs| ==> f.addrs[i] != f.addrs[j])
    && (forall k, i :: 0 <= k < |f.used| && i in f.used[k] ==> i < SlotsFor(f.slotSize))
  }

  ghost predicate Full(f: Family, k: nat)
    requires SizeOk(f.slotSize) && k < |f.used|
  {
    |f.used[k]| == SlotsFor(f.slotSize)
  }

  /** The first pool with room, from position `k` on. */
  ghost function FirstRoom(f: Family, k: nat): (j: nat)
    requires SizeOk(f.slotSize) && k <= |f.used|
    ensures k <= j <= |f.used| && (j < |f.used| ==> !Full(f, j))
    ensures forall i :: k <= i < j ==> Full(f, i)
    decreases |f.used| - k
  {
    if k == |f.used| || !Full(f, k) then k else FirstRoom(f, k + 1)
  }

  /** The least number that is not in `u`, from `i` on, if there is one below `num`. */
  ghost function LeastFree(u: set<nat>, i: nat, num: nat): (r: nat)
    requires i <= num
    ensures i <= r <= num && (r < num ==> r !in u)
    ensures forall k: nat :: i <= k < r ==> k in u
    decreases num - i
  {
    if i == num || i !in u then i else LeastFree(u, i + 1, num)
  }

  ghost function Take(f: Family, k: nat): Family
    requires SizeOk(f.slotSize) && k < |f.used|
  {
    f.(used := f.used[k := f.used[k] + {LeastFree(f.used[k], 0, SlotsFor(f.slotSize))}], aim := k)
  }

  ghost function Grown(f: Family, base: nat): Family
  {
    f.(addrs := f.addrs + seq(MMAP_BATCH_PAGE_NUM, k requires 0 <= k => base + k * PAGE_SIZE),
       used := f.used + seq(MMAP_BATCH_PAGE_NUM, _ => {}))
  }

  /** All pools from the one aimed at on are full. */
  ghost predicate Exhausted(f: Family)
    requires Good(f)
  {
    forall j :: f.aim <= j < |f.used| ==> Full(f, j)
  }

  /** Where the pool of a page is in the chain. */
  ghost function PlaceOf(addrs: seq<nat>, a: nat): (k: nat)
    ensures k <= |addrs| && (k < |addrs| ==> addrs[k] == a)
    ensures forall i :: 0 <= i < k ==> addrs[i] != a
  {
    if addrs == [] || addrs[0] == a then 0
    else
      assert forall i :: 0 < i < |addrs| ==> addrs[i] == addrs[1..][i - 1];
      1 + PlaceOf(addrs[1..], a)
  }

  ghost function Step(f: Family, op: Op): Family
    requires Good(f) && Allowed(f, op)
  {
    match op
    case Alloc(base) =>
      var k := FirstRoom(f, f.aim);
      if k < |f.used| then Take(f, k)
      else if base == NULL then f
      else Take(Grown(f, base), k)
    case Free(buf) =>
      var k, i := PlaceOf(f.addrs, AndNot(buf, PAGE_SIZE - 1)), GetIndex(AndNot(buf, PAGE_SIZE - 1), buf, f.slotSize);
      if k == |f.used| then f
      else
        var used := f.used[k := f.used[k] - {i}];
        f.(used := used, aim := if |used[k]| < |used[f.aim]| then k else f.aim)
  }

  /** What a request is answered with. */
  ghost function Answer(f: Family, op: Op): nat
    requires Good(f) && Allowed(f, op)
  {
    var k := FirstRoom(f, f.aim);
    if op.Free? || (k == |f.used| && op.base == NULL) then NULL
    else
      var g := if k < |f.used| then f else Grown(f, op.base);
      BufAddr(g.addrs[k], LeastFree(g.used[k], 0, SlotsFor(f.slotSize)), f.slotSize)
  }

  /** The addresses of the slots handed out. */
  ghost function Outstanding(f: Family): set<nat>
  {
    set k, i | 0 <= k < |f.used| && k < |f.addrs| && i in f.used[k] :: BufAddr(f.addrs[k], i, f.slotSize)
  }

  /** The system gives pages on which there is no pool, and only slots handed out are given back. */
  ghost predicate Allowed(f: Family, op: Op)
  {
    match op
    case Alloc(base) =>
      base == NULL ||
      (base % PAGE_SIZE == 0 && forall k :: 0 <= k < MMAP_BATCH_PAGE_NUM ==> base + k * PAGE_SIZE !in f.addrs)
    case Free(buf) => buf in Outstanding(f)
  }

  // ----- What every run keeps -----

  lemma RoomLeast(u: set<nat>, num: nat)
    requires (forall i :: i in u ==> i < num) && |u| != num
    ensures LeastFree(u, 0, num) < num
  {
    var r := LeastFree(u, 0, num);
    if r == num {
      CountUpTo(u, num);
    }
  }

  lemma {:induction false} CountUpTo(u: set<nat>, num: nat)
    requires forall i: nat :: i in u <==> i < num
    ensures |u| == num
  {
    if num > 0 {
      var rest := u - {num - 1};
      assert forall i: nat :: i in rest <==> i < num - 1;
      CountUpTo(rest, num - 1);
    } else {
      assert u == {};
    }
  }

  /** Different slots have different addresses, none of them null. */
  lemma AddressIs(f: Family, k: nat, i: nat)
    requires Good(f) && k < |f.addrs| && i < SlotsFor(f.slotSize)
    ensures var a := BufAddr(f.addrs[k], i, f.slotSize);
      && a != NULL && AndNot(a, PAGE_SIZE - 1) == f.addrs[k] && GetIndex(f.addrs[k], a, f.slotSize) == i
      && PlaceOf(f.addrs, f.addrs[k]) == k
  {
    SlotIs(f.addrs[k], i, f.slotSize);
  }

  lemma GrownAt(f: Family, base: nat)
    requires |f.used| == |f.addrs|
    ensures var g := Grown(f, base);
      && |g.addrs| == |g.used| == |f.addrs| + MMAP_BATCH_PAGE_NUM
      && (forall k {:trigger g.used[k]} :: 0 <= k < |g.used| ==> g.used[k] == if k < |f.used| then f.used[k] else {})
      && (forall k {:trigger g.addrs[k]} :: 0 <= k < |g.used| ==>
            g.addrs[k] == if k < |f.used| then f.addrs[k] else base + (k - |f.used|) * PAGE_SIZE)
  {
  }

  lemma GrownGood(f: Family, base: nat)
    requires Good(f) && base != NULL && Allowed(f, Alloc(base))
    ensures Good(Grown(f, base)) && Outstanding(Grown(f, base)) == Outstanding(f)
    ensures !Full(Grown(f, base), |f.used|)
  {
    GrownAt(f, base);
    hide Grown, BufAddr;
    GrownOutstanding(f, base);
    forall i, j | 0 <= i < j < |Grown(f, base).addrs|
      ensures Grown(f, base).addrs[i] != Grown(f, base).addrs[j]
    {
      if i < |f.used| <= j {
        assert base + (j - |f.used|) * PAGE_SIZE !in f.addrs;
      }
    }
  }

  lemma GrownOutstanding(f: Family, base: nat)
    requires |f.used| == |f.addrs|
    ensures Outstanding(Grown(f, base)) == Outstanding(f)
  {
    GrownAt(f, base);
    hide Grown, BufAddr;
    var g := Grown(f, base);
    forall a | a in Outstanding(f)
      ensures a in Outstanding(g)
    {
      var k, i :| 0 <= k < |f.used| && i in f.used[k] && a == BufAddr(f.addrs[k], i, f.slotSize);
      assert g.used[k] == f.used[k] && g.addrs[k] == f.addrs[k] && g.slotSize == f.slotSize;
    }
    forall a | a in Outstanding(g)
      ensures a in Outstanding(f)
    {
      var k, i :| 0 <= k < |g.used| && i in g.used[k] && a == BufAddr(g.addrs[k], i, g.slotSize);
      assert g.used[k] == f.used[k] && g.addrs[k] == f.addrs[k];
    }
  }

  lemma TakeGood(f: Family, k: nat)
    requires Good(f) && k < |f.used| && !Full(f, k)
    ensures Good(Take(f, k))
    ensures var a := BufAddr(f.addrs[k], LeastFree(f.used[k], 0, SlotsFor(f.slotSize)), f.slotSize);
      a != NULL && a !in Outstanding(f) && Outstanding(Take(f, k)) == Outstanding(f) + {a}
  {
    var num := SlotsFor(f.slotSize);
    RoomLeast(f.used[k], num);
    var i := LeastFree(f.used[k], 0, num);
    var g, a := Take(f, k), BufAddr(f.addrs[k], i, f.slotSize);
    AddressIs(f, k, i);
    forall l, j | 0 <= l < |f.used| && j in f.used[l]
      ensures BufAddr(f.addrs[l], j, f.slotSize) != a
    {
      AddressIs(f, l, j);
    }
    hide BufAddr;
    forall b | b in Outstanding(f) + {a}
      ensures b in Outstanding(g)
    {
      if b == a {
        assert i in g.used[k];
      } else {
        var l, j :| 0 <= l < |f.used| && j in f.used[l] && b == BufAddr(f.addrs[l], j, f.slotSize);
        assert j in g.used[l];
      }
    }
  }

  /** The place and index of a slot handed out. */
  lemma Found(f: Family, buf: nat) returns (k: nat, i: nat)
    requires Good(f) && buf in Outstanding(f)
    ensures k < |f.used| && i in f.used[k] && i < SlotsFor(f.slotSize) && buf == BufAddr(f.addrs[k], i, f.slotSize)
    ensures AndNot(buf, PAGE_SIZE - 1) == f.addrs[k] && PlaceOf(f.addrs, f.addrs[k]) == k
    ensures GetIndex(f.addrs[k], buf, f.slotSize) == i
  {
    k, i :| 0 <= k < |f.used| && i in f.used[k] && buf == BufAddr(f.addrs[k], i, f.slotSize);
    AddressIs(f, k, i);
  }

  lemma FreeGood(f: Family, buf: nat)
    requires Good(f) && Allowed(f, Free(buf))
    ensures var g := Step(f, Free(buf)); Good(g) && Outstanding(g) == Outstanding(f) - {buf} && g.addrs == f.addrs
  {
    var k, i := Found(f, buf);
    var g := Step(f, Free(buf));
    hide BufAddr, AndNot, GetIndex;
    assert g.used == f.used[k := f.used[k] - {i}];
    forall b | b in Outstanding(f) && b != buf
      ensures b in Outstanding(g)
    {
      var l, j :| 0 <= l < |f.used| && j in f.used[l] && b == BufAddr(f.addrs[l], j, f.slotSize);
      assert j in g.used[l];
    }
    forall b | b in Outstanding(g)
      ensures b in Outstanding(f) && b != buf
    {
      var l, j :| 0 <= l < |g.used| && j in g.used[l] && b == BufAddr(g.addrs[l], j, g.slotSize);
      assert j in f.used[l];
      if b == buf {
        AddressIs(f, l, j);
      }
    }
  }

  /**
    A request is answered with a slot not handed out before, or with null if all pools from the one aimed
    at on are full and no pages are given. The chain grows exactly when they are full and pages are given.
    Giving back takes exactly the slot.
   */
  lemma StepGood(f: Family, op: Op)
    requires Good(f) && Allowed(f, op)
    ensures var g, a := Step(f, op), Answer(f, op);
      && Good(g) && g.slotSize == f.slotSize
      && (op.Free? ==> a == NULL && Outstanding(g) == Outstanding(f) - {op.buf})
      && (op.Alloc? && a == NULL ==> g == f)
      && (op.Alloc? && a != NULL ==> a !in Outstanding(f) && Outstanding(g) == Outstanding(f) + {a})
      && (op.Alloc? ==> (a == NULL <==> Exhausted(f) && op.base == NULL))
      && |g.addrs| == |f.addrs| + (if op.Alloc? && op.base != NULL && Exhausted(f) then MMAP_BATCH_PAGE_NUM else 0)
      && g.addrs[..|f.addrs|] == f.addrs
  {
    match op
    case Free(buf) =>
      FreeGood(f, buf);
    case Alloc(base) =>
      hide Outstanding, BufAddr, SlotsFor;
      var k := FirstRoom(f, f.aim);
      if k < |f.used| {
        TakeGood(f, k);
      } else if base != NULL {
        GrownGood(f, base);
        TakeGood(Grown(f, base), k);
      }
  }

  /** Every operation is allowed when its turn comes. That each step stays good is `StepGood`. */
  ghost predicate AllAllowed(f: Family, ops: seq<Op>)
    requires Good(f)
    decreases |ops|
  {
    ops == [] || (Allowed(f, ops[0]) && Good(Step(f, ops[0])) && AllAllowed(Step(f, ops[0]), ops[1..]))
  }

  ghost function RunAll(f: Family, ops: seq<Op>): Family
    requires Good(f) && AllAllowed(f, ops)
    decreases |ops|
  {
    if ops == [] then f else RunAll(Step(f, ops[0]), ops[1..])
  }

  ghost function Answers(f: Family, ops: seq<Op>): (r: seq<nat>)
    requires Good(f) && AllAllowed(f, ops)
    ensures |r| == |ops|
    decreases |ops|
  {
    if ops == [] then [] else [Answer(f, ops[0])] + Answers(Step(f, ops[0]), ops[1..])
  }

  /** What is outstanding once requests and returns have been answered: each answer comes in, each return goes out. */
  ghost function Ledger(out: set<nat>, ops: seq<Op>, answers: seq<nat>): set<nat>
    requires |answers| == |ops|
    decreases |ops|
  {
    if ops == [] then out
    else
      var next := if ops[0].Free? then out - {ops[0].buf} else if answers[0] == NULL then out else out + {answers[0]};
      Ledger(next, ops[1..], answers[1..])
  }

  /** No slot is handed out again before it has been given back. */
  ghost predicate NeverTwice(out: set<nat>, ops: seq<Op>, answers: seq<nat>)
    requires |answers| == |ops|
    decreases |ops|
  {
    ops == [] ||
    (var next := if ops[0].Free? then out - {ops[0].buf} else if answers[0] == NULL then out else out + {answers[0]};
     (ops[0].Alloc? ==> answers[0] !in out) && NeverTwice(next, ops[1..], answers[1..]))
  }

  /** Over every run, the slots outstanding are exactly those of the ledger, and none is handed out twice. */
  lemma {:induction false} RunGood(f: Family, ops: seq<Op>)
    requires Good(f) && AllAllowed(f, ops)
    ensures Good(RunAll(f, ops)) && Outstanding(RunAll(f, ops)) == Ledger(Outstanding(f), ops, Answers(f, ops))
    ensures NeverTwice(Outstanding(f), ops, Answers(f, ops))
    decreases |ops|
  {
    hide Step, Answer, Outstanding, Good, Allowed;
    if ops != [] {
      StepGood(f, ops[0]);
      NullNever(f);
      RunGood(Step(f, ops[0]), ops[1..]);
      assert Answers(f, ops)[1..] == Answers(Step(f, ops[0]), ops[1..]);
    }
  }

  lemma NullNever(f: Family)
    requires Good(f)
    ensures NULL !in Outstanding(f)
  {
  }

  // ----- The family carries out runs -----

  ghost function UsedOf(taken: set<Slot>, h: PoolHeader): set<nat>
  {
    set i: nat | i < h.numMemblk && Slot(h, i) in taken
  }

  /** Pools in chain order, slots handed out and the pool aimed at are as `f` says. */
  ghost predicate Matches(pools: seq<PoolHeader>, taken: set<Slot>, next: PoolHeader?, f: Family)
  {
    && |f.addrs| == |f.used| == |pools| && f.aim < |pools| && pools[f.aim] == next
    && (forall k {:trigger f.addrs[k]} {:trigger pools[k]} :: 0 <= k < |pools| ==> f.addrs[k] == pools[k].addr)
    && (forall k {:trigger f.used[k]} {:trigger pools[k]} :: 0 <= k < |pools| ==>
          f.used[k] == UsedOf(taken, pools[k]))
  }

  ghost predicate Represents(p: PoolFamily, f: Family)
    reads p, p.top`nextAvailable
  {
    p.slotSize == f.slotSize && Matches(p.pools, p.taken, p.top.nextAvailable, f)
  }

  /** A family just created represents one pool with all slots free. */
  lemma StartRepresented(p: PoolFamily)
    requires p.Valid() && p.pools == [p.top] && p.taken == {} && p.top.nextAvailable == p.top
    ensures Represents(p, Family(p.slotSize, [p.top.addr], [{}], 0))
  {
  }

  /** A pool's free count is what is not handed out of its slots. */
  lemma FreeCount(p: PoolFamily, h: PoolHeader)
    requires p.Valid() && h in p.pools
    ensures SizeOk(p.slotSize) && h.numMemblk == SlotsFor(p.slotSize)
    ensures h.numFree == SlotsFor(p.slotSize) - |UsedOf(p.taken, h)|
  {
    assert PoolOk(h, p.slotSize);
    var free, used := PoolBitmap.FreeAmong(h.bitmap, h.numMemblk), UsedOf(p.taken, h);
    assert PoolFamily.TakenAre(p.pools, p.taken);
    forall i: nat
      ensures i in free + used <==> i < h.numMemblk
    {
      if i < h.numMemblk {
        assert Slot(h, i) in p.taken <==> !PoolBitmap.Bit(h.bitmap, i);
      }
    }
    forall i | i in free
      ensures i !in used
    {
      assert Slot(h, i) in p.taken <==> !PoolBitmap.Bit(h.bitmap, i);
    }
    CountUpTo(free + used, h.numMemblk);
  }

  lemma RepresentsGood(p: PoolFamily, f: Family)
    requires p.Valid() && Represents(p, f)
    ensures Good(f)
    ensures forall k {:trigger p.pools[k]} :: 0 <= k < |p.pools| ==> (Full(f, k) <==> p.pools[k].numFree == 0)
    ensures p.top.nextAvailable in p.pools
  {
    forall k | 0 <= k < |p.pools|
      ensures SizeOk(f.slotSize) && (Full(f, k) <==> p.pools[k].numFree == 0) && f.addrs[k] % PAGE_SIZE == 0
      ensures p.pools[k].numMemblk == SlotsFor(p.slotSize)
    {
      FreeCount(p, p.pools[k]);
      assert PoolOk(p.pools[k], p.slotSize);
    }
    assert Chained(p.pools);
  }

  lemma Apart(f: Family, pools: seq<PoolHeader>, i: nat, j: nat)
    requires Good(f) && |pools| == |f.addrs| && i < |pools| && j < |pools|
    requires forall k {:trigger pools[k]} :: 0 <= k < |pools| ==> f.addrs[k] == pools[k].addr
    ensures pools[i] == pools[j] ==> i == j
  {
    assert i < j ==> f.addrs[i] != f.addrs[j];
    assert j < i ==> f.addrs[j] != f.addrs[i];
  }

  /** The pool that serves is the one the run takes from. */
  lemma ServingIs(p: PoolFamily, f: Family)
    requires p.Valid() && Represents(p, f) && Good(f) && p.top.nextAvailable in p.pools
    ensures p.Aim() == f.aim && p.Serving() == FirstRoom(f, f.aim) && (p.AllFull() <==> Exhausted(f))
  {
    RepresentsGood(p, f);
    hide Good, PoolFamily.Valid;
    Apart(f, p.pools, p.Aim(), f.aim);
    var j, k := p.Serving(), FirstRoom(f, f.aim);
    assert forall i :: 0 <= i < |p.pools| ==> (Full(f, i) <==> p.pools[i].numFree == 0);
  }

  lemma PagesKnown(p: PoolFamily, f: Family, base: nat)
    requires p.Valid() && Represents(p, f) && Allowed(f, Alloc(base)) && base != NULL
    ensures p.Mappable(base)
  {
    forall a | a in p.pages
      ensures a in f.addrs
    {
      var i :| 0 <= i < |p.pools| && p.pools[i] == p.pages[a];
      assert f.addrs[i] == a;
    }
  }

  lemma TakeMatches(pools: seq<PoolHeader>, taken: set<Slot>, next: PoolHeader?, f: Family, k: nat, s: Slot)
    requires Good(f) && Matches(pools, taken, next, f) && k < |pools| && s.pool == pools[k]
    requires s !in taken && s.index < s.pool.numMemblk == SlotsFor(f.slotSize)
    requires forall i: nat :: i < s.index ==> Slot(s.pool, i) in taken
    ensures Matches(pools, taken + {s}, pools[k], Take(f, k))
    ensures s.index == LeastFree(f.used[k], 0, SlotsFor(f.slotSize)) && s.pool.addr == f.addrs[k]
    ensures |f.used| == |f.addrs| == |pools| && Take(f, k).slotSize == f.slotSize
  {
    var num := SlotsFor(f.slotSize);
    var i := LeastFree(f.used[k], 0, num);
    assert f.used[k] == UsedOf(taken, s.pool);
    assert s.index !in f.used[k];
    assert forall j: nat :: j < s.index ==> j in f.used[k];
    forall l | 0 <= l < |pools|
      ensures UsedOf(taken + {s}, pools[l]) == if l == k then f.used[k] + {s.index} else f.used[l]
    {
      Apart(f, pools, l, k);
    }
  }

  lemma GrowMatches(pools: seq<PoolHeader>, taken: set<Slot>, next: PoolHeader?, f: Family,
                    added: seq<PoolHeader>, base: nat)
    requires Matches(pools, taken, next, f) && |added| == MMAP_BATCH_PAGE_NUM && PoolFamily.OnPages(added, base)
    requires forall s :: s in taken ==> s.pool !in added
    ensures Matches(pools + added, taken, next, Grown(f, base))
  {
    GrownAt(f, base);
    hide Grown;
    assert forall k :: 0 <= k < |added| ==> UsedOf(taken, added[k]) == {};
    assert forall k :: |pools| <= k < |pools + added| ==> (pools + added)[k] == added[k - |pools|];
  }

  lemma FreeMatches(pools: seq<PoolHeader>, taken: set<Slot>, next: PoolHeader?, next': PoolHeader?, f: Family, s: Slot,
                    k: nat)
    requires Good(f) && Matches(pools, taken, next, f) && s in taken && k < |pools| && s.pool == pools[k]
    requires s.index < s.pool.numMemblk == SlotsFor(f.slotSize)
    requires var used := f.used[k := f.used[k] - {s.index}];
      next' == if |used[k]| < |used[f.aim]| then pools[k] else next
    requires Allowed(f, Free(BufAddr(f.addrs[k], s.index, f.slotSize)))
    ensures Matches(pools, taken - {s}, next', Step(f, Free(BufAddr(f.addrs[k], s.index, f.slotSize))))
  {
    AddressIs(f, k, s.index);
    hide BufAddr, AndNot, GetIndex;
    forall l | 0 <= l < |pools|
      ensures UsedOf(taken - {s}, pools[l]) == if l == k then f.used[k] - {s.index} else f.used[l]
    {
      Apart(f, pools, l, k);
    }
  }

  /** What an allocation comes to, by cases. */
  lemma AllocStep(f: Family, base: nat)
    requires Good(f) && Allowed(f, Alloc(base))
    ensures var k := FirstRoom(f, f.aim); var op := Alloc(base); var g := if k < |f.used| then f else Grown(f, base);
      && (k == |f.used| <==> Exhausted(f)) && |f.addrs| == |f.used| && g.slotSize == f.slotSize
      && (k == |f.used| && base == NULL ==> Step(f, op) == f && Answer(f, op) == NULL)
      && (k < |f.used| || base != NULL ==>
            && SizeOk(f.slotSize) && k < |g.used| == |g.addrs| && Step(f, op) == Take(g, k)
            && Answer(f, op) == BufAddr(g.addrs[k], LeastFree(g.used[k], 0, SlotsFor(f.slotSize)), f.slotSize))
  {
    hide BufAddr, LeastFree, Take;
  }

  method PerformAlloc(p: PoolFamily, base: nat, ghost f: Family) returns (ret: nat)
    requires p.Valid() && Represents(p, f) && Good(f) && Allowed(f, Alloc(base))
    modifies p`pages, p`pools, p`taken, p.top`nextAvailable, p.top`seqno
    modifies p.pools`next, p.pools`bitmap, p.pools`numFree
    ensures p.Valid() && Represents(p, Step(f, Alloc(base))) && ret == Answer(f, Alloc(base))
    ensures |old(p.pools)| <= |p.pools| && p.pools[..|old(p.pools)|] == old(p.pools)
    ensures fresh(p.pools[|old(p.pools)|..])
  {
    hide PoolFamily.Valid, Good, Matches, BufAddr, FirstRoom, LeastFree, Full, PoolFamily.OnPages;
    hide Step, Answer, Take, Grown, Exhausted, PoolFamily.AllFull, PoolFamily.AddressesOf;
    ghost var pools, taken, next := p.pools, p.taken, p.top.nextAvailable;
    AllocStep(f, base);
    RepresentsGood(p, f);
    ServingIs(p, f);
    if base != NULL {
      PagesKnown(p, f, base);
    }
    TakenInPools(p);
    ghost var s, added;
    ret, s, added := p.Alloc(base);
    assert p.pools[|pools|..] == added;
    if ret == NULL {
      assert p.pools == pools;
    } else {
      if added != [] {
        GrowMatches(pools, taken, next, f, added, base);
        GrownGood(f, base);
      } else {
        assert p.pools == pools;
      }
      ghost var g := if added == [] then f else Grown(f, base);
      PoolSize(p, s.pool);
      TakeMatches(p.pools, taken, next, g, FirstRoom(f, f.aim), s);
    }
  }

  lemma TakenInPools(p: PoolFamily)
    requires p.Valid()
    ensures forall s :: s in p.taken ==> s.pool in p.pools
  {
    assert PoolFamily.TakenAre(p.pools, p.taken);
  }

  lemma PoolSize(p: PoolFamily, h: PoolHeader)
    requires p.Valid() && h in p.pools
    ensures h.numMemblk == SlotsFor(p.slotSize)
  {
    FreeCount(p, h);
  }

  method PerformFree(p: PoolFamily, buf: nat, ghost f: Family)
    requires p.Valid() && Represents(p, f) && Good(f) && Allowed(f, Free(buf))
    modifies p`taken, p.top`nextAvailable, p.pools`bitmap, p.pools`numFree
    ensures p.Valid() && Represents(p, Step(f, Free(buf)))
  {
    hide PoolFamily.Valid, Good, BufAddr, AndNot, GetIndex, UsedOf;
    ghost var k, i := Found(f, buf);
    ghost var s := Slot(p.pools[k], i);
    IsTaken(p.taken, p.pools[k], i);
    RepresentsGood(p, f);
    ghost var pools, taken, next := p.pools, p.taken, p.top.nextAvailable;
    FreeCount(p, next);
    PoolSize(p, s.pool);
    p.Free(buf, s);
    FreeCount(p, s.pool);
    OneReturned(taken, s, f, k);
    Apart(f, pools, k, f.aim);
    FreeMatches(pools, taken, next, p.top.nextAvailable, f, s, k);
  }

  lemma IsTaken(taken: set<Slot>, h: PoolHeader, i: nat)
    requires i in UsedOf(taken, h)
    ensures Slot(h, i) in taken
  {
  }

  lemma OneReturned(taken: set<Slot>, s: Slot, f: Family, k: nat)
    requires k < |f.used| && f.used[k] == UsedOf(taken, s.pool)
    ensures UsedOf(taken - {s}, s.pool) == f.used[k] - {s.index}
  {
  }

  /** Carry out one step of a run. */
  method Perform(p: PoolFamily, op: Op, ghost f: Family) returns (ret: nat)
    requires p.Valid() && Represents(p, f) && Good(f) && Allowed(f, op)
    modifies p`pages, p`pools, p`taken, p.top`nextAvailable, p.top`seqno
    modifies p.pools`next, p.pools`bitmap, p.pools`numFree
    ensures p.Valid() && Represents(p, Step(f, op)) && ret == Answer(f, op)
    ensures |old(p.pools)| <= |p.pools| && p.pools[..|old(p.pools)|] == old(p.pools)
    ensures fresh(p.pools[|old(p.pools)|..])
  {
    hide PoolFamily.Valid, Good, Represents;
    match op
    case Alloc(base) =>
      ret := PerformAlloc(p, base, f);
    case Free(buf) =>
      PerformFree(p, buf, f);
      ret := NULL;
  }

  /** Carry out a whole run: the answers are the run's, and so are the slots handed out and the pools there are. */
  method PerformAll(p: PoolFamily, ops: seq<Op>, ghost f: Family) returns (answers: seq<nat>)
    requires p.Valid() && Represents(p, f) && Good(f) && AllAllowed(f, ops)
    modifies p`pages, p`pools, p`taken, p.top`nextAvailable, p.top`seqno
    modifies p.pools`next, p.pools`bitmap, p.pools`numFree
    ensures p.Valid() && Represents(p, RunAll(f, ops)) && answers == Answers(f, ops)
    ensures |old(p.pools)| <= |p.pools| && p.pools[..|old(p.pools)|] == old(p.pools)
    ensures fresh(p.pools[|old(p.pools)|..])
  {
    hide PoolFamily.Valid, Good, Represents, Step, Answer, Allowed;
    answers := [];
    ghost var now, pools := f, p.pools;
    for i := 0 to |ops|
      invariant p.Valid() && Represents(p, now) && Good(now) && AllAllowed(now, ops[i..])
      invariant |pools| <= |p.pools| && p.pools[..|pools|] == pools && fresh(p.pools[|pools|..])
      invariant RunAll(now, ops[i..]) == RunAll(f, ops) && Answers(f, ops) == answers + Answers(now, ops[i..])
    {
      assert ops[i..][0] == ops[i] && ops[i..][1..] == ops[i + 1..];
      ghost var before := p.pools;
      assert p.pools == pools + p.pools[|pools|..];
      var answer := Perform(p, ops[i], now);
      assert p.pools == before + p.pools[|before|..];
      assert p.pools[|pools|..] == before[|pools|..] + p.pools[|before|..];
      answers := answers + [answer];
      now := Step(now, ops[i]);
    }
    assert ops[|ops|..] == [];
  }

  /** A whole run of a family of its own. */
  method WholeRun(addr: nat, slotSize: nat, ops: seq<Op>) returns (p: PoolFamily, answers: seq<nat>)
    requires addr % PAGE_SIZE == 0 && SizeOk(slotSize)
    requires AllAllowed(Family(slotSize, [addr], [{}], 0), ops)
    ensures p.Valid() && Represents(p, RunAll(Family(slotSize, [addr], [{}], 0), ops))
    ensures answers == Answers(Family(slotSize, [addr], [{}], 0), ops) && |answers| == |ops|
    ensures Outstanding(RunAll(Family(slotSize, [addr], [{}], 0), ops)) == Ledger({}, ops, answers)
    ensures NeverTwice({}, ops, answers)
  {
    hide PoolFamily.Valid, Represents, AllAllowed, RunAll, Answers, Outstanding, Ledger, NeverTwice;
    p := new PoolFamily(addr, slotSize);
    ghost var f := Family(slotSize, [addr], [{}], 0);
    StartRepresented(p);
    answers := PerformAll(p, ops, f);
    RunGood(f, ops);
    NothingOut(f);
  }

  lemma NothingOut(f: Family)
    requires f.used == [{}]
    ensures Outstanding(f) == {}
  {
  }
}

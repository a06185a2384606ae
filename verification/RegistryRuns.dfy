/** Whole runs of registering and freeing, and that the registry carries them out. */
module RegistryRuns {
  import opened Blocks
  import opened Chains
  import opened PtrHashtable
  import opened Buffers
  import opened Registry

  /** Besides registering and freeing, the program writes a byte somewhere, or asks for a check. */
  datatype Op =
    | Register(m: Memblk, caller: Callstack)
    | Free(ptr: nat, caller: Callstack)
    | Write(at: nat, value: byte)
    | Check

  /** The call stacks that allocated and freed a block. */
  datatype Stacks = Stacks(allocator: Callstack?, freer: Callstack?)

  /**
    What a run has come to: the tracked blocks by user pointer, the quarantine, oldest first, and the
    logs of all blocks registered, freed and handed back, in order. `owners` names the call stack that
    registered each tracked block, `freedBy` the two call stacks of each block freed.
   */
  datatype Run = Run(
    tracked: map<nat, Memblk>,
    quarantine: seq<Memblk>,
    registered: seq<Memblk>,
    freed: seq<Memblk>,
    handedBack: seq<Memblk>,
    owners: map<nat, Callstack>,
    freedBy: seq<Stacks>)

  const START := Run(map[], [], [], [], [], map[], [])

  function Step(r: Run, op: Op): Run
  {
    match op
    case Register(m, caller) =>
      r.(tracked := r.tracked[m.ptr := m], registered := r.registered + [m], owners := r.owners[m.ptr := caller])
    case Free(p, caller) =>
      if p !in r.tracked then r
      else
        var b, q := r.tracked[p], r.quarantine;
        var stacks := Stacks(if p in r.owners then r.owners[p] else null, caller);
        var s := r.(tracked := r.tracked - {p}, freed := r.freed + [b], freedBy := r.freedBy + [stacks]);
        if |q| < 128 then s.(quarantine := q + [b])
        else s.(quarantine := q[1..] + [b], handedBack := r.handedBack + [q[0]])
    case _ => r
  }

  /** The underlying malloc never hands out memory it has not got back; writes go to memory there is. */
  ghost predicate Allowed(r: Run, op: Op, limit: nat)
  {
    && (op.Write? ==> op.at < limit)
    && (op.Register? ==>
          && Fits(op.m, limit)
          && (forall p :: p in r.tracked ==> Apart(op.m, r.tracked[p]))
          && (forall i :: 0 <= i < |r.quarantine| ==> Apart(op.m, r.quarantine[i])))
  }

  /** Writes go to user areas of tracked blocks only. */
  ghost predicate Tame(r: Run, op: Op)
  {
    op.Write? ==> exists p :: p in r.tracked && InUser(r.tracked[p], op.at)
  }

  ghost predicate AllTame(r: Run, ops: seq<Op>)
    decreases |ops|
  {
    ops == [] || (Tame(r, ops[0]) && AllTame(Step(r, ops[0]), ops[1..]))
  }

  ghost predicate AllAllowed(r: Run, ops: seq<Op>, limit: nat)
    decreases |ops|
  {
    ops == [] || (Allowed(r, ops[0], limit) && AllAllowed(Step(r, ops[0]), ops[1..], limit))
  }

  function RunAll(r: Run, ops: seq<Op>): Run
    decreases |ops|
  {
    if ops == [] then r else RunAll(Step(r, ops[0]), ops[1..])
  }

  /**
    In every run: a freed block is either still in quarantine or has been handed back, once, in the
    order of freeing, the last 128 freed being the ones in quarantine; and every registered block is
    tracked or has been freed, never both.
   */
  ghost predicate Good(r: Run)
  {
    Fifo(r) && Accounted(r)
  }

  ghost predicate Fifo(r: Run)
  {
    && r.freed == r.handedBack + r.quarantine && |r.freedBy| == |r.freed|
    && |r.quarantine| == if |r.freed| < 128 then |r.freed| else 128
  }

  ghost predicate Accounted(r: Run)
  {
    && (forall p :: p in r.tracked ==> r.tracked[p].ptr == p && WellFormed(r.tracked[p]))
    && multiset(r.registered) == multiset(r.tracked.Values) + multiset(r.freed)
  }

  lemma ValuesAdd(t: map<nat, Memblk>, m: Memblk)
    requires m.ptr !in t && forall p :: p in t ==> t[p].ptr == p
    ensures multiset(t[m.ptr := m].Values) == multiset(t.Values) + multiset{m}
  {
    var u := t[m.ptr := m];
    assert u[m.ptr] == m;
    assert forall p :: p in t ==> u[p] == t[p];
    assert u.Values == t.Values + {m};
    assert m !in t.Values;
  }

  lemma ValuesRemove(t: map<nat, Memblk>, p: nat)
    requires p in t && forall q :: q in t ==> t[q].ptr == q
    ensures multiset((t - {p}).Values) + multiset{t[p]} == multiset(t.Values)
  {
    var u := t - {p};
    assert u[p := t[p]] == t;
    ValuesAdd(u, t[p]);
  }

  lemma RegisterGood(r: Run, m: Memblk, caller: Callstack, limit: nat)
    requires Good(r) && Allowed(r, Register(m, caller), limit)
    ensures Good(Step(r, Register(m, caller)))
  {
    assert m.ptr in r.tracked ==> Apart(m, r.tracked[m.ptr]);
    ValuesAdd(r.tracked, m);
    assert multiset(r.registered + [m]) == multiset(r.registered) + multiset{m};
  }

  lemma FreeGood(r: Run, p: nat, caller: Callstack)
    requires Good(r) && p in r.tracked
    ensures Good(Step(r, Free(p, caller)))
  {
    FreeFifo(r, p, caller);
    FreeAccounted(r, p, caller);
  }

  lemma FreeFifo(r: Run, p: nat, caller: Callstack)
    requires Fifo(r) && p in r.tracked
    ensures Fifo(Step(r, Free(p, caller)))
  {
    var q := r.quarantine;
    if |q| == 128 {
      assert q == [q[0]] + q[1..];
    }
  }

  lemma FreeAccounted(r: Run, p: nat, caller: Callstack)
    requires Accounted(r) && p in r.tracked
    ensures Accounted(Step(r, Free(p, caller)))
  {
    hide WellFormed;
    ValuesRemove(r.tracked, p);
    assert multiset(r.freed + [r.tracked[p]]) == multiset(r.freed) + multiset{r.tracked[p]};
  }

  lemma StepGood(r: Run, op: Op, limit: nat)
    requires Good(r) && Allowed(r, op, limit)
    ensures Good(Step(r, op))
  {
    hide Good, Allowed;
    match op
    case Register(m, caller) => RegisterGood(r, m, caller, limit);
    case Free(p, caller) =>
      if p in r.tracked {
        FreeGood(r, p, caller);
      }
    case _ =>
  }

  /** Every allowed run from the start is good. */
  lemma {:induction false} RunGood(r: Run, ops: seq<Op>, limit: nat)
    requires Good(r) && AllAllowed(r, ops, limit)
    ensures Good(RunAll(r, ops))
    decreases |ops|
  {
    hide Good, Step, Allowed;
    if ops != [] {
      StepGood(r, ops[0], limit);
      RunGood(Step(r, ops[0]), ops[1..], limit);
    }
  }

  /** The block freed as number `i` has been handed back exactly when 128 more frees have succeeded. */
  lemma HandedBackWhen(ops: seq<Op>, limit: nat, i: nat)
    requires AllAllowed(START, ops, limit) && i < |RunAll(START, ops).freed|
    ensures var r := RunAll(START, ops);
      && |r.freed| == |r.handedBack| + |r.quarantine|
      && (i < |r.handedBack| <==> i + 128 < |r.freed|)
      && (i < |r.handedBack| ==> r.handedBack[i] == r.freed[i])
      && (i >= |r.handedBack| ==> r.quarantine[i - |r.handedBack|] == r.freed[i])
  {
    RunGood(START, ops, limit);
  }

  /** What a step hands back. */
  function Returned(r: Run, op: Op): Option<Memblk>
  {
    if op.Free? && op.ptr in r.tracked && |r.quarantine| >= 128 then Some(r.quarantine[0]) else None
  }

  /** The block a successful free hands back is the one freed 128 successful frees before, if there is one. */
  lemma HandsBackOldest(ops: seq<Op>, p: nat, caller: Callstack, limit: nat)
    requires AllAllowed(START, ops, limit) && p in RunAll(START, ops).tracked
    ensures var r := RunAll(START, ops);
      Returned(r, Free(p, caller)) == if |r.freed| < 128 then None else Some(r.freed[|r.freed| - 128])
  {
    hide Accounted, Step, AllAllowed, RunAll;
    StartGood();
    RunGood(START, ops, limit);
  }

  /**
    The report of a double free names the call stacks that registered and freed the block before. The log
    of these ends with the blocks still in quarantine.
   */
  ghost predicate Reports(r: Run, op: Op, report: Option<Stacks>)
  {
    && (!op.Free? ==> report == None)
    && (op.Free? && op.ptr in r.tracked ==> report == None)
    && (op.Free? && op.ptr !in r.tracked ==>
          && ((forall i :: 0 <= i < |r.quarantine| ==> r.quarantine[i].ptr != op.ptr) ==> report == None)
          && (forall i :: 0 <= i < |r.quarantine| && r.quarantine[i].ptr == op.ptr ==>
                |r.handedBack| + i < |r.freedBy| && report == Some(r.freedBy[|r.handedBack| + i])))
  }

  ghost predicate AllReports(r: Run, ops: seq<Op>, reports: seq<Option<Stacks>>)
    decreases |ops|
  {
    && |reports| == |ops|
    && (ops == [] || (Reports(r, ops[0], reports[0]) && AllReports(Step(r, ops[0]), ops[1..], reports[1..])))
  }

  lemma {:induction false} ReportsAppend(r: Run, ops: seq<Op>, reports: seq<Option<Stacks>>,
                                         op: Op, report: Option<Stacks>)
    requires AllReports(r, ops, reports) && Reports(RunAll(r, ops), op, report)
    ensures AllReports(r, ops + [op], reports + [report]) && RunAll(r, ops + [op]) == Step(RunAll(r, ops), op)
    decreases |ops|
  {
    hide Reports, Step;
    if ops == [] {
      assert ops + [op] == [op] && reports + [report] == [report];
    } else {
      ReportsAppend(Step(r, ops[0]), ops[1..], reports[1..], op, report);
      assert (ops + [op])[1..] == ops[1..] + [op] && (reports + [report])[1..] == reports[1..] + [report];
    }
  }

  lemma StartGood()
    ensures Good(START)
  {
  }

  // ----- The registry carries out runs -----

  /** The records of a set of blocks, by user pointer. */
  ghost function Records(nodes: set<BlockNode>): map<nat, Memblk>
  {
    map p | p in Contents(nodes) :: Contents(nodes)[p].memblk
  }

  ghost function InOrder(q: seq<BlockNode>): (s: seq<Memblk>)
    ensures |s| == |q| && forall i {:trigger s[i]} :: 0 <= i < |q| ==> s[i] == q[i].memblk
  {
    if q == [] then [] else [q[0].memblk] + InOrder(q[1..])
  }

  /** Every record names the call stacks that the run does. */
  ghost predicate StacksMatch(t: set<BlockNode>, q: seq<BlockNode>, r: Run)
  {
    && (forall n :: n in t ==> n.memblk.ptr in r.owners && r.owners[n.memblk.ptr] == n.allocator)
    && FreedBy(q, r.freedBy, |r.handedBack|)
  }

  /** The queue's records name the stacks of the log from position `k` on. */
  ghost predicate FreedBy(q: seq<BlockNode>, log: seq<Stacks>, k: nat)
  {
    && |log| == k + |q|
    && (forall i {:trigger q[i]} :: 0 <= i < |q| ==> log[k + i] == Stacks(q[i].allocator, q[i].freer))
  }

  ghost predicate Represents(g: Registry, r: Run)
    requires g.Valid()
    reads g, g.ring, g.histogram, g.tracked, g.tracked.buckets, g.tracked.nodes`hashNext, g.tracked.nodes`live
    reads g.freed, g.freed.buckets, g.freed.nodes`hashNext, g.freed.nodes`live
  {
    && r.tracked == Records(g.tracked.nodes) && r.quarantine == InOrder(g.quarantine)
    && g.numAllocCnt == |r.registered| && g.numFreeCnt == |r.freed|
    && StacksMatch(g.tracked.nodes, g.quarantine, r)
  }

  lemma RecordsHas(nodes: set<BlockNode>, n: BlockNode)
    requires n in nodes && NoSharedPtr(nodes)
    ensures n.memblk.ptr in Records(nodes) && Records(nodes)[n.memblk.ptr] == n.memblk
  {
    assert Contents(nodes)[n.memblk.ptr] in nodes;
  }

  lemma RecordsMiss(nodes: set<BlockNode>, p: nat)
    requires forall n :: n in nodes ==> n.memblk.ptr != p
    ensures p !in Records(nodes)
  {
    assert forall q :: q in Contents(nodes) ==> Contents(nodes)[q] in nodes && Contents(nodes)[q].memblk.ptr == q;
  }

  lemma RecordsAdd(nodes: set<BlockNode>, n: BlockNode)
    requires n !in nodes && NoSharedPtr(nodes + {n})
    ensures Records(nodes + {n}) == Records(nodes)[n.memblk.ptr := n.memblk]
  {
    assert n in nodes + {n};
    RecordsMiss(nodes, n.memblk.ptr);
    AddIsUpdate(nodes, n);
  }

  lemma RecordsRemove(nodes: set<BlockNode>, n: BlockNode)
    requires n in nodes && NoSharedPtr(nodes)
    ensures Records(nodes - {n}) == Records(nodes) - {n.memblk.ptr}
    ensures n.memblk.ptr in Records(nodes) && Records(nodes)[n.memblk.ptr] == n.memblk
  {
    RemoveIsDelete(nodes, n);
    RecordsHas(nodes, n);
  }

  lemma PushedInOrder(q: seq<BlockNode>, f: BlockNode)
    requires |q| <= 128
    ensures InOrder(Pushed(q, f)) ==
      if |q| < 128 then InOrder(q) + [f.memblk] else InOrder(q)[1..] + [f.memblk]
  {
    hide InOrder;
    if |q| < 128 {
      OneMore(q, f);
    } else {
      OneMore(q[1..], f);
      Later(q);
    }
  }

  lemma OneMore(q: seq<BlockNode>, f: BlockNode)
    ensures InOrder(q + [f]) == InOrder(q) + [f.memblk]
  {
    hide InOrder;
  }

  lemma Later(q: seq<BlockNode>)
    requires q != []
    ensures InOrder(q[1..]) == InOrder(q)[1..]
  {
  }

  /** Every red zone and every freed buffer is as it was laid. */
  ghost predicate Clean(g: Registry)
    reads g, g.mem, g.tracked, g.freed
  {
    AllFit(g.tracked.nodes + g.freed.nodes, g.mem.Length) && AllIntact(g.mem[..], g.tracked.nodes, g.freed.nodes)
  }

  /** What freeing `ptr` checks is undamaged: the block's red zones, and the oldest block of a full quarantine. */
  ghost predicate Undamaged(g: Registry, ptr: nat)
    reads g, g.mem, g.tracked, g.freed
  {
    (exists n :: n in g.tracked.nodes && n.memblk.ptr == ptr) ==>
      && (forall n :: n in g.tracked.nodes && n.memblk.ptr == ptr ==>
            Fits(n.memblk, g.mem.Length) && RedZonesIntact(g.mem[..], n.memblk))
      && (|g.quarantine| == 128 ==>
            Fits(g.quarantine[0].memblk, g.mem.Length) && Poisoned(g.mem[..], g.quarantine[0].memblk))
  }

  /**
    Carry out one step of a run; what a free hands back is what the run says. `clear` says that neither
    a free nor a check has found any damage. There is none as long as writes are tame. `report` is what
    a double free reports of the block: who allocated it, and who freed it before.
   */
  method Perform(g: Registry, op: Op, ghost r: Run)
    returns (handedBack: Option<nat>, clear: bool, report: Option<Stacks>)
    requires g.Valid() && Represents(g, r) && Allowed(r, op, g.mem.Length)
    modifies g, g.mem, g.ring, g.histogram, g.tracked`chains, g.tracked`nodes, g.tracked.buckets, g.tracked.nodes
    modifies g.freed`chains, g.freed`nodes, g.freed.buckets, g.freed.nodes
    ensures g.Valid() && Represents(g, Step(r, op))
    ensures fresh(g.tracked.nodes - old(g.tracked.nodes)) && fresh(g.freed.nodes - old(g.freed.nodes))
    ensures handedBack == if Returned(r, op) == None then None else Some(Returned(r, op).value.buf)
    ensures old(Clean(g)) && Tame(r, op) ==> clear && Clean(g)
    ensures op.Check? ==> (clear <==> old(Clean(g))) && Clean(g)
    ensures op.Free? ==> (clear <==> old(Undamaged(g, op.ptr)))
    ensures Reports(r, op, report)
  {
    hide Registry.Valid, Represents, Allowed, Step, Returned, Clean, Tame, Reports;
    if !op.Free? {
      NothingReturned(r, op);
    }
    handedBack, clear, report := None, true, None;
    match op
    case Register(m, caller) =>
      PerformRegister(g, m, caller, r);
    case Free(p, caller) =>
      handedBack, clear, report := PerformFree(g, p, caller, r);
    case Write(at, value) =>
      PerformWrite(g, at, value, r);
    case Check =>
      var ret := PerformCheck(g, r);
      clear := ret == 0;
  }

  lemma NothingReturned(r: Run, op: Op)
    requires !op.Free?
    ensures Returned(r, op) == None && Reports(r, op, None)
  {
  }

  method PerformRegister(g: Registry, m: Memblk, caller: Callstack, ghost r: Run)
    requires g.Valid() && Represents(g, r) && Allowed(r, Register(m, caller), g.mem.Length)
    modifies g, g.mem, g.histogram, g.tracked`chains, g.tracked`nodes, g.tracked.buckets
    ensures g.Valid() && Represents(g, Step(r, Register(m, caller)))
    ensures fresh(g.tracked.nodes - old(g.tracked.nodes)) && g.freed.nodes == old(g.freed.nodes)
    ensures old(Clean(g)) ==> Clean(g)
  {
    hide Registry.Valid, Records, InOrder, Allowed, AllIntact, AllFit, Fits, InUser, InBuffer, StacksMatch;
    Room(g, m, caller, r);
    ghost var t, f, before := g.tracked.nodes, g.freed.nodes, g.mem[..];
    var n := g.Register(m, caller);
    Unique(g);
    MatchRegister(t, g.quarantine, r, n, caller);
    RecordsAdd(t, n);
    if old(Clean(g)) {
      CleanRegister(before, g.mem[..], t, f, n);
    }
  }

  method PerformFree(g: Registry, p: nat, caller: Callstack, ghost r: Run)
    returns (handedBack: Option<nat>, clear: bool, report: Option<Stacks>)
    requires g.Valid() && Represents(g, r)
    modifies g, g.mem, g.ring, g.histogram, g.tracked`chains, g.tracked`nodes, g.tracked.buckets, g.tracked.nodes
    modifies g.freed`chains, g.freed`nodes, g.freed.buckets, g.freed.nodes
    ensures g.Valid() && Represents(g, Step(r, Free(p, caller)))
    ensures g.tracked.nodes <= old(g.tracked.nodes) && fresh(g.freed.nodes - old(g.freed.nodes))
    ensures handedBack ==
      if Returned(r, Free(p, caller)) == None then None else Some(Returned(r, Free(p, caller)).value.buf)
    ensures old(Clean(g)) ==> clear && Clean(g)
    ensures clear <==> old(Undamaged(g, p))
    ensures Reports(r, Free(p, caller), report)
  {
    hide Registry.Valid, Records, InOrder, Pushed, AllIntact, AllFit, Fits, RedZonesIntact, Poisoned, InBuffer;
    hide StacksMatch, Reports;
    ghost var t, fs, q, before := g.tracked.nodes, g.freed.nodes, g.quarantine, g.mem[..];
    Unique(g);
    var outcome, record, n, f := g.Unregister(p, caller);
    report := None;
    if outcome.Freed? {
      Unique(g);
      RecordsRemove(t, n);
      PushedInOrder(q, f);
      MatchFree(t, q, r, n, f, caller);
      NoReport(r, p, caller);
      handedBack, clear := outcome.handedBack, outcome.redZonesIntact && outcome.poisonIntact;
      if old(Clean(g)) {
        CleanFree(before, g.mem[..], t, fs, n, f, g.freed.nodes);
        if |q| == 128 {
          IntactOne(before, t, fs, q[0]);
        }
      }
    } else {
      RecordsMiss(t, p);
      handedBack, clear := None, true;
      if record != null {
        report := Some(Stacks(record.allocator, record.freer));
      }
      RightReport(t, q, r, p, caller, record);
    }
  }

  lemma MatchRegister(t: set<BlockNode>, q: seq<BlockNode>, r: Run, n: BlockNode, caller: Callstack)
    requires StacksMatch(t, q, r) && n.allocator == caller && NoSharedPtr(t + {n}) && n !in t
    ensures StacksMatch(t + {n}, q, Step(r, Register(n.memblk, caller)))
  {
  }

  lemma MatchFree(t: set<BlockNode>, q: seq<BlockNode>, r: Run, n: BlockNode, f: BlockNode, caller: Callstack)
    requires StacksMatch(t, q, r) && n in t && f.allocator == n.allocator && f.freer == caller && |q| <= 128
    requires n.memblk.ptr in r.tracked && |r.quarantine| == |q|
    ensures StacksMatch(t - {n}, Pushed(q, f), Step(r, Free(n.memblk.ptr, caller)))
  {
    hide FreedBy, Pushed;
    LogFree(q, f, r.freedBy, |r.handedBack|);
  }

  lemma LogFree(q: seq<BlockNode>, f: BlockNode, log: seq<Stacks>, k: nat)
    requires FreedBy(q, log, k) && |q| <= 128
    ensures FreedBy(Pushed(q, f), log + [Stacks(f.allocator, f.freer)], if |q| < 128 then k else k + 1)
  {
    if |q| == 128 {
      forall i | 0 <= i < |q| - 1
        ensures log[k + 1 + i] == Stacks(q[1..][i].allocator, q[1..][i].freer)
      {
        assert q[1..][i] == q[i + 1];
      }
    }
  }

  lemma NoReport(r: Run, p: nat, caller: Callstack)
    requires p in r.tracked
    ensures Reports(r, Free(p, caller), None)
  {
  }

  lemma RightReport(t: set<BlockNode>, q: seq<BlockNode>, r: Run, p: nat, caller: Callstack, record: BlockNode?)
    requires StacksMatch(t, q, r) && p !in r.tracked && r.quarantine == InOrder(q)
    requires record != null <==> exists n :: n in q && n.memblk.ptr == p
    requires forall n :: n in q && n.memblk.ptr == p ==> n == record
    ensures Reports(r, Free(p, caller), if record == null then None else Some(Stacks(record.allocator, record.freer)))
  {
    hide InOrder;
    if record != null {
      var n :| n in q && n.memblk.ptr == p;
      var i :| 0 <= i < |q| && q[i] == n;
      assert r.quarantine[i].ptr == p;
    }
    forall i | 0 <= i < |r.quarantine| && r.quarantine[i].ptr == p
      ensures q[i] == record
    {
      assert q[i] in q;
    }
  }

  /** A byte written somewhere: by the program, so that the registry itself does not change. */
  method PerformWrite(g: Registry, at: nat, value: byte, ghost r: Run)
    requires g.Valid() && Represents(g, r) && Allowed(r, Write(at, value), g.mem.Length)
    modifies g.mem
    ensures g.Valid() && Represents(g, Step(r, Write(at, value)))
    ensures old(Clean(g)) && Tame(r, Write(at, value)) ==> Clean(g)
  {
    hide Registry.Valid, Records, InOrder, AllIntact, AllFit, InUser, Tame;
    ghost var before := g.mem[..];
    g.mem[at] := value;
    if old(Clean(g)) && Tame(r, Write(at, value)) {
      var n := Written(g, r, at, value);
      Unique(g);
      CleanWrite(before, at, value, g.tracked.nodes, g.freed.nodes, n);
      assert g.mem[..] == before[at := value];
    }
  }

  method PerformCheck(g: Registry, ghost r: Run) returns (ret: int)
    requires g.Valid() && Represents(g, r)
    modifies g.mem
    ensures g.Valid() && Represents(g, Step(r, Check)) && Clean(g)
    ensures ret == 0 <==> old(Clean(g))
  {
    hide Registry.Valid, Records, InOrder, AllIntact, AllFit;
    ret := g.CheckAllMemblk();
  }

  lemma CleanRegister(before: seq<byte>, after: seq<byte>, t: set<BlockNode>, f: set<BlockNode>, n: BlockNode)
    requires |before| == |after| && Held(t + {n} + f, |before|) && n !in t && n !in f
    requires AllFit(t + f, |before|) && AllIntact(before, t, f)
    requires LaidOut(before, after, n.memblk)
    ensures AllFit(t + {n} + f, |after|) && AllIntact(after, t + {n}, f)
  {
    FitsAll(t + {n} + f, |after|);
    hide AllFit, AllIntact, RedZonesIntact, Poisoned, Held, LaidOut;
    LaidIntact(before, after, t + {n} + f, n);
    forall m | m in t
      ensures Fits(m.memblk, |before|) && RedZonesIntact(after, m.memblk)
    {
      IntactOne(before, t, f, m);
      Elsewhere(before, after, t + {n} + f, n, m);
    }
    forall m | m in f
      ensures Fits(m.memblk, |before|) && Poisoned(after, m.memblk)
    {
      IntactOne(before, t, f, m);
      Elsewhere(before, after, t + {n} + f, n, m);
    }
    AllIntactFrom(after, t + {n}, f);
  }

  lemma FitsAll(nodes: set<BlockNode>, limit: nat)
    requires Held(nodes, limit)
    ensures AllFit(nodes, limit)
  {
  }

  lemma AllIntactFrom(mem: seq<byte>, t: set<BlockNode>, f: set<BlockNode>)
    requires AllFit(t + f, |mem|)
    requires forall m :: m in t ==> RedZonesIntact(mem, m.memblk)
    requires forall m :: m in f ==> Poisoned(mem, m.memblk)
    ensures AllIntact(mem, t, f)
  {
  }

  lemma IntactOne(mem: seq<byte>, t: set<BlockNode>, f: set<BlockNode>, m: BlockNode)
    requires AllFit(t + f, |mem|) && AllIntact(mem, t, f) && m in t + f
    ensures Fits(m.memblk, |mem|)
    ensures m in t ==> RedZonesIntact(mem, m.memblk)
    ensures m in f ==> Poisoned(mem, m.memblk)
  {
  }

  lemma LaidIntact(before: seq<byte>, after: seq<byte>, all: set<BlockNode>, n: BlockNode)
    requires LaidOut(before, after, n.memblk) && Held(all, |after|) && n in all
    ensures Fits(n.memblk, |after|) && RedZonesIntact(after, n.memblk)
  {
  }

  /** What changes one buffer only leaves every other one's red zones and poison as they are. */
  lemma Elsewhere(before: seq<byte>, after: seq<byte>, all: set<BlockNode>, n: BlockNode, m: BlockNode)
    requires |before| == |after| && Held(all, |before|) && n in all && m in all && n != m
    requires OnlyIn(before, after, n.memblk)
    ensures Fits(m.memblk, |before|)
    ensures RedZonesIntact(before, m.memblk) ==> RedZonesIntact(after, m.memblk)
    ensures Poisoned(before, m.memblk) ==> Poisoned(after, m.memblk)
  {
    forall a | 0 <= a < |after| && InBuffer(m.memblk, a)
      ensures after[a] == before[a]
    {
      assert !InBuffer(n.memblk, a);
    }
  }

  /** No byte outside a block's buffer has changed. */
  ghost predicate OnlyIn(before: seq<byte>, after: seq<byte>, m: Memblk)
  {
    |before| == |after| && forall a {:trigger after[a]} :: 0 <= a < |after| && !InBuffer(m, a) ==> after[a] == before[a]
  }

  lemma CleanFree(before: seq<byte>, after: seq<byte>, t: set<BlockNode>, fs: set<BlockNode>, n: BlockNode,
                  f: BlockNode, fs': set<BlockNode>)
    requires |before| == |after| && Held(t + fs, |before|) && n in t && t !! fs && f.memblk == n.memblk
    requires fs' <= fs + {f} && AllFit(t + fs, |before|) && AllIntact(before, t, fs)
    requires forall a {:trigger after[a]} :: 0 <= a < |after| ==>
      after[a] == if InBuffer(n.memblk, a) then FREEDBUF_PATTERN else before[a]
    ensures Fits(n.memblk, |before|) && RedZonesIntact(before, n.memblk)
    ensures AllFit(t - {n} + fs', |after|) && AllIntact(after, t - {n}, fs')
  {
    assert OnlyIn(before, after, n.memblk);
    assert Fits(n.memblk, |after|) && Poisoned(after, n.memblk);
    hide AllIntact, RedZonesIntact, Poisoned, Held, OnlyIn;
    IntactOne(before, t, fs, n);
    forall m | m in t - {n}
      ensures Fits(m.memblk, |before|) && RedZonesIntact(after, m.memblk)
    {
      IntactOne(before, t, fs, m);
      Elsewhere(before, after, t + fs, n, m);
    }
    forall m | m in fs'
      ensures Fits(m.memblk, |before|) && Poisoned(after, m.memblk)
    {
      if m != f {
        IntactOne(before, t, fs, m);
        Elsewhere(before, after, t + fs, n, m);
      }
    }
    AllIntactFrom(after, t - {n}, fs');
  }

  /** A write to a tracked block's user area damages nothing. */
  lemma CleanWrite(before: seq<byte>, at: nat, value: byte, t: set<BlockNode>, f: set<BlockNode>, n: BlockNode)
    requires Held(t + f, |before|) && t !! f && AllFit(t + f, |before|) && AllIntact(before, t, f)
    requires n in t && InUser(n.memblk, at) && at < |before|
    ensures AllIntact(before[at := value], t, f)
  {
    var after := before[at := value];
    assert Fits(n.memblk, |before|);
    hide AllIntact, RedZonesIntact, Poisoned, Held;
    forall m | m in t + f
      ensures Fits(m.memblk, |after|) && (m in t ==> RedZonesIntact(after, m.memblk))
      ensures m in f ==> Poisoned(after, m.memblk)
    {
      IntactOne(before, t, f, m);
      if m == n {
        UserWritesAreSafe(before, after, n.memblk);
      } else {
        Elsewhere(before, after, t + f, n, m);
      }
    }
    AllIntactFrom(after, t, f);
  }

  /** The tracked block to whose user area a tame write goes. */
  lemma Written(g: Registry, r: Run, at: nat, value: byte) returns (n: BlockNode)
    requires g.Valid() && Represents(g, r) && Tame(r, Write(at, value))
    ensures n in g.tracked.nodes && InUser(n.memblk, at)
  {
    var p :| p in r.tracked && InUser(r.tracked[p], at);
    n := Contents(g.tracked.nodes)[p];
  }

  lemma Unique(g: Registry)
    requires g.Valid()
    ensures NoSharedPtr(g.tracked.nodes) && g.freed.nodes == Elements(g.quarantine)
    ensures |g.quarantine| <= 128
    ensures Held(g.tracked.nodes + g.freed.nodes, g.mem.Length) && g.tracked.nodes !! g.freed.nodes
  {
  }

  lemma Room(g: Registry, m: Memblk, caller: Callstack, r: Run)
    requires g.Valid() && Represents(g, r) && Allowed(r, Register(m, caller), g.mem.Length)
    ensures Fits(m, g.mem.Length) && forall h :: h in g.tracked.nodes + g.freed.nodes ==> Apart(m, h.memblk)
  {
    hide Records, Apart;
    forall h | h in g.tracked.nodes
      ensures Apart(m, h.memblk)
    {
      RecordsHas(g.tracked.nodes, h);
    }
    forall h | h in g.freed.nodes
      ensures Apart(m, h.memblk)
    {
      assert h in Elements(g.quarantine);
      var i :| 0 <= i < |g.quarantine| && g.quarantine[i] == h;
      assert r.quarantine[i] == h.memblk;
    }
  }

  // ----- Whole runs -----

  /** A registry just created represents the start of every run. */
  lemma StartRepresented(g: Registry)
    requires g.Valid() && g.tracked.nodes == {} && g.quarantine == [] && g.numAllocCnt == 0 && g.numFreeCnt == 0
    ensures Represents(g, START)
  {
    assert Contents({}) == map[];
  }

  lemma StartClean(g: Registry)
    requires g.tracked.nodes == {} && g.freed.nodes == {}
    ensures Clean(g)
  {
  }

  /** A whole run of a registry of its own. */
  method WholeRun(mem: array<byte>, trackedSize: nat, freedSize: nat, ops: seq<Op>)
    returns (g: Registry, handedBack: seq<nat>, clear: bool, reports: seq<Option<Stacks>>)
    requires trackedSize > 0 && freedSize > 0 && AllAllowed(START, ops, mem.Length)
    modifies mem
    ensures g.Valid() && g.mem == mem && Represents(g, RunAll(START, ops)) && Good(RunAll(START, ops))
    ensures handedBack == BuffersOf(RunAll(START, ops).handedBack)
    ensures AllTame(START, ops) ==> clear && Clean(g)
    ensures AllReports(START, ops, reports)
  {
    hide Registry.Valid, Represents, RunAll, Clean, BuffersOf, AllReports;
    g := new Registry(mem, trackedSize, freedSize);
    StartRepresented(g);
    StartClean(g);
    handedBack, clear, reports := PerformAll(g, ops, START);
    StartGood();
    RunGood(START, ops, mem.Length);
    assert RunAll(START, ops).handedBack[0..] == RunAll(START, ops).handedBack;
  }

  ghost function BuffersOf(s: seq<Memblk>): (t: seq<nat>)
    ensures |t| == |s| && forall i {:trigger t[i]} :: 0 <= i < |s| ==> t[i] == s[i].buf
  {
    if s == [] then [] else [s[0].buf] + BuffersOf(s[1..])
  }

  lemma StepHandsBack(r: Run, op: Op)
    ensures Step(r, op).handedBack == r.handedBack + if Returned(r, op) == None then [] else [Returned(r, op).value]
  {
  }

  /**
    Carry out a whole run; the buffers handed back, in order, are those the run logs. If all writes are
    tame, no free and no check finds any damage. Every double free is reported with the call stacks of
    the registering and the free it repeats.
   */
  method PerformAll(g: Registry, ops: seq<Op>, ghost r: Run)
    returns (handedBack: seq<nat>, clear: bool, reports: seq<Option<Stacks>>)
    requires g.Valid() && Represents(g, r) && AllAllowed(r, ops, g.mem.Length)
    modifies g, g.mem, g.ring, g.histogram, g.tracked`chains, g.tracked`nodes, g.tracked.buckets, g.tracked.nodes
    modifies g.freed`chains, g.freed`nodes, g.freed.buckets, g.freed.nodes
    ensures g.Valid() && Represents(g, RunAll(r, ops))
    ensures |r.handedBack| <= |RunAll(r, ops).handedBack|
    ensures handedBack == BuffersOf(RunAll(r, ops).handedBack[|r.handedBack|..])
    ensures fresh(g.tracked.nodes - old(g.tracked.nodes)) && fresh(g.freed.nodes - old(g.freed.nodes))
    ensures old(Clean(g)) && AllTame(r, ops) ==> clear && Clean(g)
    ensures AllReports(r, ops, reports)
  {
    hide Registry.Valid, Represents, Allowed, Step, Returned, BuffersOf, Clean, Tame, Reports;
    handedBack, clear, reports := [], true, [];
    ghost var tame := Clean(g) && AllTame(r, ops);
    ghost var now := r;
    for i := 0 to |ops|
      invariant g.Valid() && Represents(g, now) && AllAllowed(now, ops[i..], g.mem.Length)
      invariant fresh(g.tracked.nodes - old(g.tracked.nodes)) && fresh(g.freed.nodes - old(g.freed.nodes))
      invariant RunAll(now, ops[i..]) == RunAll(r, ops) && |r.handedBack| <= |now.handedBack|
      invariant handedBack == BuffersOf(now.handedBack[|r.handedBack|..])
      invariant tame ==> clear && Clean(g) && AllTame(now, ops[i..])
      invariant AllReports(r, ops[..i], reports) && now == RunAll(r, ops[..i])
    {
      assert ops[i..][0] == ops[i] && ops[i..][1..] == ops[i + 1..];
      var given, undamaged, report := Perform(g, ops[i], now);
      ReportsAppend(r, ops[..i], reports, ops[i], report);
      assert ops[..i + 1] == ops[..i] + [ops[i]];
      reports := reports + [report];
      clear := clear && undamaged;
      StepHandsBack(now, ops[i]);
      ghost var next := Step(now, ops[i]);
      if given.Some? {
        BuffersAppend(now.handedBack, |r.handedBack|, Returned(now, ops[i]).value);
        handedBack := handedBack + [given.value];
      }
      now := next;
    }
    assert ops[|ops|..] == [] && ops[..|ops|] == ops;
  }

  lemma BuffersAppend(s: seq<Memblk>, k: nat, m: Memblk)
    requires k <= |s|
    ensures BuffersOf((s + [m])[k..]) == BuffersOf(s[k..]) + [m.buf]
  {
  }
}

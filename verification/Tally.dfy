/** Counting blocks per kind (allocator, user size) and adding up their sizes. */
module Tally {
  import opened Blocks
  import opened Chains

  ghost predicate SameKind(a: BlockNode, b: BlockNode)
  {
    a.allocator == b.allocator && a.memblk.usrsize == b.memblk.usrsize
  }

  ghost function OfKind(s: set<BlockNode>, cs: Callstack, usrsize: nat): set<BlockNode>
  {
    set n | n in s && n.allocator == cs && n.memblk.usrsize == usrsize
  }

  /** How many blocks of `s` have this allocator and user size. */
  ghost function Count(s: set<BlockNode>, cs: Callstack, usrsize: nat): nat
  {
    |OfKind(s, cs, usrsize)|
  }

  ghost function Bytes(s: set<BlockNode>): nat
  {
    if s == {} then 0 else
      var n :| n in s;
      n.memblk.usrsize + Bytes(s - {n})
  }

  ghost function Of(s: set<BlockNode>, cs: Callstack): set<BlockNode>
  {
    set n | n in s && n.allocator == cs
  }

  /** User bytes of the blocks of `s` that `cs` allocated. */
  ghost function BytesOf(s: set<BlockNode>, cs: Callstack): nat
  {
    Bytes(Of(s, cs))
  }

  ghost function BytesInOrder(s: seq<BlockNode>): nat
  {
    if s == [] then 0 else s[0].memblk.usrsize + BytesInOrder(s[1..])
  }

  lemma {:induction false} BytesWithout(s: set<BlockNode>, n: BlockNode)
    requires n in s
    ensures Bytes(s) == n.memblk.usrsize + Bytes(s - {n})
  {
    var m :| m in s && Bytes(s) == m.memblk.usrsize + Bytes(s - {m});
    if m != n {
      BytesWithout(s - {m}, n);
      BytesWithout(s - {n}, m);
      assert s - {m} - {n} == s - {n} - {m};
    }
  }

  lemma OneLess(s: set<BlockNode>, n: BlockNode, cs: Callstack, usrsize: nat)
    requires n in s
    ensures Count(s - {n}, cs, usrsize) ==
      Count(s, cs, usrsize) - if n.allocator == cs && n.memblk.usrsize == usrsize then 1 else 0
    ensures BytesOf(s - {n}, cs) == BytesOf(s, cs) - if n.allocator == cs then n.memblk.usrsize else 0
  {
    if n.allocator == cs && n.memblk.usrsize == usrsize {
      assert OfKind(s - {n}, cs, usrsize) == OfKind(s, cs, usrsize) - {n};
    } else {
      assert OfKind(s - {n}, cs, usrsize) == OfKind(s, cs, usrsize);
    }
    if n.allocator == cs {
      assert Of(s - {n}, cs) == Of(s, cs) - {n};
      BytesWithout(Of(s, cs), n);
    } else {
      assert Of(s - {n}, cs) == Of(s, cs);
    }
  }

  lemma {:induction false} BytesOfList(s: seq<BlockNode>)
    requires Distinct(s)
    ensures BytesInOrder(s) == Bytes(set n | n in s)
  {
    var all := set n | n in s;
    if s != [] {
      BytesOfList(s[1..]);
      BytesWithout(all, s[0]);
      assert all - {s[0]} == set n | n in s[1..] by {
        assert s == [s[0]] + s[1..];
      }
    }
  }

  /** Per kind and per call stack, `a` exceeds `b` by as much as `a0` exceeded `b0`. */
  ghost predicate Balanced(stacks: set<Callstack>, a0: set<BlockNode>, b0: set<BlockNode>,
                           a: set<BlockNode>, b: set<BlockNode>)
  {
    && (forall cs, z {:trigger Count(a, cs, z)} {:trigger Count(b, cs, z)} :: cs in stacks ==>
          Count(a, cs, z) + Count(b0, cs, z) == Count(a0, cs, z) + Count(b, cs, z))
    && (forall cs {:trigger BytesOf(a, cs)} {:trigger BytesOf(b, cs)} :: cs in stacks ==>
          BytesOf(a, cs) + BytesOf(b0, cs) == BytesOf(a0, cs) + BytesOf(b, cs))
  }

  /** Cancelling two blocks of one kind against each other keeps the balance. */
  lemma CancelPair(stacks: set<Callstack>, a0: set<BlockNode>, b0: set<BlockNode>, a: set<BlockNode>, b: set<BlockNode>,
                   n: BlockNode, m: BlockNode)
    requires Balanced(stacks, a0, b0, a, b) && n in a && m in b && SameKind(n, m)
    ensures Balanced(stacks, a0, b0, a - {n}, b - {m})
  {
    forall cs, z | cs in stacks
      ensures Count(a - {n}, cs, z) + Count(b0, cs, z) == Count(a0, cs, z) + Count(b - {m}, cs, z)
    {
      OneLess(a, n, cs, z);
      OneLess(b, m, cs, z);
    }
    forall cs | cs in stacks
      ensures BytesOf(a - {n}, cs) + BytesOf(b0, cs) == BytesOf(a0, cs) + BytesOf(b - {m}, cs)
    {
      OneLess(a, n, cs, 0);
      OneLess(b, m, cs, 0);
    }
  }

  function Excess(x: nat, y: nat): nat
  {
    if x > y then x - y else 0
  }

  /** Once no kind is left on both sides, what is left is the two-sided multiset difference. */
  lemma WhatIsLeft(stacks: set<Callstack>, a0: set<BlockNode>, b0: set<BlockNode>, a: set<BlockNode>, b: set<BlockNode>,
                   cs: Callstack, z: nat)
    requires cs in stacks && Balanced(stacks, a0, b0, a, b)
    requires forall n, m :: n in a && m in b ==> !SameKind(n, m)
    ensures Count(a, cs, z) == Excess(Count(a0, cs, z), Count(b0, cs, z))
    ensures Count(b, cs, z) == Excess(Count(b0, cs, z), Count(a0, cs, z))
  {
  }

  /** The net size of a call stack: its bytes in `a` less its bytes in `b`. */
  ghost function Net(a: set<BlockNode>, b: set<BlockNode>, cs: Callstack): int
  {
    BytesOf(a, cs) - BytesOf(b, cs)
  }

  ghost function NetSum(stacks: set<Callstack>, a: set<BlockNode>, b: set<BlockNode>): int
  {
    if stacks == {} then 0 else
      var cs :| cs in stacks;
      Net(a, b, cs) + NetSum(stacks - {cs}, a, b)
  }

  lemma {:induction false} NetWithout(stacks: set<Callstack>, a: set<BlockNode>, b: set<BlockNode>, cs: Callstack)
    requires cs in stacks
    ensures NetSum(stacks, a, b) == Net(a, b, cs) + NetSum(stacks - {cs}, a, b)
  {
    var c :| c in stacks && NetSum(stacks, a, b) == Net(a, b, c) + NetSum(stacks - {c}, a, b);
    if c != cs {
      NetWithout(stacks - {c}, a, b, cs);
      NetWithout(stacks - {cs}, a, b, c);
      assert stacks - {c} - {cs} == stacks - {cs} - {c};
    }
  }

  lemma {:induction false} NetSame(stacks: set<Callstack>, a: set<BlockNode>, b: set<BlockNode>,
                                   a': set<BlockNode>, b': set<BlockNode>)
    requires forall cs :: cs in stacks ==> Net(a, b, cs) == Net(a', b', cs)
    ensures NetSum(stacks, a, b) == NetSum(stacks, a', b')
  {
    if stacks != {} {
      var cs :| cs in stacks;
      NetWithout(stacks, a, b, cs);
      NetWithout(stacks, a', b', cs);
      NetSame(stacks - {cs}, a, b, a', b');
    }
  }

  /** Call stacks with net zero do not count. */
  lemma {:induction false} NetOnly(stacks: set<Callstack>, some: set<Callstack>, a: set<BlockNode>, b: set<BlockNode>)
    requires some <= stacks && forall cs :: cs in stacks - some ==> Net(a, b, cs) == 0
    ensures NetSum(stacks, a, b) == NetSum(some, a, b)
    decreases stacks
  {
    if stacks != some {
      assert stacks - some != {} by {
        assert stacks == some + (stacks - some);
      }
      var cs :| cs in stacks - some;
      NetWithout(stacks, a, b, cs);
      NetOnly(stacks - {cs}, some, a, b);
    }
  }

  lemma {:induction false} BytesSplit(s: set<BlockNode>, part: set<BlockNode>)
    requires part <= s
    ensures Bytes(s) == Bytes(part) + Bytes(s - part)
  {
    if part == {} {
      assert s - part == s;
    } else {
      var n :| n in part;
      BytesWithout(s, n);
      BytesWithout(part, n);
      BytesSplit(s - {n}, part - {n});
      assert s - {n} - (part - {n}) == s - part;
    }
  }

  lemma SomeStack(stacks: set<Callstack>, s: set<BlockNode>)
    requires forall n :: n in s ==> n.allocator in stacks
    ensures s != {} ==> stacks != {}
  {
    if s != {} {
      var n :| n in s;
      assert n.allocator in stacks;
    }
  }

  /** Over all the call stacks involved, the net sizes add up to the overall change in bytes. */
  lemma {:induction false} NetAll(stacks: set<Callstack>, a: set<BlockNode>, b: set<BlockNode>)
    requires forall n :: n in a + b ==> n.allocator in stacks
    ensures NetSum(stacks, a, b) == Bytes(a) - Bytes(b)
    decreases stacks
  {
    if stacks == {} {
      SomeStack(stacks, a);
      SomeStack(stacks, b);
    } else {
      var cs :| cs in stacks;
      var a', b' := a - Of(a, cs), b - Of(b, cs);
      forall c | c in stacks - {cs}
        ensures Net(a, b, c) == Net(a', b', c)
      {
        assert Of(a', c) == Of(a, c) && Of(b', c) == Of(b, c);
      }
      NetWithout(stacks, a, b, cs);
      NetSame(stacks - {cs}, a, b, a', b');
      NetAll(stacks - {cs}, a', b');
      BytesSplit(a, Of(a, cs));
      BytesSplit(b, Of(b, cs));
    }
  }
}

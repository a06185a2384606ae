/** Positions in the bucket chains of a hash table, and how far a walk over them has got. */
module Chains {

  /** No element occurs twice. */
  ghost predicate Distinct<T>(s: seq<T>)
  {
    forall i, j :: 0 <= i < j < |s| ==> s[i] != s[j]
  }

  /** Put one element more in at position `i`. */
  ghost function PutAt<T>(s: seq<T>, i: nat, x: T): (t: seq<T>)
    requires i <= |s|
    ensures |t| == |s| + 1
    ensures forall k {:trigger t[k]} :: 0 <= k < |t| ==> t[k] == if k < i then s[k] else if k == i then x else s[k - 1]
  {
    s[..i] + [x] + s[i..]
  }

  /** Drop the elements at positions `i + 1` up to but not including `j`. */
  ghost function DropRun<T>(s: seq<T>, i: nat, j: nat): (t: seq<T>)
    requires i < j <= |s|
    ensures |t| == |s| - (j - i - 1)
    ensures forall k {:trigger t[k]} :: 0 <= k < |t| ==> t[k] == if k <= i then s[k] else s[k - i - 1 + j]
  {
    s[..i + 1] + s[j..]
  }

  ghost function Elements<T>(s: seq<T>): set<T>
  {
    set x | x in s
  }

  /** No element occurs at two positions, and `nodes` are the elements that occur. */
  ghost predicate Holds<T>(chains: seq<seq<T>>, nodes: set<T>)
  {
    && (forall b, i, c, j {:trigger chains[b][i], chains[c][j]} ::
          0 <= b < |chains| && 0 <= i < |chains[b]| && 0 <= c < |chains| && 0 <= j < |chains[c]| ==>
          chains[b][i] == chains[c][j] ==> b == c && i == j)
    && nodes == Rows(chains, |chains|)
  }

  /** The elements of the first `b` chains. */
  ghost function Rows<T>(chains: seq<seq<T>>, b: nat): set<T>
    requires b <= |chains|
  {
    if b == 0 then {} else Rows(chains, b - 1) + Elements(chains[b - 1])
  }

  /** What a bucket-by-bucket walk has passed once it stands at position `k` of chain `b`. */
  ghost function Passed<T>(chains: seq<seq<T>>, b: nat, k: nat): set<T>
    requires b <= |chains| && (b < |chains| ==> k <= |chains[b]|) && (b == |chains| ==> k == 0)
  {
    if b == |chains| then Rows(chains, b) else Rows(chains, b) + Elements(chains[b][..k])
  }

  /** What a walk that stands at position `k` of chain `b` has still to meet, in order. */
  ghost function Coming<T>(chains: seq<seq<T>>, b: nat, k: nat): seq<T>
    decreases |chains| - b
  {
    if b >= |chains| || k > |chains[b]| then [] else chains[b][k..] + Coming(chains, b + 1, 0)
  }

  lemma ComingStep<T>(chains: seq<seq<T>>, b: nat, k: nat)
    requires b < |chains| && k < |chains[b]|
    ensures Coming(chains, b, k) == [chains[b][k]] + Coming(chains, b, k + 1)
  {
    assert chains[b][k..] == [chains[b][k]] + chains[b][k + 1..];
  }

  lemma ComingRow<T>(chains: seq<seq<T>>, b: nat)
    requires b < |chains|
    ensures Coming(chains, b, |chains[b]|) == Coming(chains, b + 1, 0)
  {
    assert chains[b][|chains[b]|..] == [];
  }

  lemma ComingEnd<T>(chains: seq<seq<T>>)
    ensures Coming(chains, |chains|, 0) == []
  {
  }

  lemma {:induction false} ComingSame<T>(s: seq<seq<T>>, t: seq<seq<T>>, b: nat)
    requires |s| == |t| && forall i :: b <= i < |s| ==> s[i] == t[i]
    ensures Coming(s, b, 0) == Coming(t, b, 0)
    decreases |s| - b
  {
    if b < |s| {
      ComingSame(s, t, b + 1);
    }
  }

  lemma {:induction false} InRows<T>(chains: seq<seq<T>>, b: nat, x: T)
    requires b <= |chains|
    ensures x in Rows(chains, b) <==> exists c :: 0 <= c < b && x in chains[c]
  {
    if b > 0 {
      InRows(chains, b - 1, x);
    }
  }

  lemma {:induction false} RowsOfPrefix<T>(s: seq<seq<T>>, t: seq<seq<T>>, b: nat)
    requires b <= |s| && b <= |t| && s[..b] == t[..b]
    ensures Rows(s, b) == Rows(t, b)
  {
    if b > 0 {
      assert s[..b][..b - 1] == s[..b - 1] && t[..b][..b - 1] == t[..b - 1];
      assert s[..b][b - 1] == t[..b][b - 1];
      RowsOfPrefix(s, t, b - 1);
    }
  }

  /** One step along a chain passes exactly the element stepped over, for the first time. */
  lemma PassOne<T>(chains: seq<seq<T>>, nodes: set<T>, b: nat, k: nat)
    requires Holds(chains, nodes) && b < |chains| && k < |chains[b]|
    ensures Passed(chains, b, k + 1) == Passed(chains, b, k) + {chains[b][k]}
    ensures chains[b][k] !in Passed(chains, b, k)
    ensures chains[b][k] in nodes
  {
    var x := chains[b][k];
    assert chains[b][..k + 1] == chains[b][..k] + [x];
    InRows(chains, b, x);
    InRows(chains, |chains|, x);
    assert forall j :: 0 <= j < k ==> chains[b][..k][j] == chains[b][j] != x;
  }

  /** Leaving a chain at its end for the start of the next one passes nothing. */
  lemma PassRow<T>(chains: seq<seq<T>>, b: nat)
    requires b < |chains|
    ensures Passed(chains, b, |chains[b]|) == Passed(chains, b + 1, 0)
  {
    assert chains[b][..|chains[b]|] == chains[b];
  }

  lemma PassedWithin<T>(chains: seq<seq<T>>, nodes: set<T>, b: nat, k: nat)
    requires Holds(chains, nodes)
    requires b <= |chains| && (b < |chains| ==> k <= |chains[b]|) && (b == |chains| ==> k == 0)
    ensures Passed(chains, b, k) <= nodes
  {
    forall x | x in Passed(chains, b, k)
      ensures x in nodes
    {
      InRows(chains, b, x);
      InRows(chains, |chains|, x);
    }
  }

  /** Changing a chain from the walk's position onwards changes nothing about what was passed. */
  lemma PassedSame<T>(chains: seq<seq<T>>, b: nat, k: nat, c': seq<T>)
    requires b < |chains| && k <= |chains[b]| && k <= |c'| && c'[..k] == chains[b][..k]
    ensures Passed(chains[b := c'], b, k) == Passed(chains, b, k)
  {
    RowsOfPrefix(chains, chains[b := c'], b);
  }
}

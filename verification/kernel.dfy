/** The PageRank update of one node and the L1 convergence test, over exact
    reals. The rank arrays of the source are `double[]`; here they are
    sequences of reals, so rounding is not part of the model. */
module Kernel {
  import opened GraphCodec

  type Ranks = seq<real>

  function Abs(x: real): (a: real)
    ensures a >= 0.0 && (a == x || a == -x)
  {
    if x < 0.0 then -x else x
  }

  /** What node `j` passes to node `i`: its rank split evenly over its list,
      if its list `contains(i)`, and nothing otherwise. Membership is tested,
      not counted, so a duplicate edge passes the share once; and since `i`
      is in the list, the list is not empty and the division is defined. */
  function Contribution(g: Graph, cur: Ranks, j: nat, i: int): (c: real)
    requires |cur| == |g| && j < |g|
    ensures i !in g[j] ==> c == 0.0
    ensures i in g[j] ==> c * (|g[j]| as real) == cur[j]
    ensures cur[j] >= 0.0 ==> c >= 0.0
  {
    if i in g[j] then cur[j] / (|g[j]| as real) else 0.0
  }

  /** The inner loop's `sum` after the first `m` nodes, added in index order. */
  function InSum(g: Graph, cur: Ranks, i: int, m: nat): (sum: real)
    requires |cur| == |g| && m <= |g|
    ensures (forall j :: 0 <= j < m ==> cur[j] >= 0.0) ==> sum >= 0.0
    ensures (forall j :: 0 <= j < m ==> i !in g[j]) ==> sum == 0.0
  {
    if m == 0 then 0.0 else InSum(g, cur, i, m - 1) + Contribution(g, cur, m - 1, i)
  }

  /** The update rule `(1 - d) / numNodes + d * sum`. */
  function Update(n: nat, d: real, sum: real): (rank: real)
    requires n >= 1
    ensures 0.0 <= d <= 1.0 && sum >= 0.0 ==> rank >= (1.0 - d) / (n as real) >= 0.0
  {
    (1.0 - d) / (n as real) + d * sum
  }

  /** The new rank of node `i`: the update rule applied to its sum. A node that
      no list names gets exactly the teleport share `(1 - d) / numNodes`, and
      with `0 <= d <= 1` and non-negative ranks no node gets less. */
  function NodeRank(g: Graph, cur: Ranks, d: real, i: int): (rank: real)
    requires |cur| == |g| >= 1
    ensures (forall j :: 0 <= j < |g| ==> i !in g[j]) ==> rank == (1.0 - d) / (|g| as real)
    ensures 0.0 <= d <= 1.0 && (forall j :: 0 <= j < |cur| ==> cur[j] >= 0.0) ==>
              rank >= (1.0 - d) / (|g| as real) >= 0.0
  {
    Update(|g|, d, InSum(g, cur, i, |g|))
  }

  /** The rank vector one full round produces from `cur`. */
  function Round(g: Graph, cur: Ranks, d: real): (next: Ranks)
    requires |cur| == |g|
    ensures |next| == |g|
  {
    seq(|g|, i requires 0 <= i < |g| => NodeRank(g, cur, d, i))
  }

  /** `Arrays.fill(ranks, 1.0 / numNodes)`. */
  function InitialRanks(n: nat): (r: Ranks)
    ensures |r| == n
    ensures forall k :: 0 <= k < n ==> r[k] > 0.0 && r[k] * (n as real) == 1.0
  {
    seq(n, k requires 0 <= k < n => 1.0 / (n as real))
  }

  /** The sum of a vector, in index order. */
  function Sum(s: Ranks): (total: real) {
    if s == [] then 0.0 else Sum(s[..|s| - 1]) + s[|s| - 1]
  }

  /** `checkConvergence`'s `sumDifference` after the first `m` indices. */
  function L1(a: Ranks, b: Ranks, m: nat): (dist: real)
    requires m <= |a| == |b|
    ensures dist >= 0.0
  {
    if m == 0 then 0.0 else L1(a, b, m - 1) + Abs(a[m - 1] - b[m - 1])
  }

  /** `checkConvergence`: the L1 distance is below the threshold. No pair
      passes a threshold that is zero or negative, and a vector passes
      against itself exactly when the threshold is positive. */
  predicate Converged(a: Ranks, b: Ranks, threshold: real): (passed: bool)
    requires |a| == |b|
    ensures passed ==> threshold > 0.0
    ensures a == b ==> (passed <==> threshold > 0.0)
  {
    L1Zero(a, b);
    L1(a, b, |a|) < threshold
  }

  // ---------------------------------------------------------------- proofs

  /** The sum for node `i` only reads the ranks of nodes whose lists contain
      `i`: two rank vectors that agree there give the same sum. */
  lemma {:induction false} InSumLocal(g: Graph, cur: Ranks, cur': Ranks, i: int, m: nat)
    requires |cur| == |cur'| == |g| && m <= |g|
    requires forall j :: 0 <= j < m && i in g[j] ==> cur[j] == cur'[j]
    ensures InSum(g, cur, i, m) == InSum(g, cur', i, m)
  {
    if m > 0 {
      InSumLocal(g, cur, cur', i, m - 1);
    }
  }

  /** The new rank of node `i` only reads the ranks of its predecessors. */
  lemma NodeRankLocal(g: Graph, cur: Ranks, cur': Ranks, d: real, i: int)
    requires |cur| == |cur'| == |g| >= 1
    requires forall j :: 0 <= j < |g| && i in g[j] ==> cur[j] == cur'[j]
    ensures NodeRank(g, cur, d, i) == NodeRank(g, cur', d, i)
  {
    InSumLocal(g, cur, cur', i, |g|);
  }

  /** A node with an empty list contributes to no node's sum: changing its
      rank changes nothing in the next round. */
  lemma DanglingIgnored(g: Graph, cur: Ranks, d: real, j: nat, x: real)
    requires |cur| == |g| && j < |g| && g[j] == []
    ensures Round(g, cur[j := x], d) == Round(g, cur, d)
  {
    var before, after := Round(g, cur, d), Round(g, cur[j := x], d);
    forall i | 0 <= i < |g|
      ensures after[i] == before[i]
    {
      NodeRankLocal(g, cur[j := x], cur, d, i);
    }
  }

  /** With `0 <= d <= 1`, a round maps non-negative ranks to ranks of at
      least `(1 - d) / numNodes`. */
  lemma RoundLowerBound(g: Graph, cur: Ranks, d: real)
    requires |cur| == |g| >= 1 && 0.0 <= d <= 1.0
    requires forall j :: 0 <= j < |cur| ==> cur[j] >= 0.0
    ensures forall i :: 0 <= i < |g| ==> Round(g, cur, d)[i] >= (1.0 - d) / (|g| as real) >= 0.0
  {
    forall i | 0 <= i < |g|
      ensures Round(g, cur, d)[i] >= (1.0 - d) / (|g| as real)
    {
      assert Round(g, cur, d)[i] == NodeRank(g, cur, d, i);
    }
  }

  lemma {:induction false} SumConstant(n: nat, c: real)
    ensures Sum(seq(n, _ => c)) == (n as real) * c
  {
    if n > 0 {
      assert seq(n, _ => c)[..n - 1] == seq(n - 1, _ => c);
      SumConstant(n - 1, c);
    }
  }

  /** The initial vector is a probability distribution: its entries sum to 1. */
  lemma InitialRanksSum(n: nat)
    requires n >= 1
    ensures Sum(InitialRanks(n)) == 1.0
  {
    SumConstant(n, 1.0 / (n as real));
    assert InitialRanks(n) == seq(n, _ => 1.0 / (n as real));
  }

  /** The distance over a prefix is zero exactly when the vectors agree on it. */
  lemma {:induction false} L1ZeroPrefix(a: Ranks, b: Ranks, m: nat)
    requires m <= |a| == |b|
    ensures L1(a, b, m) == 0.0 <==> a[..m] == b[..m]
  {
    if m > 0 {
      L1ZeroPrefix(a, b, m - 1);
      assert a[..m] == a[..m - 1] + [a[m - 1]];
      assert b[..m] == b[..m - 1] + [b[m - 1]];
      if a[..m] == b[..m] {
        assert a[..m - 1] == a[..m][..m - 1] == b[..m][..m - 1] == b[..m - 1];
        assert a[m - 1] == a[..m][m - 1] == b[..m][m - 1] == b[m - 1];
      }
    }
  }

  /** The distance is zero exactly when the vectors are equal. */
  lemma L1Zero(a: Ranks, b: Ranks)
    requires |a| == |b|
    ensures L1(a, b, |a|) == 0.0 <==> a == b
  {
    L1ZeroPrefix(a, b, |a|);
    assert a[..|a|] == a && b[..|b|] == b;
  }

  /** The distance does not depend on which vector comes first. */
  lemma {:induction false} L1Symmetric(a: Ranks, b: Ranks, m: nat)
    requires m <= |a| == |b|
    ensures L1(a, b, m) == L1(b, a, m)
  {
    if m > 0 {
      L1Symmetric(a, b, m - 1);
    }
  }

  /** With a positive threshold, a vector has converged against itself, and
      two empty vectors always have. */
  lemma ConvergedSelf(a: Ranks, threshold: real)
    requires threshold > 0.0
    ensures Converged(a, a, threshold)
    ensures Converged([], [], threshold)
  {
    L1Zero(a, a);
  }
}

/** One round of power iteration, done the two ways the repository does it:
    `SequentialPageRank` walks every node in order, `ParallelPageRank` hands
    contiguous index ranges to `PageRankTask`s. A task reads only the current
    ranks and the graph, and writes only its own slots of the new ranks; the
    tasks are modelled as operations on disjoint ranges run one after another,
    in any order. */
module Rounds {
  import opened GraphCodec
  import opened Kernel
  import Partition

  /** The loop over `j` that accumulates what node `i` receives. */
  method IncomingSum(g: Graph, cur: Ranks, i: int) returns (sum: real)
    requires |cur| == |g|
    ensures sum == InSum(g, cur, i, |g|)
  {
    sum := 0.0;
    var j := 0;
    while j < |g|
      invariant 0 <= j <= |g|
      invariant sum == InSum(g, cur, i, j)
    {
      if i in g[j] {
        sum := sum + cur[j] / (|g[j]| as real);
      }
      j := j + 1;
    }
  }

  /** `PageRankTask.run` over `[start, end)`: each slot in the range gets the
      new rank of its node; every other slot of `next` is left as it was. */
  method RunTask(g: Graph, cur: Ranks, d: real, next: Ranks, start: int, end: int) returns (next': Ranks)
    requires |cur| == |g| == |next|
    requires 0 <= start <= end <= |g|
    ensures |next'| == |next|
    ensures forall k :: start <= k < end ==> next'[k] == NodeRank(g, cur, d, k)
    ensures forall k :: 0 <= k < |next| && !(start <= k < end) ==> next'[k] == next[k]
  {
    next' := next;
    var i := start;
    while i < end
      invariant start <= i <= end && |next'| == |next|
      invariant forall k :: start <= k < i ==> next'[k] == NodeRank(g, cur, d, k)
      invariant forall k :: 0 <= k < |next| && !(start <= k < i) ==> next'[k] == next[k]
    {
      var sum := IncomingSum(g, cur, i);
      next' := next'[i := Update(|g|, d, sum)];
      i := i + 1;
    }
  }

  /** The round of `SequentialPageRank.computePageRank`: every index
      `0 .. numNodes - 1` once, in order. Whatever `next` held before is
      overwritten. */
  method SequentialRound(g: Graph, cur: Ranks, d: real, next: Ranks) returns (next': Ranks)
    requires |cur| == |g| == |next|
    ensures next' == Round(g, cur, d)
  {
    next' := RunTask(g, cur, d, next, 0, |g|);
  }

  /** The tasks named by `order`, run one after another on the ranges
      `[starts[i], ends[i])`: every slot of a range that ran holds the new rank
      of its node. */
  method RunTasks(g: Graph, cur: Ranks, d: real, next: Ranks, starts: seq<int>, ends: seq<int>, order: seq<nat>)
    returns (next': Ranks)
    requires |cur| == |g| == |next| && |starts| == |ends|
    requires forall i :: 0 <= i < |starts| ==> 0 <= starts[i] <= ends[i] <= |g|
    requires forall q :: 0 <= q < |order| ==> order[q] < |starts|
    ensures |next'| == |next|
    ensures forall q, k :: 0 <= q < |order| && starts[order[q]] <= k < ends[order[q]] ==>
      next'[k] == NodeRank(g, cur, d, k)
  {
    next' := next;
    var p := 0;
    while p < |order|
      invariant 0 <= p <= |order| && |next'| == |next|
      invariant forall q, k :: 0 <= q < p && starts[order[q]] <= k < ends[order[q]] ==>
        next'[k] == NodeRank(g, cur, d, k)
    {
      var task := order[p];
      next' := RunTask(g, cur, d, next', starts[task], ends[task]);
      p := p + 1;
    }
  }

  /** A schedule of one round: every one of the `t` tasks runs, in any order. */
  predicate Schedule(order: seq<nat>, t: nat) {
    && (forall q :: 0 <= q < |order| ==> order[q] < t)
    && (forall i :: 0 <= i < t ==> i in order)
  }

  /** The round of `ParallelPageRank.computePageRank`: task `i` of `t` covers
      `[i * n / t, (i + 1) * n / t)`, and the tasks run in the order `order`
      names them, which may be any order that runs every task. The result is
      the sequential round's. */
  method ParallelRound(g: Graph, cur: Ranks, d: real, next: Ranks, t: nat, order: seq<nat>)
    returns (next': Ranks)
    requires |cur| == |g| == |next| && t >= 1
    requires Schedule(order, t)
    ensures next' == Round(g, cur, d)
  {
    var n := |g|;
    var starts, ends := Partition.Split(n, t);
    next' := RunTasks(g, cur, d, next, starts, ends, order);
    forall k | 0 <= k < n
      ensures next'[k] == NodeRank(g, cur, d, k)
    {
      var o := Partition.TilesCoverFrom(starts, ends, n, 0, k);
      assert o in order;
      var q :| 0 <= q < |order| && order[q] == o;
      assert starts[order[q]] <= k < ends[order[q]];
    }
  }
}

/** The constructors and `computePageRank` of both programs: read the graph,
    fill both rank arrays with `1 / numNodes`, then repeat rounds until the
    L1 test passes, copying the new ranks over the current ones only while
    it fails. The loop of the source is unbounded; here it takes a bound on
    the number of rounds. */
module Driver {
  import opened Int32
  import opened GraphCodec
  import opened Kernel
  import Rounds

  /** What a constructor leaves behind: the lists and the two rank arrays. */
  datatype Loaded = Loaded(graph: Graph, current: Ranks, next: Ranks)

  /** The constructor: decode the file, then `Arrays.fill` both arrays. */
  function Load(bs: seq<byte>): (r: Result<Loaded>)
    ensures r.Ok? <==> Decode(bs).Ok?
    ensures r.Err? ==> r.error == Decode(bs).error
    ensures r.Ok? ==> var n := |r.value.graph|;
      && r.value.graph == Decode(bs).value
      && |r.value.current| == |r.value.next| == n
      && (forall i :: 0 <= i < n ==> r.value.current[i] == r.value.next[i] == 1.0 / (n as real))
  {
    var g := Decode(bs);
    if g.Err? then Err(g.error)
    else Ok(Loaded(g.value, InitialRanks(|g.value|), InitialRanks(|g.value|)))
  }

  /** Loading a file the generator wrote gives back its lists, with both
      arrays holding the uniform distribution when there is at least one
      node. */
  lemma LoadEncoded(g: Graph)
    requires Encodable(g)
    ensures Load(Encode(g)).Ok?
    ensures Load(Encode(g)).value.graph == g
    ensures |g| >= 1 ==> Sum(Load(Encode(g)).value.current) == 1.0
  {
    DecodeEncode(g, []);
    assert Encode(g) + [] == Encode(g);
    if |g| >= 1 {
      InitialRanksSum(|g|);
    }
  }

  /** The rank vector after `k` rounds from the uniform start. With
      `0 <= d <= 1` no rank ever becomes negative. */
  function Iterate(g: Graph, d: real, k: nat): (r: Ranks)
    ensures |r| == |g|
    ensures 0.0 <= d <= 1.0 ==> forall i :: 0 <= i < |r| ==> r[i] >= 0.0
  {
    if k == 0 then InitialRanks(|g|) else Round(g, Iterate(g, d, k - 1), d)
  }

  /** `checkConvergence`: the loop sums the absolute differences in index
      order and compares the total with the threshold. */
  method CheckConvergence(cur: Ranks, next: Ranks, threshold: real) returns (converged: bool)
    requires |cur| == |next|
    ensures converged <==> Converged(cur, next, threshold)
  {
    var sumDifference := 0.0;
    var i := 0;
    while i < |cur|
      invariant 0 <= i <= |cur|
      invariant sumDifference == L1(cur, next, i)
    {
      sumDifference := sumDifference + Abs(cur[i] - next[i]);
      i := i + 1;
    }
    converged := sumDifference < threshold;
  }

  /** An empty graph has converged after any round exactly when the
      threshold is positive: both vectors are empty and their distance is 0. */
  lemma EmptyGraphConverges(g: Graph, d: real, threshold: real, k: nat)
    ensures |g| == 0 ==> (Converged(Iterate(g, d, k), Iterate(g, d, k + 1), threshold) <==> threshold > 0.0)
  {
    if |g| == 0 {
      assert Iterate(g, d, k) == [] && Iterate(g, d, k + 1) == [];
    }
  }

  /** The state of either loop after `rounds` rounds: no earlier pair of
      consecutive vectors converged; if the last pair did, `cur` is the vector
      of the round BEFORE the last, since the last new vector is never copied;
      otherwise `cur` and `next` both hold the last vector computed. */
  ghost predicate Running(g: Graph, d: real, threshold: real,
                          cur: Ranks, next: Ranks, rounds: nat, converged: bool)
  {
    && |cur| == |next| == |g|
    && (converged ==>
          && 1 <= rounds
          && cur == Iterate(g, d, rounds - 1)
          && next == Iterate(g, d, rounds)
          && Converged(cur, next, threshold))
    && (!converged ==> cur == Iterate(g, d, rounds) && next == cur)
    && (forall r: nat :: r < rounds && (r + 1 < rounds || !converged) ==>
          !Converged(Iterate(g, d, r), Iterate(g, d, r + 1), threshold))
  }

  /** One pass of the loop body from a state that has not converged: compute
      the round, test it, and copy it over `cur` only if the test fails. */
  lemma RunningStep(g: Graph, d: real, threshold: real, cur: Ranks, rounds: nat)
    requires Running(g, d, threshold, cur, cur, rounds, false)
    ensures var next := Round(g, cur, d);
            var converged := Converged(cur, next, threshold);
            Running(g, d, threshold, if converged then cur else next, next, rounds + 1, converged)
  {
    var next := Round(g, cur, d);
    assert next == Iterate(g, d, rounds + 1);
    var converged := Converged(cur, next, threshold);
    forall r: nat | r < rounds + 1 && (r + 1 < rounds + 1 || !converged)
      ensures !Converged(Iterate(g, d, r), Iterate(g, d, r + 1), threshold)
    {
      if r == rounds {
        assert Iterate(g, d, r) == cur && Iterate(g, d, r + 1) == next;
      }
    }
  }

  /** The loop exits at the first round whose new vector is within the
      threshold of the current one, or when the bound is hit. */
  ghost predicate Outcome(g: Graph, d: real, threshold: real, maxRounds: nat,
                    cur: Ranks, next: Ranks, rounds: nat, converged: bool): (ok: bool)
    ensures ok ==> |cur| == |next| == |g|
    ensures ok && |g| == 0 && threshold > 0.0 && maxRounds >= 1 ==> converged && rounds == 1
  {
    EmptyGraphConverges(g, d, threshold, 0);
    && rounds <= maxRounds
    && Running(g, d, threshold, cur, next, rounds, converged)
    && (!converged ==> rounds == maxRounds)
  }

  /** The outcome is determined by the graph, `d`, the threshold and the
      bound: two runs that both satisfy `Outcome` end in the same state. So
      the parallel driver, whatever its schedules, ends exactly where the
      sequential one does. */
  lemma OutcomeUnique(g: Graph, d: real, threshold: real, maxRounds: nat,
                      cur: Ranks, next: Ranks, rounds: nat, converged: bool,
                      cur': Ranks, next': Ranks, rounds': nat, converged': bool)
    requires Outcome(g, d, threshold, maxRounds, cur, next, rounds, converged)
    requires Outcome(g, d, threshold, maxRounds, cur', next', rounds', converged')
    ensures cur == cur' && next == next' && rounds == rounds' && converged == converged'
  {
  }

  /** `SequentialPageRank.computePageRank`, run for at most `maxRounds` rounds. */
  method SequentialCompute(g: Graph, d: real, threshold: real, maxRounds: nat)
    returns (cur: Ranks, next: Ranks, rounds: nat, converged: bool)
    ensures Outcome(g, d, threshold, maxRounds, cur, next, rounds, converged)
    ensures |g| == 0 && threshold > 0.0 && maxRounds >= 1 ==> converged && rounds == 1
  {
    cur, next := InitialRanks(|g|), InitialRanks(|g|);
    rounds, converged := 0, false;
    while !converged && rounds < maxRounds
      invariant rounds <= maxRounds && Running(g, d, threshold, cur, next, rounds, converged)
    {
      next := Rounds.SequentialRound(g, cur, d, next);
      converged := CheckConvergence(cur, next, threshold);
      RunningStep(g, d, threshold, cur, rounds);
      if !converged {
        cur := next;
      }
      rounds := rounds + 1;
    }
    assert Outcome(g, d, threshold, maxRounds, cur, next, rounds, converged);
  }

  /** `ParallelPageRank.computePageRank` with `t` threads; round `r` runs its
      tasks in the order `schedules[r]`, and there are at most
      `|schedules|` rounds. It ends in exactly the state the sequential
      driver ends in. */
  method ParallelCompute(g: Graph, d: real, threshold: real, t: nat, schedules: seq<seq<nat>>)
    returns (cur: Ranks, next: Ranks, rounds: nat, converged: bool)
    requires t >= 1
    requires forall r :: 0 <= r < |schedules| ==> Rounds.Schedule(schedules[r], t)
    ensures Outcome(g, d, threshold, |schedules|, cur, next, rounds, converged)
    ensures |g| == 0 && threshold > 0.0 && |schedules| >= 1 ==> converged && rounds == 1
  {
    var maxRounds := |schedules|;
    cur, next := InitialRanks(|g|), InitialRanks(|g|);
    rounds, converged := 0, false;
    while !converged && rounds < maxRounds
      invariant rounds <= maxRounds && Running(g, d, threshold, cur, next, rounds, converged)
    {
      next := Rounds.ParallelRound(g, cur, d, next, t, schedules[rounds]);
      converged := CheckConvergence(cur, next, threshold);
      RunningStep(g, d, threshold, cur, rounds);
      if !converged {
        cur := next;
      }
      rounds := rounds + 1;
    }
    assert Outcome(g, d, threshold, maxRounds, cur, next, rounds, converged);
  }
}

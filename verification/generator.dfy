/** The edge-insertion rule of `generateRandomDirectedGraph`: draw a pair
    `(u, v)` of node indices and add the edge unless it is a self-loop or its
    key `u + "-" + v` is already in the set of keys. The random draws become
    an explicit sequence of pairs. */
module Generator {
  import opened EdgeKey
  import GraphCodec

  /** The generator's two pieces of state: the adjacency lists and the set of
      keys of the edges added so far. */
  datatype GenState = GenState(adj: GraphCodec.Graph, edges: set<string>)

  /** One `random.nextInt(numVertices)` pair. */
  datatype Draw = Draw(u: int, v: int)

  /** Both ends of a draw are node indices, as `nextInt(n)` guarantees. */
  predicate InRange(d: Draw, n: nat) {
    0 <= d.u < n && 0 <= d.v < n
  }

  /** Every neighbour in the lists is a node index. */
  predicate NeighboursInRange(adj: GraphCodec.Graph) {
    forall u, k :: 0 <= u < |adj| && 0 <= k < |adj[u]| ==> 0 <= adj[u][k] < |adj|
  }

  /** No list holds its own index. */
  predicate NoSelfLoops(adj: GraphCodec.Graph) {
    forall u, k :: 0 <= u < |adj| && 0 <= k < |adj[u]| ==> adj[u][k] != u
  }

  /** No list holds a neighbour twice. */
  predicate NoDuplicates(adj: GraphCodec.Graph) {
    forall u, k, k' :: 0 <= u < |adj| && 0 <= k < k' < |adj[u]| ==> adj[u][k] != adj[u][k']
  }

  /** The key set names exactly the stored edges, one key per edge. */
  predicate InSync(s: GenState) {
    && (forall u: nat, v: nat :: u < |s.adj| && v < |s.adj| ==> (Key(u, v) in s.edges <==> v in s.adj[u]))
    && |s.edges| == GraphCodec.TotalEdges(s.adj)
  }

  /** What the generator keeps true of its state for `n` vertices. */
  predicate Valid(s: GenState, n: nat) {
    && |s.adj| == n
    && NeighboursInRange(s.adj)
    && NoSelfLoops(s.adj)
    && NoDuplicates(s.adj)
    && InSync(s)
  }

  /** `new List[numVertices]` with an empty `ArrayList` in every slot, and an
      empty `HashSet`. */
  function Init(n: nat): (s: GenState)
    ensures |s.adj| == n && s.edges == {}
    ensures forall u :: 0 <= u < n ==> s.adj[u] == []
  {
    GenState(seq(n, _ => []), {})
  }

  /** One turn of the loop: the guarded `add` of the drawn edge. */
  function Step(s: GenState, d: Draw): (r: GenState)
    requires InRange(d, |s.adj|)
    ensures |r.adj| == |s.adj| && s.edges <= r.edges
    ensures forall x :: 0 <= x < |s.adj| && x != d.u ==> r.adj[x] == s.adj[x]
    ensures d.u == d.v ==> r == s
  {
    if d.u != d.v && Key(d.u, d.v) !in s.edges then
      GenState(s.adj[d.u := s.adj[d.u] + [d.v]], s.edges + {Key(d.u, d.v)})
    else
      s
  }

  /** The `while (edges.size() < numEdges)` loop over a finite supply of
      draws: it stops when the target is reached or the draws run out. */
  function Fill(s: GenState, target: int, draws: seq<Draw>): (r: GenState)
    requires forall i :: 0 <= i < |draws| ==> InRange(draws[i], |s.adj|)
    ensures |r.adj| == |s.adj|
    ensures |r.edges| < target ==> r == StepAll(s, draws)
    decreases |draws|
  {
    if |s.edges| >= target || draws == [] then s
    else Fill(Step(s, draws[0]), target, draws[1..])
  }

  /** Every draw applied in turn, with no target to stop at. */
  function StepAll(s: GenState, draws: seq<Draw>): (r: GenState)
    requires forall i :: 0 <= i < |draws| ==> InRange(draws[i], |s.adj|)
    ensures |r.adj| == |s.adj| && s.edges <= r.edges
    decreases |draws|
  {
    if draws == [] then s else StepAll(Step(s, draws[0]), draws[1..])
  }

  /** `generateRandomDirectedGraph(n, target)` given the draws it makes. */
  function Generate(n: nat, target: int, draws: seq<Draw>): (r: GenState)
    requires forall i :: 0 <= i < |draws| ==> InRange(draws[i], n)
    ensures |r.adj| == n
  {
    Fill(Init(n), target, draws)
  }

  // ---------------------------------------------------------------- proofs

  lemma {:induction false} TotalEdgesUpdate(g: GraphCodec.Graph, u: nat, l: seq<int>)
    requires u < |g|
    ensures GraphCodec.TotalEdges(g[u := l]) == GraphCodec.TotalEdges(g) - |g[u]| + |l|
    decreases |g|
  {
    if u > 0 {
      assert g[u := l][1..] == g[1..][u - 1 := l];
      TotalEdgesUpdate(g[1..], u - 1, l);
    }
  }

  /** The initial state satisfies the invariant. */
  lemma InitValid(n: nat)
    ensures Valid(Init(n), n)
  {
    var s := Init(n);
    assert GraphCodec.TotalEdges(s.adj) == 0 by {
      EmptyListsTotal(s.adj);
    }
  }

  lemma {:induction false} EmptyListsTotal(g: GraphCodec.Graph)
    requires forall u :: 0 <= u < |g| ==> g[u] == []
    ensures GraphCodec.TotalEdges(g) == 0
    decreases |g|
  {
    if g != [] {
      EmptyListsTotal(g[1..]);
    }
  }

  /** On a valid state the string-key test is exactly the list test: a draw
      is accepted iff it is no self-loop and the edge is not stored yet. */
  lemma StepAccepts(s: GenState, n: nat, d: Draw)
    requires Valid(s, n) && InRange(d, n)
    ensures Step(s, d) != s <==> d.u != d.v && d.v !in s.adj[d.u]
    ensures Step(s, d) != s ==> Step(s, d).adj[d.u] == s.adj[d.u] + [d.v]
  {
    if d.u != d.v && d.v !in s.adj[d.u] {
      assert Key(d.u, d.v) !in s.edges;
      var r := Step(s, d);
      assert d.v in r.adj[d.u];
    }
  }

  /** One accepted or rejected draw keeps the invariant. */
  lemma StepValid(s: GenState, n: nat, d: Draw)
    requires Valid(s, n) && InRange(d, n)
    ensures Valid(Step(s, d), n)
  {
    var r := Step(s, d);
    if d.u != d.v && Key(d.u, d.v) !in s.edges {
      var u, v := d.u, d.v;
      assert v !in s.adj[u];
      assert forall x :: 0 <= x < n && x != u ==> r.adj[x] == s.adj[x];
      assert r.adj[u] == s.adj[u] + [v];
      assert NoDuplicates(r.adj) by {
        forall x, k, k' | 0 <= x < n && 0 <= k < k' < |r.adj[x]|
          ensures r.adj[x][k] != r.adj[x][k']
        {
          if x == u && k' == |s.adj[u]| {
            assert r.adj[x][k] == s.adj[u][k];
          }
        }
      }
      assert InSync(r) by {
        forall x: nat, y: nat | x < n && y < n
          ensures Key(x, y) in r.edges <==> y in r.adj[x]
        {
          KeyInjective(x, y, u, v);
        }
        assert |r.edges| == |s.edges| + 1;
        TotalEdgesUpdate(s.adj, u, s.adj[u] + [v]);
      }
    }
  }

  /** The loop keeps the invariant however the draws fall, and it never adds
      more edges than the target asks for. */
  lemma {:induction false} FillValid(s: GenState, n: nat, target: int, draws: seq<Draw>)
    requires Valid(s, n)
    requires forall i :: 0 <= i < |draws| ==> InRange(draws[i], n)
    ensures Valid(Fill(s, target, draws), n)
    ensures |s.edges| <= |Fill(s, target, draws).edges|
    ensures |s.edges| < target ==> |Fill(s, target, draws).edges| <= target
    ensures |s.edges| >= target ==> Fill(s, target, draws) == s
    decreases |draws|
  {
    if |s.edges| < target && draws != [] {
      StepValid(s, n, draws[0]);
      var s' := Step(s, draws[0]);
      assert |s'.edges| <= |s.edges| + 1;
      FillValid(s', n, target, draws[1..]);
    }
  }

  /** Whatever the draws, the generated graph has `n` lists, every neighbour
      in `[0, n)`, no self-loops, no duplicate edges, and a key set in step
      with the lists; it has at most `target` edges. */
  lemma GenerateValid(n: nat, target: int, draws: seq<Draw>)
    requires forall i :: 0 <= i < |draws| ==> InRange(draws[i], n)
    ensures Valid(Generate(n, target, draws), n)
    ensures |Generate(n, target, draws).edges| <= if target < 0 then 0 else target
  {
    InitValid(n);
    FillValid(Init(n), n, target, draws);
  }
}

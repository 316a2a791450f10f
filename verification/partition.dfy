/** How `computePageRank` splits the nodes among the threads: task `i` of `t`
    handles the indices `[i * n / t, (i + 1) * n / t)`. */
module Partition {
  import opened Int32

  /** First index of task `i`, with unbounded integers. The operands are
      non-negative, so Java's truncating division agrees with Dafny's. */
  function Start(i: nat, n: nat, t: nat): (start: nat)
    requires t >= 1
    ensures start * t <= i * n < start * t + t
  {
    i * n / t
  }

  /** One past the last index of task `i`: where task `i + 1` starts. The
      range is never reversed, and no task's range reaches past `n`. */
  function End(i: nat, n: nat, t: nat): (end: nat)
    requires t >= 1
    ensures Start(i, n, t) <= end
    ensures i < t ==> end <= n
  {
    StartMonotone(n, t, i, i + 1);
    if i < t then
      StartMonotone(n, t, i + 1, t);
      StartOfLast(n, t);
      Start(i + 1, n, t)
    else
      Start(i + 1, n, t)
  }

  /** Task `i` handles index `k`. */
  predicate Owns(i: nat, n: nat, t: nat, k: int)
    requires t >= 1
  {
    Start(i, n, t) <= k < End(i, n, t)
  }

  lemma MulMonotone(a: nat, b: nat, n: nat)
    requires a <= b
    ensures a * n <= b * n
  {
  }

  lemma MulCancel(x: int, y: int, t: nat)
    requires t >= 1 && x * t < y * t
    ensures x < y
  {
  }

  /** The quotient is the one `q` with `p == q * t + r` and `0 <= r < t`. */
  lemma DivUnique(p: nat, t: nat, q: nat, r: nat)
    requires t >= 1 && p == q * t + r && r < t
    ensures p / t == q
  {
    var q', r' := p / t, p % t;
    assert p == q' * t + r';
    assert (q + 1) * t == q * t + t;
    assert (q' + 1) * t == q' * t + t;
    MulCancel(q', q + 1, t);
    MulCancel(q, q' + 1, t);
  }

  /** The quotient of a natural number: non-negative, and the largest `q`
      with `q * t` not past the dividend. */
  lemma DivBounds(p: nat, t: nat)
    requires t >= 1
    ensures p / t >= 0 && (p / t) * t <= p < (p / t) * t + t
  {
    assert p == (p / t) * t + p % t;
    MulCancel(-1, p / t, t);
  }

  lemma DivMonotone(a: nat, b: nat, t: nat)
    requires t >= 1 && a <= b
    ensures a / t <= b / t
  {
    var qa, qb := a / t, b / t;
    assert a == qa * t + a % t && b == qb * t + b % t;
    assert (qb + 1) * t == qb * t + t;
    MulCancel(qa, qb + 1, t);
  }

  lemma StartMonotone(n: nat, t: nat, i: nat, j: nat)
    requires t >= 1 && i <= j
    ensures Start(i, n, t) <= Start(j, n, t)
  {
    MulMonotone(i, j, n);
    DivMonotone(i * n, j * n, t);
  }

  lemma StartOfLast(n: nat, t: nat)
    requires t >= 1
    ensures Start(t, n, t) == n
  {
    assert t * n == n * t + 0;
    DivUnique(t * n, t, n, 0);
  }

  /** The bounds of the split: the first task starts at 0, the last task ends
      at `n`, every range is well formed, and a later task never starts before
      an earlier one. */
  lemma Bounds(n: nat, t: nat, i: nat, j: nat)
    requires t >= 1 && i <= j
    ensures Start(0, n, t) == 0
    ensures End(t - 1, n, t) == n
    ensures Start(i, n, t) <= End(i, n, t)
    ensures Start(i, n, t) <= Start(j, n, t)
    ensures i <= t ==> Start(i, n, t) <= n
  {
    StartOfLast(n, t);
    StartMonotone(n, t, i, j);
    StartMonotone(n, t, i, i + 1);
    if i <= t {
      StartMonotone(n, t, i, t);
    }
  }

  /** Every node index belongs to some task of a later-or-equal number, if it
      lies past where task `i` starts: the scan from task `i` on finds it. */
  lemma {:induction false} OwnerFrom(n: nat, t: nat, i: nat, k: int) returns (o: nat)
    requires t >= 1 && i < t
    requires Start(i, n, t) <= k < n
    ensures i <= o < t && Owns(o, n, t, k)
    decreases t - i
  {
    Bounds(n, t, i, i);
    if k < End(i, n, t) {
      o := i;
    } else {
      o := OwnerFrom(n, t, i + 1, k);
    }
  }

  /** Every node index in `[0, n)` falls in exactly one task's range, also
      when there are more tasks than nodes and some ranges are empty. */
  lemma ExactlyOneOwner(n: nat, t: nat, k: int) returns (o: nat)
    requires t >= 1 && 0 <= k < n
    ensures o < t && Owns(o, n, t, k)
    ensures forall j: nat :: j < t && Owns(j, n, t, k) ==> j == o
  {
    Bounds(n, t, 0, 0);
    o := OwnerFrom(n, t, 0, k);
    forall j: nat | j < t && Owns(j, n, t, k)
      ensures j == o
    {
      if j < o {
        Bounds(n, t, j + 1, o);
      } else if o < j {
        Bounds(n, t, o + 1, j);
      }
    }
  }

  /** Ranges of distinct tasks share no index, so the tasks of a round write
      disjoint slots. */
  lemma Disjoint(n: nat, t: nat, i: nat, j: nat, k: int)
    requires t >= 1 && i != j
    ensures !(Owns(i, n, t, k) && Owns(j, n, t, k))
  {
    if i < j {
      Bounds(n, t, i + 1, j);
    } else {
      Bounds(n, t, j + 1, i);
    }
  }

  /** Consecutive ranges `[starts[i], ends[i])` that tile `[0, n)` exactly. */
  predicate Tiles(starts: seq<int>, ends: seq<int>, n: nat) {
    && |starts| == |ends| >= 1
    && starts[0] == 0
    && ends[|ends| - 1] == n
    && (forall i :: 0 <= i < |starts| ==> starts[i] <= ends[i])
    && (forall i :: 0 <= i < |starts| - 1 ==> ends[i] == starts[i + 1])
  }

  /** In a tiling every index of `[0, n)` lies in some range; the scan from
      range `i` on finds it when it lies past `starts[i]`. */
  lemma {:induction false} TilesCoverFrom(starts: seq<int>, ends: seq<int>, n: nat, i: nat, k: int) returns (o: nat)
    requires Tiles(starts, ends, n) && i < |starts|
    requires starts[i] <= k < n
    ensures i <= o < |starts| && starts[o] <= k < ends[o]
    decreases |starts| - i
  {
    if k < ends[i] {
      o := i;
    } else {
      o := TilesCoverFrom(starts, ends, n, i + 1, k);
    }
  }

  /** The loop of `computePageRank` that builds the tasks, `t` of them, in
      order. */
  method Split(n: nat, t: nat) returns (starts: seq<int>, ends: seq<int>)
    requires t >= 1
    ensures |starts| == t
    ensures Tiles(starts, ends, n)
    ensures forall i :: 0 <= i < t ==> 0 <= starts[i] <= ends[i] <= n
    ensures forall i :: 0 <= i < t ==> starts[i] == Start(i, n, t) && ends[i] == End(i, n, t)
  {
    starts, ends := [], [];
    var i := 0;
    while i < t
      invariant 0 <= i <= t && |starts| == |ends| == i
      invariant forall k :: 0 <= k < i ==> starts[k] == Start(k, n, t) && ends[k] == End(k, n, t)
      invariant forall k :: 0 <= k < i ==> 0 <= starts[k] <= ends[k] <= n
    {
      var start := i * n / t;
      var end := (i + 1) * n / t;
      Bounds(n, t, i, i);
      Bounds(n, t, i + 1, i + 1);
      starts, ends := starts + [start], ends + [end];
      i := i + 1;
    }
    Bounds(n, t, 0, 0);
  }

  // ---------------------------------------------------- Java int arithmetic

  /** The low 32 bits of `x` read as a signed Java `int`. */
  function Wrap(x: int): (r: int)
    ensures -TWO_31 <= r < TWO_31
    ensures (r - x) % TWO_32 == 0
  {
    ToSigned(x % TWO_32)
  }

  /** Java's `/` on `int`: it truncates toward zero. */
  function JavaDiv(a: int, b: int): (q: int)
    requires b > 0
    ensures a >= 0 ==> q >= 0 && q * b <= a < q * b + b
    ensures a < 0 ==> q <= 0 && a <= q * b < a + b
  {
    if a >= 0 then
      DivBounds(a, b);
      a / b
    else
      DivBounds(-a, b);
      var p := (-a) / b;
      assert (-p) * b == -(p * b);
      -p
  }

  /** `i * numNodes / numThreads` exactly as Java evaluates it: the product
      wraps around at 32 bits before the division. */
  function JavaStart(i: int, n: int, t: int): (start: int)
    requires t >= 1
    ensures 0 <= i * n < TWO_31 ==> start == i * n / t
    ensures Wrap(i * n) < 0 ==> start <= 0
  {
    var product := Wrap(i * n);
    assert 0 <= i * n < TWO_31 ==> product == i * n;
    JavaDiv(product, t)
  }

  /** Where the product fits a Java `int`, the wrapped arithmetic and the
      unbounded one agree. */
  lemma JavaStartAgrees(i: nat, n: nat, t: nat)
    requires t >= 1 && i * n < TWO_31
    ensures JavaStart(i, n, t) == Start(i, n, t)
  {
  }

  /** With 100 million nodes and 32 threads, `22 * numNodes` overflows and
      task 22 gets a negative start, so task 21's range is empty and its
      nodes are never updated. */
  lemma JavaStartOverflows()
    ensures JavaStart(22, 100_000_000, 32) == -65_467_728 < 0
    ensures JavaStart(21, 100_000_000, 32) == 65_625_000
    ensures Start(22, 100_000_000, 32) == 68_750_000
  {
  }
}

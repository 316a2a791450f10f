/** The binary adjacency-list file: the node count, then for every node its
    degree followed by its neighbours, each a big-endian Java `int`.
    `RandomGraphGenerator.writeGraphToFile` writes it; the constructors of
    `SequentialPageRank` and `ParallelPageRank` read it back. */
module GraphCodec {
  import opened Int32
  import Slices

  /** Outgoing neighbour lists, one per node, in insertion order. */
  type Graph = seq<seq<int>>

  /** Why reading a graph file fails. */
  datatype DecodeError =
    | EndOfInput                   // readInt hit the end of the stream (EOFException)
    | NegativeNodeCount(count: int) // new List[count] with count < 0 (NegativeArraySizeException)

  datatype Result<+T> = Ok(value: T) | Err(error: DecodeError)

  /** A neighbour list whose size and entries are all Java `int`s. */
  predicate IntList(l: seq<int>) {
    IsInt32(|l|) && forall k :: 0 <= k < |l| ==> IsInt32(l[k])
  }

  /** A graph the writer can emit: every number it writes is a Java `int`. */
  predicate Encodable(g: Graph) {
    IsInt32(|g|) && forall i :: 0 <= i < |g| ==> IntList(g[i])
  }

  /** Number of stored edges: the sum of the list sizes. */
  function TotalEdges(g: Graph): (total: nat) {
    if g == [] then 0 else |g[0]| + TotalEdges(g[1..])
  }

  // ---------------------------------------------------------------- encoder

  /** The neighbours of one node, one `writeInt` each, in list order. */
  function EncodeInts(l: seq<int>): (r: seq<byte>)
    ensures |r| == 4 * |l|
  {
    if l == [] then [] else Write(l[0]) + EncodeInts(l[1..])
  }

  /** One node's record: its degree, then its neighbours. */
  function EncodeList(l: seq<int>): (r: seq<byte>)
    ensures |r| == 4 * (1 + |l|)
  {
    Write(|l|) + EncodeInts(l)
  }

  /** The node records in index order. */
  function EncodeLists(g: Graph): (r: seq<byte>)
    ensures |r| == 4 * (|g| + TotalEdges(g))
  {
    if g == [] then [] else EncodeList(g[0]) + EncodeLists(g[1..])
  }

  /** `writeGraphToFile`: the node count, then every node's record. */
  function Encode(g: Graph): (r: seq<byte>)
    ensures |r| == 4 * (1 + |g| + TotalEdges(g))
    ensures r[..4] == Write(|g|)
  {
    Write(|g|) + EncodeLists(g)
  }

  /** `bs` holds the words of `l`, in order, from offset `pos` on. */
  predicate IntsAt(bs: seq<byte>, pos: nat, l: seq<int>)
    decreases |l|
  {
    l == [] || (pos + 4 <= |bs| && bs[pos .. pos + 4] == Write(l[0]) && IntsAt(bs, pos + 4, l[1..]))
  }

  /** `bs` holds the record of `l` from offset `pos` on: its degree, then its
      neighbours. */
  predicate ListAt(bs: seq<byte>, pos: nat, l: seq<int>) {
    pos + 4 <= |bs| && bs[pos .. pos + 4] == Write(|l|) && IntsAt(bs, pos + 4, l)
  }

  /** `bs` holds the records of the lists of `g`, in index order and back to
      back, from offset `pos` on. */
  predicate ListsAt(bs: seq<byte>, pos: nat, g: Graph)
    decreases |g|
  {
    g == [] || (ListAt(bs, pos, g[0]) && ListsAt(bs, pos + 4 * (1 + |g[0]|), g[1..]))
  }

  lemma {:induction false} WindowIntsAt(bs: seq<byte>, pos: nat, l: seq<int>)
    requires pos + 4 * |l| <= |bs| && bs[pos .. pos + 4 * |l|] == EncodeInts(l)
    ensures IntsAt(bs, pos, l)
    decreases |l|
  {
    if l != [] {
      Slices.SplitWindow(bs, pos, Write(l[0]), EncodeInts(l[1..]));
      WindowIntsAt(bs, pos + 4, l[1..]);
    }
  }

  lemma WindowListAt(bs: seq<byte>, pos: nat, l: seq<int>)
    requires pos + 4 * (1 + |l|) <= |bs| && bs[pos .. pos + 4 * (1 + |l|)] == EncodeList(l)
    ensures ListAt(bs, pos, l)
  {
    Slices.SplitWindow(bs, pos, Write(|l|), EncodeInts(l));
    WindowIntsAt(bs, pos + 4, l);
  }

  lemma {:induction false} WindowListsAt(bs: seq<byte>, pos: nat, g: Graph)
    requires pos + |EncodeLists(g)| <= |bs| && bs[pos .. pos + |EncodeLists(g)|] == EncodeLists(g)
    ensures ListsAt(bs, pos, g)
    decreases |g|
  {
    if g != [] {
      var first, rest := EncodeList(g[0]), EncodeLists(g[1..]);
      Slices.SplitWindow(bs, pos, first, rest);
      WindowListAt(bs, pos, g[0]);
      WindowListsAt(bs, pos + |first|, g[1..]);
    }
  }

  lemma RecordsAfterCount(bs: seq<byte>, g: Graph)
    requires bs == Write(|g|) + EncodeLists(g)
    ensures ListsAt(bs, 4, g)
  {
    Slices.SliceOfConcatRight(Write(|g|), EncodeLists(g), 0, |EncodeLists(g)|);
    WindowListsAt(bs, 4, g);
  }

  /** The file `writeGraphToFile` produces starts with the node count and then
      holds every node's record, in index order: its degree, then its
      neighbours in list order. */
  lemma EncodeLayout(g: Graph)
    ensures Encode(g)[..4] == Write(|g|)
    ensures ListsAt(Encode(g), 4, g)
  {
    RecordsAfterCount(Encode(g), g);
  }

  // ---------------------------------------------------------------- decoder

  /** A value read from the stream, and the offset just past it. */
  datatype Parsed<+T> = Parsed(value: T, next: nat)

  function Max0(x: int): (m: nat) {
    if x < 0 then 0 else x
  }

  /** `readInt` at offset `pos`: four bytes, or the end of the stream. */
  function ReadInt(bs: seq<byte>, pos: nat): (r: Result<Parsed<int>>)
    ensures r.Ok? <==> pos + 4 <= |bs|
    ensures r.Err? ==> r.error == EndOfInput
    ensures r.Ok? ==> r.value.next == pos + 4 && IsInt32(r.value.value)
  {
    if pos + 4 > |bs| then Err(EndOfInput) else Ok(Parsed(Read(bs[pos..pos + 4]), pos + 4))
  }

  /** The inner `for (j = 0; j < numEdges; j++) adjList[i].add(readInt())`:
      `count` integers, none at all when `count` is zero or negative. */
  function ReadInts(bs: seq<byte>, pos: nat, count: int): (r: Result<Parsed<seq<int>>>)
    requires pos <= |bs|
    decreases count
    ensures r.Ok? <==> pos + 4 * Max0(count) <= |bs|
    ensures r.Err? ==> r.error == EndOfInput
    ensures r.Ok? ==> |r.value.value| == Max0(count) && r.value.next == pos + 4 * Max0(count)
  {
    if count <= 0 then Ok(Parsed([], pos))
    else
      var head := ReadInt(bs, pos);
      if head.Err? then Err(head.error)
      else
        var tail := ReadInts(bs, head.value.next, count - 1);
        if tail.Err? then Err(tail.error)
        else Ok(Parsed([head.value.value] + tail.value.value, tail.value.next))
  }

  /** One node's record: the degree, then that many neighbours. */
  function ReadList(bs: seq<byte>, pos: nat): (r: Result<Parsed<seq<int>>>)
    ensures r.Ok? <==> pos + 4 <= |bs| && pos + 4 + 4 * Max0(Read(bs[pos..pos + 4])) <= |bs|
    ensures r.Err? ==> r.error == EndOfInput
    ensures r.Ok? ==> |r.value.value| == Max0(Read(bs[pos..pos + 4]))
                      && r.value.next == pos + 4 + 4 * |r.value.value|
    ensures r.Ok? ==> pos + 4 <= r.value.next <= |bs|
  {
    var degree := ReadInt(bs, pos);
    if degree.Err? then Err(degree.error)
    else ReadInts(bs, degree.value.next, degree.value.value)
  }

  /** The outer `for (i = 0; i < numNodes; i++)`: `count` node records. */
  function ReadLists(bs: seq<byte>, pos: nat, count: nat): (r: Result<Parsed<Graph>>)
    requires pos <= |bs|
    decreases count
    ensures r.Err? ==> r.error == EndOfInput
    ensures r.Ok? ==> |r.value.value| == count && pos <= r.value.next <= |bs|
  {
    if count == 0 then Ok(Parsed([], pos))
    else
      var head := ReadList(bs, pos);
      if head.Err? then Err(head.error)
      else
        var tail := ReadLists(bs, head.value.next, count - 1);
        if tail.Err? then Err(tail.error)
        else Ok(Parsed([head.value.value] + tail.value.value, tail.value.next))
  }

  /** The constructors' read loop. Bytes after the last record are never
      looked at; a negative count fails when the array is allocated. */
  function Decode(bs: seq<byte>): (r: Result<Graph>)
    ensures |bs| < 4 ==> r == Err(EndOfInput)
    ensures |bs| >= 4 && Read(bs[..4]) < 0 ==> r == Err(NegativeNodeCount(Read(bs[..4])))
    ensures r.Ok? ==> |bs| >= 4 && |r.value| == Read(bs[..4])
    ensures r.Err? && r.error != EndOfInput ==> |bs| >= 4 && r.error == NegativeNodeCount(Read(bs[..4]))
  {
    var count := ReadInt(bs, 0);
    if count.Err? then Err(count.error)
    else if count.value.value < 0 then Err(NegativeNodeCount(count.value.value))
    else
      var lists := ReadLists(bs, 4, count.value.value);
      if lists.Err? then Err(lists.error) else Ok(lists.value.value)
  }

  // ---------------------------------------------------------- round trip

  lemma {:induction false} ReadIntsFrom(bs: seq<byte>, pos: nat, l: seq<int>)
    requires pos <= |bs|
    requires IntsAt(bs, pos, l)
    requires forall k :: 0 <= k < |l| ==> IsInt32(l[k])
    ensures ReadInts(bs, pos, |l|) == Ok(Parsed(l, pos + 4 * |l|))
    decreases |l|
  {
    if l != [] {
      ReadWrite(l[0]);
      ReadIntsFrom(bs, pos + 4, l[1..]);
      assert [l[0]] + l[1..] == l;
    }
  }

  lemma ReadListFrom(bs: seq<byte>, pos: nat, l: seq<int>)
    requires ListAt(bs, pos, l)
    requires IntList(l)
    ensures ReadList(bs, pos) == Ok(Parsed(l, pos + 4 * (1 + |l|)))
  {
    ReadWrite(|l|);
    ReadIntsFrom(bs, pos + 4, l);
  }

  /** One turn of the outer read loop: a record, then the remaining ones. */
  lemma ReadListsStep(bs: seq<byte>, pos: nat, count: nat, l: seq<int>, mid: nat, g: Graph, end: nat)
    requires pos <= |bs| && 0 < count
    requires ReadList(bs, pos) == Ok(Parsed(l, mid))
    requires mid <= |bs| && ReadLists(bs, mid, count - 1) == Ok(Parsed(g, end))
    ensures ReadLists(bs, pos, count) == Ok(Parsed([l] + g, end))
  {
  }

  lemma {:induction false} ReadListsFrom(bs: seq<byte>, pos: nat, g: Graph) returns (end: nat)
    requires pos <= |bs|
    requires ListsAt(bs, pos, g)
    requires forall i :: 0 <= i < |g| ==> IntList(g[i])
    ensures end == pos + 4 * (|g| + TotalEdges(g))
    ensures ReadLists(bs, pos, |g|) == Ok(Parsed(g, end))
    decreases |g|
  {
    if g == [] {
      end := pos;
    } else {
      var mid := pos + 4 * (1 + |g[0]|);
      assert ListAt(bs, pos, g[0]) && ListsAt(bs, mid, g[1..]);
      assert IntList(g[0]);
      assert forall i :: 0 <= i < |g[1..]| ==> IntList(g[1..][i]);
      assert ReadList(bs, pos) == Ok(Parsed(g[0], mid)) by {
        ReadListFrom(bs, pos, g[0]);
      }
      end := ReadListsFrom(bs, mid, g[1..]);
      ReadListsStep(bs, pos, |g|, g[0], mid, g[1..], end);
      assert [g[0]] + g[1..] == g;
    }
  }

  /** Reading what `writeGraphToFile` wrote gives back the same lists, in the
      same order, duplicates kept; whatever follows the last record is ignored. */
  lemma DecodeEncode(g: Graph, trailing: seq<byte>)
    requires Encodable(g)
    ensures Decode(Encode(g) + trailing) == Ok(g)
  {
    var bs := Encode(g) + trailing;
    Slices.SliceOfConcatLeft(Encode(g), trailing, 0, 4);
    ReadWrite(|g|);
    Slices.SliceOfConcatLeft(Encode(g), trailing, 4, |Encode(g)|);
    Slices.SliceOfConcatRight(Write(|g|), EncodeLists(g), 0, |EncodeLists(g)|);
    WindowListsAt(bs, 4, g);
    var end := ReadListsFrom(bs, 4, g);
  }

  // ---------------------------------------------------------- truncation

  /** What `ReadInts` makes of the first `m` bytes of its input: the same
      integers if they are all there, end of input otherwise. */
  lemma {:induction false} ReadIntsPrefix(bs: seq<byte>, pos: nat, count: int, m: nat)
    requires pos <= m <= |bs|
    requires ReadInts(bs, pos, count).Ok?
    ensures m < ReadInts(bs, pos, count).value.next ==> ReadInts(bs[..m], pos, count) == Err(EndOfInput)
    ensures m >= ReadInts(bs, pos, count).value.next ==> ReadInts(bs[..m], pos, count) == ReadInts(bs, pos, count)
    decreases count
  {
    if count > 0 && pos + 4 <= m {
      assert bs[..m][pos .. pos + 4] == bs[pos .. pos + 4];
      ReadIntsPrefix(bs, pos + 4, count - 1, m);
    }
  }

  lemma ReadListPrefix(bs: seq<byte>, pos: nat, m: nat)
    requires pos <= m <= |bs|
    requires ReadList(bs, pos).Ok?
    ensures m < ReadList(bs, pos).value.next ==> ReadList(bs[..m], pos) == Err(EndOfInput)
    ensures m >= ReadList(bs, pos).value.next ==> ReadList(bs[..m], pos) == ReadList(bs, pos)
  {
    if pos + 4 <= m {
      assert bs[..m][pos .. pos + 4] == bs[pos .. pos + 4];
      ReadIntsPrefix(bs, pos + 4, Read(bs[pos .. pos + 4]), m);
    }
  }

  lemma {:induction false} ReadListsPrefix(bs: seq<byte>, pos: nat, count: nat, m: nat)
    requires pos <= m <= |bs|
    requires ReadLists(bs, pos, count).Ok?
    ensures m < ReadLists(bs, pos, count).value.next ==> ReadLists(bs[..m], pos, count) == Err(EndOfInput)
    ensures m >= ReadLists(bs, pos, count).value.next ==> ReadLists(bs[..m], pos, count) == ReadLists(bs, pos, count)
    decreases count
  {
    if count > 0 {
      ReadListPrefix(bs, pos, m);
      var mid := ReadList(bs, pos).value.next;
      if mid <= m {
        ReadListsPrefix(bs, mid, count - 1, m);
      }
    }
  }

  /** A file cut anywhere before the end of the last record is rejected as
      end of input; the constructors never return a partial graph. */
  lemma DecodeTruncated(g: Graph, m: nat)
    requires Encodable(g)
    requires m < |Encode(g)|
    ensures Decode(Encode(g)[..m]) == Err(EndOfInput)
  {
    var bs := Encode(g);
    if m >= 4 {
      ReadWrite(|g|);
      assert bs[..m][..4] == bs[..4];
      EncodeLayout(g);
      var end := ReadListsFrom(bs, 4, g);
      ReadListsPrefix(bs, 4, |g|, m);
    }
  }

  /** A negative degree gives an empty list: the inner loop never runs and
      the next record starts right after the degree. */
  lemma NegativeDegree(bs: seq<byte>, pos: nat)
    requires pos + 4 <= |bs|
    requires Read(bs[pos .. pos + 4]) < 0
    ensures ReadList(bs, pos) == Ok(Parsed([], pos + 4))
  {
  }
}

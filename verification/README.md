# PageRank power iteration, modelled in Dafny

The repository computes PageRank by power iteration in two ways. `SequentialPageRank` updates every node in turn. `ParallelPageRank` splits the nodes into contiguous index ranges and hands each range to a `PageRankTask` on a thread pool. Both read a graph from a binary adjacency-list file that `RandomGraphGenerator` writes.

This project models the parts of that code that do not depend on floating point or threads:

- `int32.dfy` (module `Int32`): `DataOutputStream.writeInt` and `DataInputStream.readInt`. An `int` is four bytes, high byte first, in two's complement.
- `graph_codec.dfy` (module `GraphCodec`): the file format.
  - `Encode` is `writeGraphToFile`: the node count, then each node's degree followed by its neighbours.
  - `Decode` is the read loop shared by both constructors. It is partial: it fails with `EndOfInput` where `readInt` would throw `EOFException`, and with `NegativeNodeCount` where `new List[numNodes]` would throw `NegativeArraySizeException`.
- `edge_key.dfy` (module `EdgeKey`): the string `u + "-" + v` that the generator uses to recognise an edge it already has. The model proves that this key is injective.
- `generator.dfy` (module `Generator`): the guarded `add` of `generateRandomDirectedGraph`. The random draws are an explicit sequence of pairs.
- `partition.dfy` (module `Partition`): the task ranges `[i * n / t, (i + 1) * n / t)`. The file also models the same arithmetic in 32-bit Java `int`s, which can overflow (see Findings).
- `kernel.dfy` (module `Kernel`): the pieces of one round, over exact reals:
  - the per-node update `(1 - d) / n + d * sum`;
  - the uniform start vector `1 / n`;
  - the L1 distance and the convergence test.
- `rounds.dfy` (module `Rounds`): the sequential round, a single `PageRankTask`, and the parallel round. In the parallel round the tasks run one after another, in any order that runs every task. `ParallelRound` proves that this gives the sequential round's result.
- `driver.dfy` (module `Driver`): the rest of the constructors and of `computePageRank`.
  - The constructors decode the file, then fill both rank arrays with `1 / numNodes`.
  - Each loop runs rounds until `checkConvergence` holds, copying the new ranks over the current ones only when the test fails.
  - Both drivers are shown to end in the same state.

Two behaviours of the code are worth stating plainly:

- **Empty graph.** With no nodes the code still runs one empty round, then compares the distance 0 with the threshold. It stops after that round only if the threshold is positive; otherwise it loops forever. `Driver.EmptyGraphConverges` and the last `ensures` of each driver state this.
- **Rank mass.** With dangling nodes (empty lists) the ranks lose mass, so only the initial vector's sum is proved (`Kernel.InitialRanksSum`).

## Model

| member | source | states |
|---|---|---|
| `Int32.Write` | RandomGraphGenerator.java:53-57 | `writeInt` emits exactly four bytes, and their big-endian value is the argument's low 32 bits |
| `Int32.Read` | ParallelPageRank.java:20 | `readInt` of four bytes yields a Java `int` whose two's-complement bit pattern is the bytes' big-endian value |
| `Int32.ReadWrite` | RandomGraphGenerator.java:53 | reading back what `writeInt` wrote gives the same `int` |
| `Int32.WriteRead` | ParallelPageRank.java:20 | writing back what `readInt` read gives the same four bytes, so the 4-byte form of an `int` is unique |
| `Int32.WriteSignByte` | RandomGraphGenerator.java:53 | the first byte written is at least 0x80 exactly when the value is negative (high byte first) |
| `GraphCodec.EncodeInts` | RandomGraphGenerator.java:56-58 | a node's neighbours take four bytes each |
| `GraphCodec.EncodeList` | RandomGraphGenerator.java:55-58 | a node's record is four bytes for the degree plus four per neighbour |
| `GraphCodec.EncodeLists` | RandomGraphGenerator.java:54-59 | the records of all nodes take `4 * (numNodes + total edges)` bytes |
| `GraphCodec.Encode` | RandomGraphGenerator.java:50-61 | the file is `4 * (1 + numNodes + total edges)` bytes long and begins with the 4-byte big-endian node count |
| `GraphCodec.EncodeLayout` | RandomGraphGenerator.java:53-59 | after the count, the file holds every node's record in index order: its degree, then its neighbours in list order |
| `GraphCodec.ReadInt` | ParallelPageRank.java:20 | `readInt` succeeds exactly when four bytes remain, and otherwise fails with end of input; on success it advances four bytes and returns a Java `int` |
| `GraphCodec.ReadInts` | ParallelPageRank.java:25-27 | the inner loop reads `max(count, 0)` integers; it succeeds exactly when that many words remain and fails with end of input otherwise |
| `GraphCodec.ReadList` | ParallelPageRank.java:24-27 | a record read succeeds exactly when the degree word and `max(degree, 0)` neighbour words remain; it then yields `max(degree, 0)` neighbours and stops right after the last of them; otherwise it fails with end of input |
| `GraphCodec.ReadLists` | ParallelPageRank.java:22-28 | the outer loop yields exactly `count` lists, or fails with end of input |
| `GraphCodec.Decode` | ParallelPageRank.java:19-28 | fewer than four bytes give end of input; a negative count gives `NegativeNodeCount` carrying that count; on success there are exactly as many lists as the count; no other error occurs |
| `GraphCodec.ReadListsFrom` | SequentialPageRank.java:18-24 | if the bytes hold the records of `g`, the read loop returns `g` and stops right after the last record |
| `GraphCodec.DecodeEncode` | ParallelPageRank.java:19-28 | decoding what `writeGraphToFile` wrote gives back the same lists (same count, order and duplicates), whatever bytes follow |
| `GraphCodec.ReadListsPrefix` | SequentialPageRank.java:20-22 | cutting the input before the end of the last record turns the read loop's result into end of input; cutting it after leaves the result unchanged |
| `GraphCodec.DecodeTruncated` | ParallelPageRank.java:20-26 | every proper prefix of an encoded graph is rejected with end of input, never a partial graph |
| `GraphCodec.NegativeDegree` | ParallelPageRank.java:24-27 | a negative degree gives an empty list, and the next record starts right after the degree word |
| `EdgeKey.Decimal` | RandomGraphGenerator.java:41 | the decimal rendering of a non-negative number is non-empty, is all digits, and has one digit exactly for numbers below 10 |
| `EdgeKey.DecimalRoundTrip` | RandomGraphGenerator.java:41 | the digits read back give the number |
| `EdgeKey.DecimalInjective` | RandomGraphGenerator.java:41 | two numbers have the same rendering exactly when they are equal |
| `EdgeKey.Key` | RandomGraphGenerator.java:41-43 | the key has the dash right after the first number's digits and no dash before it |
| `EdgeKey.KeyInjective` | RandomGraphGenerator.java:41-43 | two edges have the same `u + "-" + v` key exactly when they have the same endpoints |
| `Generator.Init` | RandomGraphGenerator.java:27-33 | the generator starts with `numVertices` empty lists and an empty key set |
| `Generator.Step` | RandomGraphGenerator.java:41-44 | a draw changes at most list `u`, never removes a key, and leaves the state alone when `u == v` |
| `Generator.InitValid` | RandomGraphGenerator.java:27-33 | the initial state satisfies the generator invariant |
| `Generator.StepAccepts` | RandomGraphGenerator.java:41-43 | on a valid state the key test matches the list test: a draw is accepted iff `u != v` and `v` is not yet in `adj[u]`, and an accepted `v` is appended to the end of `adj[u]` |
| `Generator.StepValid` | RandomGraphGenerator.java:37-44 | each draw keeps the invariant: `n` lists, neighbours in `[0, n)`, no self-loops, no duplicates, `"u-v"` in the keys iff `v` in `adj[u]`, and the key count equal to the number of stored edges |
| `Generator.StepAll` | RandomGraphGenerator.java:36-44 | applying every draw in turn keeps the number of lists and never removes a key |
| `Generator.Fill` | RandomGraphGenerator.java:35-44 | the loop keeps the number of lists, and it stops short of the target only when it has used up every draw: a result below the target is every draw applied in turn |
| `Generator.FillValid` | RandomGraphGenerator.java:36-45 | the loop keeps the invariant, never removes an edge, never overshoots the target, and does nothing once the target is reached |
| `Generator.Generate` | RandomGraphGenerator.java:25-48 | the generated graph has `numVertices` lists |
| `Generator.GenerateValid` | RandomGraphGenerator.java:25-48 | whatever the draws, the generated graph satisfies the invariant and has at most `numEdges` edges |
| `Partition.Bounds` | ParallelPageRank.java:47-49 | task 0 starts at 0, the last task ends at `numNodes`, every range is well formed, and starts never decrease |
| `Partition.ExactlyOneOwner` | ParallelPageRank.java:47-49 | every node index in `[0, numNodes)` lies in the range of exactly one of the `numThreads` tasks, also when there are more tasks than nodes |
| `Partition.Disjoint` | ParallelPageRank.java:47-50 | the ranges of two distinct tasks share no index, so concurrent tasks write disjoint slots |
| `Partition.TilesCoverFrom` | ParallelPageRank.java:47-49 | ranges that tile `[0, n)` leave no index uncovered |
| `Partition.Split` | ParallelPageRank.java:47-51 | the task loop builds `numThreads` ranges that tile `[0, numNodes)`: contiguous, each within bounds, starting at 0 and ending at `numNodes` |
| `Partition.Start` | ParallelPageRank.java:48 | with unbounded integers, task `i` starts at the largest `s` with `s * numThreads <= i * numNodes` |
| `Partition.End` | ParallelPageRank.java:49 | a task's end is never before its start, and no task of the `numThreads` ends past `numNodes` |
| `Partition.JavaDiv` | ParallelPageRank.java:48 | Java's `/` by a positive divisor rounds toward zero: the quotient has the dividend's sign and `q * b` is the multiple of `b` nearest the dividend on the zero side |
| `Partition.JavaStart` | ParallelPageRank.java:48 | as Java computes `i * numNodes / numThreads`, the start is the true quotient while the product fits an `int`, and is never positive once the product wraps negative |
| `Partition.Wrap` | ParallelPageRank.java:48-49 | Java `int` arithmetic keeps a result in `[-2^31, 2^31)` that equals the true value modulo 2^32 |
| `Partition.JavaStartAgrees` | ParallelPageRank.java:48 | while `i * numNodes` fits an `int`, Java's arithmetic gives the intended start |
| `Partition.JavaStartOverflows` | ParallelPageRank.java:48-49 | with 100 000 000 nodes and 32 threads, Java computes a negative start for task 22, where the intended start is 68 750 000 |
| `Kernel.Abs` | SequentialPageRank.java:58 | `Math.abs` is non-negative and is the argument or its negation |
| `Kernel.Contribution` | SequentialPageRank.java:41-42 | node `j` passes nothing to a node not in its list; otherwise its share times its list's size is its whole rank; non-negative ranks give non-negative shares |
| `Kernel.InSum` | SequentialPageRank.java:39-44 | with non-negative ranks the sum is non-negative, and a node that no list scanned so far contains gets a sum of 0 |
| `Kernel.Update` | SequentialPageRank.java:45 | with `0 <= d <= 1` and a non-negative sum, the update is at least the teleport share `(1 - d) / numNodes`, which is itself non-negative |
| `Kernel.NodeRank` | SequentialPageRank.java:45 | a node that no list contains gets exactly `(1 - d) / numNodes`; with `0 <= d <= 1` and non-negative ranks no node gets less |
| `Kernel.Round` | SequentialPageRank.java:38-46 | a round yields one new rank per node; its two implementations are `Rounds.SequentialRound` and `Rounds.ParallelRound` |
| `Kernel.InitialRanks` | SequentialPageRank.java:31-32 | `Arrays.fill` gives `numNodes` positive entries, each of which times `numNodes` is 1 |
| `Kernel.L1` | SequentialPageRank.java:56-59 | the summed absolute difference is never negative |
| `Kernel.Converged` | SequentialPageRank.java:60 | no pair of arrays passes a threshold that is zero or negative, and an array passes against itself exactly when the threshold is positive |
| `Kernel.NodeRankLocal` | SequentialPageRank.java:39-45 | a node's new rank reads only the current ranks of the nodes whose lists contain it |
| `Kernel.InSumLocal` | SequentialPageRank.java:40-44 | a node's sum reads only the ranks of nodes whose lists contain it |
| `Kernel.DanglingIgnored` | SequentialPageRank.java:41 | the rank of a node with an empty list affects no node's new rank |
| `Kernel.RoundLowerBound` | SequentialPageRank.java:45 | with `0 <= d <= 1` and non-negative ranks, every new rank is at least `(1 - d) / numNodes` |
| `Kernel.InitialRanksSum` | SequentialPageRank.java:31-32 | the initial `1 / numNodes` entries sum to 1 |
| `Kernel.L1Zero` | SequentialPageRank.java:55-61 | the summed absolute difference is 0 exactly when the two arrays are equal |
| `Kernel.L1Symmetric` | SequentialPageRank.java:58 | the distance does not depend on the order of the two arrays |
| `Kernel.ConvergedSelf` | SequentialPageRank.java:60 | given a positive threshold, an array has converged against itself, and so have two empty arrays |
| `Rounds.IncomingSum` | ParallelPageRank.java:93-99 | the inner loop's `sum` is the in-order total of the shares of the nodes whose lists contain `i` |
| `Rounds.RunTask` | ParallelPageRank.java:92-102 | a task gives each slot in its range the new rank of that node, and leaves every other slot of `newPageranks` as it was |
| `Rounds.SequentialRound` | SequentialPageRank.java:38-46 | the sequential round writes every index once, each with the new rank computed from the current ranks and the graph only |
| `Rounds.RunTasks` | ParallelPageRank.java:47-59 | after the submitted tasks have run, every slot in a range that ran holds its node's new rank |
| `Rounds.ParallelRound` | ParallelPageRank.java:45-59 | running every task, in any order, gives exactly the sequential round's `newPageranks` |
| `Driver.Load` | ParallelPageRank.java:16-38 | the constructor succeeds exactly when decoding does, with the decoder's error otherwise; both arrays have `numNodes` entries, all `1 / numNodes` |
| `Driver.LoadEncoded` | SequentialPageRank.java:13-33 | loading a generated file gives back its lists, and when there is at least one node the initial ranks sum to 1 |
| `Driver.CheckConvergence` | ParallelPageRank.java:72-79 | `checkConvergence` returns true exactly when the L1 distance is below the threshold |
| `Driver.Iterate` | SequentialPageRank.java:36-51 | the vector after any number of rounds has `numNodes` entries, and with `0 <= d <= 1` none of them is negative |
| `Driver.EmptyGraphConverges` | SequentialPageRank.java:36-61 | with no nodes, every round passes the convergence test exactly when the threshold is positive |
| `Driver.RunningStep` | SequentialPageRank.java:37-51 | one pass of the loop body from a state that has not converged leads to the state after one more round: the new vector is the next iterate, and `cur` takes it only if the test failed |
| `Driver.Outcome` | SequentialPageRank.java:36-52 | a final state of the loop has both arrays of length `numNodes`; with no nodes, a positive threshold and room for a round, the loop has converged after exactly one round |
| `Driver.OutcomeUnique` | ParallelPageRank.java:43-67 | the final rank arrays, the number of rounds and the converged flag depend only on the graph, `d`, the threshold and the bound |
| `Driver.SequentialCompute` | SequentialPageRank.java:35-53 | the loop stops at the first round that converges; the current ranks are then the previous round's vector and were copied only on non-converged rounds; with no nodes, a positive threshold and a bound of at least one round, it stops after one round |
| `Driver.ParallelCompute` | ParallelPageRank.java:40-70 | the parallel driver, with any task order in every round, ends in the state the sequential driver specifies, so the printed ranks (line 128) are the previous round's vector |

## Left out

- Threads. The thread pool, `Future.get`, `shutdown` and `awaitTermination` are not modelled. `Executors.newFixedThreadPool` throws `IllegalArgumentException` when `numThreads <= 0` (ParallelPageRank.java:41); the model takes `t >= 1` instead of modelling that exception. Tasks run as operations on disjoint ranges, one after another, in any order. `Partition.Disjoint` shows the ranges never share a slot, which is what makes the concurrent writes safe in the source.
- Task failures. The source catches `ExecutionException`, prints it and carries on with a partly updated array. This depends on the runtime, and the model has no failing tasks.
- Floating point. Ranks are exact reals, so IEEE-754 rounding and error bounds are not modelled. Conservation of rank mass is not claimed: it fails with dangling nodes.
- Termination. The convergence loops are unbounded in the source. The drivers take a bound: `maxRounds`, or the number of schedules. They report not converged when the bound is reached.
- Randomness. `java.util.Random` is replaced by an input sequence of draws in `[0, numVertices)`. Termination of the generator loop, which needs `numEdges <= n(n - 1)` and luck, is not modelled.
- Generator error paths. `nextInt(0)` (no vertices but a positive edge target) and `new List[numVertices]` with a negative count both throw in the source. The model has no draws for zero vertices and takes `numVertices` as a `nat`.
- Programs and files. The `main` methods (argument parsing, usage messages, printing, timing), the benchmark script and the file streams are not modelled. The file is a byte sequence, and `close` has no counterpart.
- Memory. `new List[numNodes]` with a huge count can fail with `OutOfMemoryError`; the model does not.
- `Partition.Start`: unbounded integers, not the 32-bit `int` arithmetic of the source. The as-written arithmetic is modelled separately and its overflow is logged under Findings.
- `EdgeKey.Key`: defined on non-negative endpoints only, because the generator never draws a negative index. Java's minus sign for negative numbers is not modelled.
- `Rounds.RunTask`: the source's promise that a task does not touch `currentPageranks` or `adjList` holds by construction, because the model passes them as immutable values.

## Findings

| source | as written | input that shows it | evidently intended | confidence | as-written member | corrected member |
|---|---|---|---|---|---|---|
| ParallelPageRank.java:48-49 | `i * numNodes / numThreads` and `(i + 1) * numNodes / numThreads` are evaluated in 32-bit `int`, so the product wraps once it passes 2^31 - 1 | `numNodes = 100000000`, `numThreads = 32`: task 22 gets start -65467728, so task 21's range `[65625000, -65467728)` is empty and its nodes are never updated | the same quotient computed without overflow (for example in `long`): task 22 starts at 68750000 and the ranges tile `[0, numNodes)` | not executed; the arithmetic is certain, and the input needs rank arrays of about 800 MB each | `Partition.JavaStartOverflows` | `Partition.Split` |

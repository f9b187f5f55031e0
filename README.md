# HyperBall in Dafny

A model of the core of HyperBall, a Java tool that computes the distance
distribution of a directed graph in two ways. For each distance d, the
distribution counts the ordered pairs of nodes (v, w) with w at distance
exactly d from v.

- **BfsTraversal** gives the exact answer. It runs one breadth-first search
  from every node, and each node a search discovers adds one pair at its
  distance.
- **HyperBall** gives an approximate answer. Every node keeps a HyperLogLog
  counter (`HLLCounter`) that first holds just the node. In each round the
  counter of every node is replaced by the union of its own counter and its
  successors' counters. The growth of the estimated counter sizes in round t
  is added to the count of distance t. The rounds stop when one changes no
  counter.
- **DistanceDistribution** is the sparse map from distance to count that both
  fill in. **ProbabilityDistribution** is a smaller map of the same shape.

The project has one module per concern:

| file | module | what it holds |
|---|---|---|
| `bits.dfy` | `Bits` | 32-bit fingerprints, shifts, `numberOfLeadingZeros`, the padded binary representation |
| `hll.dfy` | `Hll` | the register machine of `HLLCounter`: index/rank split, `add`, `union`, `emptyRegisters`, and what a register state says about the items added |
| `graphs.dfy` | `Graphs` | graphs as successor lists, balls of radius t, layers at distance d |
| `distribution.dfy` | `Distribution` | `DistanceDistribution` as a class over `map<int, int>` |
| `probability.dfy` | `Probability` | `ProbabilityDistribution` as a class over `map<int, int>` |
| `bfs.dfy` | `Bfs` | `BfsTraversal`: reachable nodes and the exact distance distribution |
| `hyperball.dfy` | `HyperBall` | the constructor guard, `initializeCounters` and the round loop of `getDistanceDistribution` |

The ball of radius t around v (`Graphs.Ball`) is defined by the recursion
HyperBall applies to its counters. The model then proves:
- after t rounds the registers of v's counter are exactly those of a counter
  into which the nodes of that ball were added (`HyperBall.IterateSketches`);
- the breadth-first search finds, at each distance d, exactly the nodes in
  the ball of radius d and not in the ball of radius d - 1
  (`Bfs.UpdateDistanceDistribution`).

Two things are parameters, because they are floating-point or foreign code:
- `hash`, the MurmurHash of a node number;
- `size`, the cardinality estimate of a counter, a function of its registers.

## Model

Paths are relative to the root of the Java repository.

| member | source | states |
|---|---|---|
| Bits.ShiftRight | src/main/java/utwente/jjw/meijer/hll/HLLCounter.java:192 | `hash >>> s` on a 32-bit fingerprint is below 2^(32 - s) |
| Bits.ShiftLeftKeepsLowBits | src/main/java/utwente/jjw/meijer/hll/HLLCounter.java:202 | `hash << s` keeps exactly the low 32 - s bits, moved up by s places |
| Bits.NumberOfLeadingZeros | src/main/java/utwente/jjw/meijer/hll/HLLCounter.java:203 | `Integer.numberOfLeadingZeros` is in 0..32, is 32 exactly for zero, and otherwise places the highest set bit at position 31 - n |
| Bits.ToBinaryString | src/main/java/utwente/jjw/meijer/hll/HLLCounter.java:248 | `Integer.toBinaryString` gives 1 to 32 binary digits with no leading zero (just "0" for zero) whose value is the unsigned reading of the int |
| Bits.BinaryRepresentation | src/main/java/utwente/jjw/meijer/hll/HLLCounter.java:247-249 | `intToBinaryRepresentation` (pad with spaces to 32, then turn the spaces into '0') gives 32 binary digits whose value is the fingerprint |
| Bits.BinaryRepresentationUnique | src/main/java/utwente/jjw/meijer/hll/HLLCounter.java:247-249 | no other 32-digit binary string has that value, so the representation is fixed by the fingerprint |
| Hll.RegisterIndex | src/main/java/utwente/jjw/meijer/hll/HLLCounter.java:190-193 | `getRegisterIndex` is the top b bits and always names one of the 2^b registers |
| Hll.SplitFingerprint | src/main/java/utwente/jjw/meijer/hll/HLLCounter.java:190-204 | the index and the low 32 - b bits together give back the fingerprint |
| Hll.LeadingZeroes | src/main/java/utwente/jjw/meijer/hll/HLLCounter.java:200-204 | `getLeadingZeroes` is in 0..32, is 32 exactly when all non-index bits are zero, and otherwise bounds the low bits between two powers of 2 |
| Hll.LeadingZeroesOfShift | src/main/java/utwente/jjw/meijer/hll/HLLCounter.java:202-203 | the leading zeros of `hash << b` are the leading zeros of the low field |
| Hll.RankOf | src/main/java/utwente/jjw/meijer/hll/HLLCounter.java:50 | the stored rank is in 1..32 - b when some low bit is set and 33 when all low bits are zero, so the byte cast never wraps |
| Hll.RaiseEffect | src/main/java/utwente/jjw/meijer/hll/HLLCounter.java:46-58 | raising a register: the result dominates the old registers, only the indexed register changes, and it changes iff the rank was larger |
| Hll.UnionLeastUpperBound | src/main/java/utwente/jjw/meijer/hll/HLLCounter.java:225-239 | the union dominates both counters and is dominated by every common upper bound |
| Hll.UnionChanges | src/main/java/utwente/jjw/meijer/hll/HLLCounter.java:225-239 | the union changes a counter iff the other counter is larger in some register |
| Hll.UnionIdempotent | src/main/java/utwente/jjw/meijer/hll/HLLCounter.java:225-239 | repeating a union changes nothing and reports no change |
| Hll.UnionCommutes | src/main/java/utwente/jjw/meijer/hll/HLLCounter.java:225-239 | unioning a into a copy of b gives the registers of unioning b into a copy of a |
| Hll.CountZerosShrinks | src/main/java/utwente/jjw/meijer/hll/HLLCounter.java:209-215 | after `add` or `union`, which only raise registers, there are no more empty registers than before |
| Hll.CountZerosOfZeros | src/main/java/utwente/jjw/meijer/hll/HLLCounter.java:24-29 | a new counter has all its registers empty |
| Hll.RecordsUnion | src/main/java/utwente/jjw/meijer/hll/HLLCounter.java:225-239 | the pointwise maximum of registers recording S and registers recording T records S + T |
| Hll.RecordsUnique | src/main/java/utwente/jjw/meijer/hll/HLLCounter.java:46-58 | registers recording the same items are equal |
| Hll.SketchEmpty | src/main/java/utwente/jjw/meijer/hll/HLLCounter.java:24-29 | a new counter is a counter of the empty set |
| Hll.SketchAdd | src/main/java/utwente/jjw/meijer/hll/HLLCounter.java:46-58 | `add(x)` turns a counter of S into a counter of S + {x} |
| Hll.SketchUnion | src/main/java/utwente/jjw/meijer/hll/HLLCounter.java:225-239 | `union` of counters of S and T is a counter of S + T |
| Hll.SketchUnique | src/main/java/utwente/jjw/meijer/hll/HLLCounter.java:46-58 | the registers depend only on the set of items added, not on the order or repetition of additions |
| Hll.HLLCounter.GetRegister | src/main/java/utwente/jjw/meijer/hll/HLLCounter.java:85-87 | `getRegister(j)` is register j of the array |
| Hll.HLLCounter.GetNumberOfRegisters | src/main/java/utwente/jjw/meijer/hll/HLLCounter.java:93-95 | a counter with b index bits has 2^b registers |
| Hll.HLLCounter.constructor | src/main/java/utwente/jjw/meijer/hll/HLLCounter.java:24-29 | a new counter keeps b and has 2^b zero registers in a fresh array |
| Hll.HLLCounter.Copy | src/main/java/utwente/jjw/meijer/hll/HLLCounter.java:35-39 | the copy has the same b and equal registers in a fresh array, so later changes to either leave the other alone |
| Hll.HLLCounter.Add | src/main/java/utwente/jjw/meijer/hll/HLLCounter.java:46-58 | `add` raises the register at the item's index to the item's rank, touches no other register, and returns true iff that register grew |
| Hll.HLLCounter.EmptyRegisters | src/main/java/utwente/jjw/meijer/hll/HLLCounter.java:209-215 | `emptyRegisters` is the number of zero registers |
| Hll.HLLCounter.Union | src/main/java/utwente/jjw/meijer/hll/HLLCounter.java:225-239 | `union` sets each register to the maximum of both counters, reads the other counter only (even when it is the same counter), and returns true iff some register grew |
| Distribution.SumUpdate | src/main/java/utwente/jjw/meijer/hyperball/DistanceDistribution.java:114-116 | storing v at distance k changes the sum of all counts by v minus the old count of k |
| Distribution.DistanceDistribution.GetValue | src/main/java/utwente/jjw/meijer/hyperball/DistanceDistribution.java:101-108 | `getValue` of an absent distance is 0 |
| Distribution.DistanceDistribution.Distances | src/main/java/utwente/jjw/meijer/hyperball/DistanceDistribution.java:122-124 | `iterator` visits the stored distances, and every other distance reads as 0 |
| Distribution.DistanceDistribution.constructor | src/main/java/utwente/jjw/meijer/hyperball/DistanceDistribution.java:44-47 | a new distribution reads 0 everywhere and totals 0 |
| Distribution.DistanceDistribution.SetNumberOfPairs | src/main/java/utwente/jjw/meijer/hyperball/DistanceDistribution.java:49-52 | the distance reads n, every other distance is unchanged, the total moves by n minus the old count, and the distance joins the keys |
| Distribution.DistanceDistribution.IncrementNumberOfPairs | src/main/java/utwente/jjw/meijer/hyperball/DistanceDistribution.java:59-70 | the count goes up by one (from 0 when absent) and is returned, every other distance is unchanged, the total goes up by one, and the distance joins the keys |
| Distribution.DistanceDistribution.IncreaseNumberOfPairs | src/main/java/utwente/jjw/meijer/hyperball/DistanceDistribution.java:78-94 | the count goes up by the signed increase in both branches, without clamping, and is returned; every other distance is unchanged, the total moves by the increase, and the distance joins the keys |
| Distribution.DistanceDistribution.GetTotal | src/main/java/utwente/jjw/meijer/hyperball/DistanceDistribution.java:114-116 | `getTotal` is the sum of all stored counts |
| Distribution.SampleTotal | src/main/java/utwente/jjw/meijer/hyperball/DistanceDistribution.java:336-343 | the sample distribution 10, 20, 40, 70, 50, 20 at distances 1..6 totals 210 |
| Probability.ProbabilityDistribution.GetValue | src/main/java/utwente/jjw/meijer/hyperball/ProbabilityDistribution.java:26-33 | a distance that was never set reads 0 |
| Probability.ProbabilityDistribution.constructor | src/main/java/utwente/jjw/meijer/hyperball/ProbabilityDistribution.java:16-19 | a new distribution reads 0 everywhere |
| Probability.ProbabilityDistribution.SetDistanceValue | src/main/java/utwente/jjw/meijer/hyperball/ProbabilityDistribution.java:21-24 | the distance then reads the value set, overwriting any earlier one, and every other distance reads as before |
| Graphs.BallStep | src/main/java/utwente/jjw/meijer/hyperball/BfsTraversal.java:104-112 | a node is within t + 1 steps of v iff it is within t steps of v or of one of v's successors |
| Graphs.BallExtend | src/main/java/utwente/jjw/meijer/hyperball/BfsTraversal.java:104-112 | a successor of a node within d steps is within d + 1 steps |
| Graphs.BallSplit | src/main/java/utwente/jjw/meijer/hyperball/BfsTraversal.java:104-112 | a node within d + 1 steps is within d steps or a successor of a node within d steps |
| Graphs.ClosedContainsBall | src/main/java/utwente/jjw/meijer/hyperball/BfsTraversal.java:50-62 | a node set closed under successors that contains v contains every ball around v |
| Graphs.LayersDisjoint | src/main/java/utwente/jjw/meijer/hyperball/BfsTraversal.java:110 | a node has only one distance from the source |
| Bfs.NewBfsTraversal | src/main/java/utwente/jjw/meijer/hyperball/BfsTraversal.java:27-33 | construction fails exactly when the graph lacks random access |
| Bfs.RecordedFacts | src/main/java/utwente/jjw/meijer/hyperball/BfsTraversal.java:96-118 | unpacks the search invariant that the loops keep: the order starts with the source at distance 0, holds only nodes of the graph, records each entry at its shortest-path distance, and the i-th entry is at distance at most i |
| Bfs.RecordedSorted | src/main/java/utwente/jjw/meijer/hyperball/BfsTraversal.java:96-118 | the nodes leave the FIFO queue in non-decreasing order of distance |
| Bfs.RecordedDistinct | src/main/java/utwente/jjw/meijer/hyperball/BfsTraversal.java:56-59 | no node is discovered, listed or enqueued twice |
| Bfs.RecordedBound | src/main/java/utwente/jjw/meijer/hyperball/BfsTraversal.java:90-118 | a search discovers at most as many nodes as the graph has |
| Bfs.FinishedReach | src/main/java/utwente/jjw/meijer/hyperball/BfsTraversal.java:50-62 | once the queue is empty the discovered nodes are exactly the nodes reachable from the source |
| Bfs.FinishedLayer | src/main/java/utwente/jjw/meijer/hyperball/BfsTraversal.java:101-118 | once the queue is empty, each distance d >= 1 has as many discoveries as there are nodes at distance exactly d |
| Bfs.GetReachableNodes | src/main/java/utwente/jjw/meijer/hyperball/BfsTraversal.java:35-67 | the result starts with v, has no duplicates and holds exactly the nodes reachable from v |
| Bfs.ExploreSuccessors | src/main/java/utwente/jjw/meijer/hyperball/BfsTraversal.java:52-61 | the successor loop keeps the search state: every new successor is marked, listed and enqueued one step further away |
| Bfs.VisitSuccessors | src/main/java/utwente/jjw/meijer/hyperball/BfsTraversal.java:104-117 | the successor loop keeps the search state and counts each new successor once, at its distance |
| Bfs.Conclude | src/main/java/utwente/jjw/meijer/hyperball/BfsTraversal.java:88-119 | a finished search has added the size of layer d at each distance 1 <= d < n, nothing elsewhere, and (reachable nodes - 1) to the total |
| Bfs.UpdateDistanceDistribution | src/main/java/utwente/jjw/meijer/hyperball/BfsTraversal.java:88-119 | one search adds, at each distance d >= 1, the number of nodes at distance exactly d; it never counts the source, touches only distances 1..n - 1, keeps every stored distance, adds new ones only in 1..n - 1, and adds (reachable nodes - 1) to the total |
| Bfs.AccumulateStep | src/main/java/utwente/jjw/meijer/hyperball/BfsTraversal.java:75-78 | one more search extends the pair counts to one more source |
| Bfs.SearchFrom | src/main/java/utwente/jjw/meijer/hyperball/BfsTraversal.java:76-77 | one turn of the node loop: the counts become those of the searches from the sources up to and including this node |
| Bfs.GetDistanceDistribution | src/main/java/utwente/jjw/meijer/hyperball/BfsTraversal.java:70-80 | the count of each distance d >= 1 is the number of pairs at distance exactly d, other distances are absent, and the total is the number of pairs (v, w) with w != v reachable from v |
| HyperBall.NewHyperBall | src/main/java/utwente/jjw/meijer/hyperball/HyperBall.java:27-35 | the constructor as written fails exactly for a graph without random access or more than 32 bits |
| HyperBall.JavaSplitAgrees | src/main/java/utwente/jjw/meijer/hll/HLLCounter.java:27 | for 1..30 bits, Java's `(int) Math.pow(2, b)` and `hash >>> (32 - b)` are the model's register count and index, and the index is in range |
| HyperBall.GuardAcceptsOutOfRange | src/main/java/utwente/jjw/meijer/hyperball/HyperBall.java:30 | the guard as written accepts 0 and 31 bits, for which `add` indexes past the register array |
| HyperBall.NewCheckedHyperBall | src/main/java/utwente/jjw/meijer/hyperball/HyperBall.java:27-35 | the corrected guard accepts exactly 1..30 bits on a random-access graph, and every index is then in range |
| HyperBall.UnionOverMax | src/main/java/utwente/jjw/meijer/hyperball/HyperBall.java:61-68 | each register of the copy after the successor loop is the maximum of the node's register and its successors' registers |
| HyperBall.StepDominates | src/main/java/utwente/jjw/meijer/hyperball/HyperBall.java:59-68 | a round only raises registers: each new counter dominates its old value and each successor's old value |
| HyperBall.FixedPointDominates | src/main/java/utwente/jjw/meijer/hyperball/HyperBall.java:49-81 | at a round that changes nothing, every counter dominates its successors' counters |
| HyperBall.ExitDominates | src/main/java/utwente/jjw/meijer/hyperball/HyperBall.java:49-81 | the counters the loop ends with dominate their successors' counters |
| HyperBall.PotentialShrinks | src/main/java/utwente/jjw/meijer/hyperball/HyperBall.java:49-81 | registers bounded by 33 that only grow leave less room to grow, strictly less when one grew |
| HyperBall.StepPotential | src/main/java/utwente/jjw/meijer/hyperball/HyperBall.java:49-81 | each round that changes a counter lowers a bounded measure, so the loop terminates |
| HyperBall.UnionOverRecords | src/main/java/utwente/jjw/meijer/hyperball/HyperBall.java:61-68 | the union with the successors' counters records the node's ball together with the successors' balls |
| HyperBall.StepRecords | src/main/java/utwente/jjw/meijer/hyperball/HyperBall.java:56-79 | a round turns counters of the balls of radius t - 1 into counters of the balls of radius t |
| HyperBall.InitialSketches | src/main/java/utwente/jjw/meijer/hyperball/HyperBall.java:90-104 | after `initializeCounters` the counter of v is a counter of {v}, the ball of radius 0 |
| HyperBall.IterateSketches | src/main/java/utwente/jjw/meijer/hyperball/HyperBall.java:49-81 | after t rounds, the counter of v is a counter of exactly the nodes within t steps of v |
| HyperBall.StableBallsStableRound | src/main/java/utwente/jjw/meijer/hyperball/HyperBall.java:49-81 | once no ball grows from radius r to r + 1, round r + 1 changes no counter |
| HyperBall.RoundsWithinRadius | src/main/java/utwente/jjw/meijer/hyperball/HyperBall.java:49-81 | the loop runs at most r + 1 rounds when no ball grows beyond radius r |
| HyperBall.GrowthOfFixedPoint | src/main/java/utwente/jjw/meijer/hyperball/HyperBall.java:70-73 | a round that changes no counter adds 0 to its distance |
| HyperBall.DominatesChange | src/main/java/utwente/jjw/meijer/hyperball/HyperBall.java:66-67 | a counter raised twice differs from where it started iff either raise changed it |
| HyperBall.UnionOverStep | src/main/java/utwente/jjw/meijer/hyperball/HyperBall.java:65-67 | one more successor's union changes the copy from the original iff it had already changed or this union raised a register |
| HyperBall.NewCounters | src/main/java/utwente/jjw/meijer/hyperball/HyperBall.java:92-95 | n fresh counters with b bits and zero registers, each with its own array |
| HyperBall.InitializeCounters | src/main/java/utwente/jjw/meijer/hyperball/HyperBall.java:90-104 | after `initializeCounters`, each node's counter has every register zero except the one at the node's index, which holds the node's rank |
| HyperBall.UnionSuccessors | src/main/java/utwente/jjw/meijer/hyperball/HyperBall.java:59-68 | the copy ends as the union of the node's counter with all successors' counters, the old counters are only read, and the flag is set iff it was set or the copy differs from the original |
| HyperBall.AdvanceNode | src/main/java/utwente/jjw/meijer/hyperball/HyperBall.java:57-73 | one node: its new counter is stored, the flag is updated and its size growth is added at distance t + 1 |
| HyperBall.NextCounters | src/main/java/utwente/jjw/meijer/hyperball/HyperBall.java:51-76 | the node loop yields fresh counters holding the next round, leaves the old counters untouched, sets the flag iff some counter changed, and changes the distribution only at t + 1, by the sum of the size growths |
| HyperBall.TalliedStep | src/main/java/utwente/jjw/meijer/hyperball/HyperBall.java:73 | adding round t + 1's growth at t + 1 extends the tally of distances 1..t to 1..t + 1 |
| HyperBall.TalliedAtFixedPoint | src/main/java/utwente/jjw/meijer/hyperball/HyperBall.java:66-73 | after the last round, whose growth is zero, every distance outside 1..rounds - 1 reads 0 |
| HyperBall.RoundsChangeEach | src/main/java/utwente/jjw/meijer/hyperball/HyperBall.java:49-50 | every round before the last changed some counter |
| HyperBall.NextRound | src/main/java/utwente/jjw/meijer/hyperball/HyperBall.java:50-80 | one round: the counters move to the next round, the tally gains one distance, and the measure of room to grow drops whenever the flag stays set |
| HyperBall.RunRounds | src/main/java/utwente/jjw/meijer/hyperball/HyperBall.java:48-81 | the outer loop ends at a round that changed no counter, with the full tally |
| HyperBall.RoundsFinished | src/main/java/utwente/jjw/meijer/hyperball/HyperBall.java:49-83 | at loop exit at least one round ran, the last changed nothing, every earlier one changed something, and the tally is final |
| HyperBall.GetDistanceDistribution | src/main/java/utwente/jjw/meijer/hyperball/HyperBall.java:41-84 | `getDistanceDistribution` terminates at the fixed point; the count of distance d is the size growth of round d, and every other distance reads 0 |

## Left out

- The cardinality estimator (`calculateAm`, `getZ`, `getE`, `getSize`, HLLCounter.java lines 65-182) is floating-point arithmetic. It is the parameter `size`, so the model proves the counts equal the growth of `size` and says nothing about how close that is to the exact counts.
- `NodeHasher.hash` (MurmurHash through Guava) is the parameter `hash`. NodeHasher.java and Hash.java are not part of this model.
- Fingerprints are the unsigned reading of a Java `int`, a number below 2^32, not a bit-vector. `>>>`, `<<` and `numberOfLeadingZeros` are defined on that reading. Signedness does not matter, because all three act on the bits alone.
- Registers are the range 0..33 instead of Java `byte`. Every value stored is in 1..33, so the byte cast and the signed byte comparisons never wrap.
- Counts are unbounded integers. A Java `long` overflow in a count or in `getTotal` is not modelled.
- `HashMap` iteration order is not modelled: `iterator` is the set of stored distances, and `GetTotal` sums the stored counts in an arbitrary order.
- The statistics of DistanceDistribution (probability mass, mean, variance, dispersion), its charts, printing and serialization, and all `main` methods are left out as floating-point or I/O code. The exception is the sample distribution of `main`, whose total is `SampleTotal`.
- `HyperBall.analyzeGraph` is left out as I/O. So are Graphs.java (loading and generating WebGraph graphs), GraphAnalyzer.java, App.java, ResultAnalyzer.java, ResultLoader.java and the progress and memory utilities: none is part of this model.
- Graphs are successor lists whose entries are all nodes, with the random-access capability as a flag. The `LazyIntIterator` becomes indexing into the successor list, and the queues of both searches and the list of reachable nodes are sequences.
- The bodies of the HyperBall loops are separate methods (`AdvanceNode`, `NextRound`, `RunRounds`, and `SearchFrom` in the BFS). Each returns the next index, where the source writes `node`, `t + 1` or the next node of the iterator.
- `HyperBall.GetDistanceDistribution` also returns the number of rounds as a ghost value, so that its contract can name them.
- Hll.HLLCounter.constructor: requires 1..30 index bits. Java accepts any b. For every other b the counter does not have 2^b registers indexed by the top b bits, because `(int) Math.pow(2, b)` saturates at 2^31 - 1 and Java uses only the low 5 bits of a shift count. For b <= 0, 31 and 32 `add` can also index past the array (see Findings). The same holds for b = 63 and 64, which only a direct `new HLLCounter(b)` can reach. For b = 33..62 every index stays in range.
- Hll.HLLCounter.Union: requires the other counter to have at least as many registers. With fewer, Java throws `ArrayIndexOutOfBoundsException`, which the model does not represent.
- HyperBall.GetDistanceDistribution: requires 1..30 index bits, the bit counts the corrected guard `NewCheckedHyperBall` accepts. It does not model the out-of-range failure that the constructor as written lets through.
- Hll.HLLCounter.GetRegister: requires 0 <= j < 2^b. Java throws `ArrayIndexOutOfBoundsException` for any other j, which the model does not represent.
- Bfs.GetReachableNodes: requires v to be a node of the graph. Java throws `ArrayIndexOutOfBoundsException` at `discovered[v] = true` for any other v, which the model does not represent.
- Distribution.DistanceDistribution.SetNumberOfPairs: takes an integer count. Java accepts any `Number` and stores its `longValue()`, so a fractional count is truncated (`setNumberOfPairs(1, 2.7)` stores 2). Every caller in the core passes an `int`.
- Distribution.DistanceDistribution.IncreaseNumberOfPairs: the diagnostic `NEGATIVE` line that Java prints when a stored count becomes negative is left out as I/O. The count is stored all the same, as in the model.
- The 64-bit `add(long)` that `HyperLogLogTest` calls does not exist in HLLCounter.java, so only the 32-bit split is modelled. The code has no cap on the number of rounds and no 64-bit fingerprints, and the model follows it: termination is proved, not enforced by a bound.

## Findings

| source | as written | input that shows it | evidently intended | confidence | as-written member | corrected member |
|---|---|---|---|---|---|---|
| src/main/java/utwente/jjw/meijer/hyperball/HyperBall.java:30 | the constructor rejects only `numberOfBits > 32`, so 0, 31, 32 and negative bit counts reach `new HLLCounter(b)` | `numberOfBits = 0`: one register, but `hash >>> 32` shifts by 0 and the index of hash 1 is 1. `numberOfBits = 31`: `(int) Math.pow(2, 31)` saturates to 2^31 - 1 registers, but hash 0xFFFFFFFF has index 2^31 - 1 | accept only bit counts for which every index names a register, that is 1..30 | high; not executed | HyperBall.GuardAcceptsOutOfRange | HyperBall.NewCheckedHyperBall |

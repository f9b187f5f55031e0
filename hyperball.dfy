/**
 * HyperBall: the approximate distance distribution of a graph.
 *
 * Every node keeps a HyperLogLog counter, first holding just the node. In
 * round t every node's counter becomes the union of its own counter and the
 * counters of its successors from round t - 1, so that after t rounds the
 * counter of v sketches the ball of radius t around v. The growth of the
 * estimated ball sizes in round t is the number of pairs at distance t. The
 * rounds stop as soon as one leaves every counter unchanged.
 *
 * The hash of a node and the cardinality estimate of a counter are
 * parameters: the first is a MurmurHash of the node number, the second a
 * floating-point computation over the registers.
 */
module HyperBall {
  import opened Bits
  import opened Hll
  import opened Graphs
  import opened Distribution

  /** A HyperBall run over a graph with 2^numberOfBits registers per counter. */
  datatype HyperBall = HyperBall(graph: Graph, numberOfBits: int)

  /**
   * `HyperBall(graph, numberOfBits)` as written: it rejects a graph without
   * random access and more than 32 bits, and nothing else.
   */
  function NewHyperBall(graph: Graph, numberOfBits: int): (r: Outcome<HyperBall>)
    ensures r.Success? <==> graph.randomAccess && numberOfBits <= 32
    ensures r.Success? ==> r.value == HyperBall(graph, numberOfBits)
  {
    if !graph.randomAccess then Failure("Graph must allow for random access")
    else if numberOfBits > 32 then Failure("Number of Bits is too large")
    else Success(HyperBall(graph, numberOfBits))
  }

  // ---------------------------------------------------------------------
  // The bit guard
  // ---------------------------------------------------------------------

  /**
   * The number of registers `(int) Math.pow(2, b)` allocates: a fraction
   * below 1 for negative b truncates to 0, and from b = 31 on the power
   * saturates at the largest `int`, 2^31 - 1.
   */
  function JavaRegisterCount(b: int): nat
  {
    if b < 0 then 0 else if b <= 30 then Pow2(b) else 0x7FFF_FFFF
  }

  /**
   * The index `hash >>> (32 - b)` computes for b <= 32: Java uses only the
   * low five bits of a shift distance, so b = 0 shifts by 0 and keeps the
   * whole hash.
   */
  function JavaRegisterIndex(b: int, h: Fingerprint): nat
    requires b <= 32
  {
    ShiftRight(h, (32 - b) % 32)
  }

  /** For the bit counts the counter supports, the Java index and register count are the model's. */
  lemma JavaSplitAgrees(b: int, h: Fingerprint)
    requires ValidBits(b)
    ensures JavaRegisterCount(b) == Pow2(b)
    ensures JavaRegisterIndex(b, h) == RegisterIndex(b, h) < JavaRegisterCount(b)
  {
    var s := 32 - b;
    assert 2 <= s < 32 && s % 32 == s;
    assert JavaRegisterIndex(b, h) == ShiftRight(h, s) == RegisterIndex(b, h);
  }

  /**
   * The guard as written accepts bit counts for which `add` indexes past the
   * register array: with b = 0 there is one register but the index is the
   * whole hash, and with b = 31 there are 2^31 - 1 registers but the index
   * of the hash 0xFFFFFFFF is 2^31 - 1.
   */
  lemma GuardAcceptsOutOfRange()
    ensures NewHyperBall(Graph([[]], true), 0).Success? && JavaRegisterIndex(0, 1) >= JavaRegisterCount(0)
    ensures NewHyperBall(Graph([[]], true), 31).Success?
      && JavaRegisterIndex(31, 0xFFFF_FFFF) >= JavaRegisterCount(31)
  {
    assert Pow2(1) == 2;
    assert JavaRegisterIndex(31, 0xFFFF_FFFF) == 0x7FFF_FFFF;
  }

  /**
   * The guard the counter needs: random access and 1 to 30 index bits. Every
   * index `add` computes is then a register of the counter.
   */
  function NewCheckedHyperBall(graph: Graph, numberOfBits: int): (r: Outcome<HyperBall>)
    ensures r.Success? <==> graph.randomAccess && 1 <= numberOfBits <= 30
    ensures r.Success? ==> r.value == HyperBall(graph, numberOfBits)
    ensures r.Success? ==> forall h: Fingerprint :: JavaRegisterIndex(numberOfBits, h) < JavaRegisterCount(numberOfBits)
  {
    if !graph.randomAccess then Failure("Graph must allow for random access")
    else if numberOfBits > 30 then Failure("Number of Bits is too large")
    else if numberOfBits < 1 then Failure("Number of Bits is too small")
    else
      assert forall h: Fingerprint :: JavaRegisterIndex(numberOfBits, h) < JavaRegisterCount(numberOfBits) by {
        forall h: Fingerprint
          ensures JavaRegisterIndex(numberOfBits, h) < JavaRegisterCount(numberOfBits)
        {
          JavaSplitAgrees(numberOfBits, h);
        }
      }
      Success(HyperBall(graph, numberOfBits))
  }

  // ---------------------------------------------------------------------
  // Register states of all counters
  // ---------------------------------------------------------------------

  /** Every node's counter has m registers. */
  ghost predicate Uniform(regs: seq<seq<Rank>>, m: nat)
  {
    forall v :: 0 <= v < |regs| ==> |regs[v]| == m
  }

  /** The registers of a fresh counter after adding one item with fingerprint h. */
  function SingletonRegisters(b: int, h: Fingerprint): (r: seq<Rank>)
    requires ValidBits(b)
    ensures |r| == Pow2(b)
  {
    Raise(Zeros(Pow2(b)), RegisterIndex(b, h), RankOf(b, h))
  }

  /** The registers after `initializeCounters`: node v's counter holds just v. */
  function InitialRegisters(b: int, hash: int -> Fingerprint, n: nat): (regs: seq<seq<Rank>>)
    requires ValidBits(b)
    ensures |regs| == n && Uniform(regs, Pow2(b))
  {
    var regs := seq(n, v requires 0 <= v < n => SingletonRegisters(b, hash(v)));
    assert forall v :: 0 <= v < n ==> regs[v] == SingletonRegisters(b, hash(v));
    regs
  }

  /** r unioned, in order, with the registers of the nodes of ws. */
  function UnionOver(r: seq<Rank>, regs: seq<seq<Rank>>, ws: seq<nat>): (u: seq<Rank>)
    requires Uniform(regs, |r|) && forall i :: 0 <= i < |ws| ==> ws[i] < |regs|
    ensures |u| == |r|
    decreases |ws|
  {
    if ws == [] then r
    else UnionRegisters(UnionOver(r, regs, ws[..|ws| - 1]), regs[ws[|ws| - 1]])
  }

  /** One round: each node's registers unioned with those of its successors in the previous round. */
  function Step(g: Graph, m: nat, regs: seq<seq<Rank>>): (next: seq<seq<Rank>>)
    requires ValidGraph(g) && |regs| == NumNodes(g) && Uniform(regs, m)
    ensures |next| == |regs| && Uniform(next, m)
  {
    seq(|regs|, v requires 0 <= v < |regs| => UnionOver(regs[v], regs, Succ(g, v)))
  }

  /** The registers after t rounds. */
  function Iterate(g: Graph, m: nat, init: seq<seq<Rank>>, t: nat): (regs: seq<seq<Rank>>)
    requires ValidGraph(g) && |init| == NumNodes(g) && Uniform(init, m)
    ensures |regs| == NumNodes(g) && Uniform(regs, m)
  {
    if t == 0 then init else Step(g, m, Iterate(g, m, init, t - 1))
  }

  // ---------------------------------------------------------------------
  // The union of a node with its successors is their pointwise maximum
  // ---------------------------------------------------------------------

  /**
   * Each register of the union over ws is at least r's and every listed
   * node's register, and it equals one of them.
   */
  lemma {:induction false} UnionOverMax(r: seq<Rank>, regs: seq<seq<Rank>>, ws: seq<nat>, i: nat)
    requires Uniform(regs, |r|) && (forall j :: 0 <= j < |ws| ==> ws[j] < |regs|) && i < |r|
    ensures r[i] <= UnionOver(r, regs, ws)[i]
    ensures forall j :: 0 <= j < |ws| ==> regs[ws[j]][i] <= UnionOver(r, regs, ws)[i]
    ensures UnionOver(r, regs, ws)[i] == r[i] ||
      exists j :: 0 <= j < |ws| && UnionOver(r, regs, ws)[i] == regs[ws[j]][i]
    decreases |ws|
  {
    if ws != [] {
      var ws' := ws[..|ws| - 1];
      UnionOverMax(r, regs, ws', i);
      forall j | 0 <= j < |ws'|
        ensures ws'[j] == ws[j]
      {
      }
    }
  }

  /** One round only raises registers: each counter dominates its previous value and its successors' values. */
  lemma StepDominates(g: Graph, m: nat, regs: seq<seq<Rank>>, v: nat)
    requires ValidGraph(g) && |regs| == NumNodes(g) && Uniform(regs, m) && v < |regs|
    ensures Dominates(Step(g, m, regs)[v], regs[v])
    ensures forall j :: 0 <= j < |Succ(g, v)| ==> Dominates(Step(g, m, regs)[v], regs[Succ(g, v)[j]])
  {
    forall i | 0 <= i < m
      ensures regs[v][i] <= Step(g, m, regs)[v][i]
      ensures forall j :: 0 <= j < |Succ(g, v)| ==> regs[Succ(g, v)[j]][i] <= Step(g, m, regs)[v][i]
    {
      UnionOverMax(regs[v], regs, Succ(g, v), i);
    }
  }

  /**
   * A round that changes nothing leaves every counter dominating the
   * counters of its successors: the state at which the iteration stops.
   */
  lemma FixedPointDominates(g: Graph, m: nat, regs: seq<seq<Rank>>)
    requires ValidGraph(g) && |regs| == NumNodes(g) && Uniform(regs, m) && Step(g, m, regs) == regs
    ensures forall v, j :: 0 <= v < |regs| && 0 <= j < |Succ(g, v)| ==> Dominates(regs[v], regs[Succ(g, v)[j]])
  {
    forall v | 0 <= v < |regs|
      ensures forall j :: 0 <= j < |Succ(g, v)| ==> Dominates(regs[v], regs[Succ(g, v)[j]])
    {
      StepDominates(g, m, regs, v);
    }
  }

  // ---------------------------------------------------------------------
  // Termination: registers are bounded by 33 and only grow
  // ---------------------------------------------------------------------

  /** How far the registers of one counter can still grow. */
  function Room(r: seq<Rank>): nat
  {
    if r == [] then 0 else Room(r[..|r| - 1]) + (33 - r[|r| - 1])
  }

  /** How far the registers of all counters can still grow. */
  function Potential(regs: seq<seq<Rank>>): nat
  {
    if regs == [] then 0 else Potential(regs[..|regs| - 1]) + Room(regs[|regs| - 1])
  }

  /** Raising registers shrinks the room, strictly when some register grew. */
  lemma {:induction false} RoomShrinks(s: seq<Rank>, t: seq<Rank>)
    requires Dominates(t, s)
    ensures Room(t) <= Room(s)
    ensures t != s ==> Room(t) < Room(s)
    decreases |s|
  {
    if s != [] {
      var s', t' := s[..|s| - 1], t[..|t| - 1];
      RoomShrinks(s', t');
      assert s == s' + [s[|s| - 1]];
      assert t == t' + [t[|t| - 1]];
    }
  }

  /** A round lowers the potential, strictly when it changes some counter. */
  lemma {:induction false} PotentialShrinks(regs: seq<seq<Rank>>, regs': seq<seq<Rank>>)
    requires |regs'| == |regs| && forall v :: 0 <= v < |regs| ==> Dominates(regs'[v], regs[v])
    ensures Potential(regs') <= Potential(regs)
    ensures regs' != regs ==> Potential(regs') < Potential(regs)
    decreases |regs|
  {
    if regs != [] {
      var k := |regs| - 1;
      PotentialShrinks(regs[..k], regs'[..k]);
      RoomShrinks(regs[k], regs'[k]);
      assert regs == regs[..k] + [regs[k]];
      assert regs' == regs'[..k] + [regs'[k]];
    }
  }

  /** The potential after a round: never higher, and lower whenever the round changed anything. */
  lemma StepPotential(g: Graph, m: nat, regs: seq<seq<Rank>>)
    requires ValidGraph(g) && |regs| == NumNodes(g) && Uniform(regs, m)
    ensures Potential(Step(g, m, regs)) <= Potential(regs)
    ensures Step(g, m, regs) != regs ==> Potential(Step(g, m, regs)) < Potential(regs)
  {
    forall v | 0 <= v < |regs|
      ensures Dominates(Step(g, m, regs)[v], regs[v])
    {
      StepDominates(g, m, regs, v);
    }
    PotentialShrinks(regs, Step(g, m, regs));
  }

  // ---------------------------------------------------------------------
  // What the counters count: the balls around the nodes
  // ---------------------------------------------------------------------

  /**
   * Every node's registers record the ball of radius t around it, items
   * being placed by index and rank. The lemmas below hold for any
   * placement; a counter's placement comes from the hash of the node.
   */
  ghost predicate RecordsBalls(g: Graph, index: int -> nat, rank: int -> Rank, regs: seq<seq<Rank>>, t: nat)
  {
    forall v :: 0 <= v < |regs| ==> Records(index, rank, regs[v], Ball(g, v, t))
  }

  /** r recording S, unioned with the registers of the nodes of ws, records S and the balls around ws. */
  lemma {:induction false} UnionOverRecords(g: Graph, index: int -> nat, rank: int -> Rank, r: seq<Rank>,
                                            S: set<nat>, regs: seq<seq<Rank>>, ws: seq<nat>, t: nat)
    requires Records(index, rank, r, S) && Uniform(regs, |r|)
    requires forall i :: 0 <= i < |ws| ==> ws[i] < |regs|
    requires RecordsBalls(g, index, rank, regs, t)
    ensures Records(index, rank, UnionOver(r, regs, ws), S + BallsOf(g, ws, t))
    decreases |ws|
  {
    if ws == [] {
      assert S + BallsOf(g, ws, t) == S;
    } else {
      var ws', w := ws[..|ws| - 1], ws[|ws| - 1];
      UnionOverRecords(g, index, rank, r, S, regs, ws', t);
      RecordsUnion(index, rank, UnionOver(r, regs, ws'), regs[w], S + BallsOf(g, ws', t), Ball(g, w, t));
      assert S + BallsOf(g, ws', t) + Ball(g, w, t) == S + BallsOf(g, ws, t);
    }
  }

  /** A round turns registers recording the balls of radius t - 1 into registers recording those of radius t. */
  lemma StepRecords(g: Graph, index: int -> nat, rank: int -> Rank, m: nat, regs: seq<seq<Rank>>, t: nat)
    requires ValidGraph(g) && |regs| == NumNodes(g) && Uniform(regs, m)
    requires t >= 1 && RecordsBalls(g, index, rank, regs, t - 1)
    ensures RecordsBalls(g, index, rank, Step(g, m, regs), t)
  {
    forall v | 0 <= v < |regs|
      ensures Records(index, rank, Step(g, m, regs)[v], Ball(g, v, t))
    {
      UnionOverRecords(g, index, rank, regs[v], Ball(g, v, t - 1), regs, Succ(g, v), t - 1);
    }
  }

  /** After t rounds from registers recording each node alone, they record the balls of radius t. */
  lemma {:induction false} IterateRecords(g: Graph, index: int -> nat, rank: int -> Rank, m: nat,
                                          init: seq<seq<Rank>>, t: nat)
    requires ValidGraph(g) && |init| == NumNodes(g) && Uniform(init, m)
    requires RecordsBalls(g, index, rank, init, 0)
    ensures RecordsBalls(g, index, rank, Iterate(g, m, init, t), t)
  {
    if t > 0 {
      IterateRecords(g, index, rank, m, init, t - 1);
      StepRecords(g, index, rank, m, Iterate(g, m, init, t - 1), t);
    }
  }

  /** Initially the counter of every node sketches the node alone, its ball of radius 0. */
  lemma InitialSketches(g: Graph, b: int, hash: int -> Fingerprint)
    requires ValidBits(b)
    ensures RecordsBalls(g, ItemIndex(b, hash), ItemRank(b, hash), InitialRegisters(b, hash, NumNodes(g)), 0)
  {
    forall v: nat | v < NumNodes(g)
      ensures Sketches(b, hash, SingletonRegisters(b, hash(v)), Ball(g, v, 0))
    {
      SketchEmpty(b, hash);
      SketchAdd(b, hash, Zeros(Pow2(b)), {}, v);
      assert {} + {v} == Ball(g, v, 0);
    }
  }

  /** After t rounds the counter of every node v sketches exactly the nodes within distance t of v. */
  lemma IterateSketches(g: Graph, b: int, hash: int -> Fingerprint, t: nat)
    requires ValidBits(b) && ValidGraph(g)
    ensures forall v :: 0 <= v < NumNodes(g) ==>
      Sketches(b, hash, Iterate(g, Pow2(b), InitialRegisters(b, hash, NumNodes(g)), t)[v], Ball(g, v, t))
  {
    InitialSketches(g, b, hash);
    IterateRecords(g, ItemIndex(b, hash), ItemRank(b, hash), Pow2(b), InitialRegisters(b, hash, NumNodes(g)), t);
  }

  // ---------------------------------------------------------------------
  // The distance distribution
  // ---------------------------------------------------------------------

  /** The growth of the estimated sizes of the counters of the nodes below k from regs to regs'. */
  function Growth(size: seq<Rank> -> int, regs: seq<seq<Rank>>, regs': seq<seq<Rank>>, k: nat): int
    requires k <= |regs| && k <= |regs'|
  {
    if k == 0 then 0 else Growth(size, regs, regs', k - 1) + (size(regs'[k - 1]) - size(regs[k - 1]))
  }

  /** The growth over one more node adds that node's growth. */
  lemma GrowthStep(size: seq<Rank> -> int, regs: seq<seq<Rank>>, regs': seq<seq<Rank>>, k: nat, k': nat)
    requires k < |regs| && k < |regs'| && k' == k + 1
    ensures Growth(size, regs, regs', k') == Growth(size, regs, regs', k) + (size(regs'[k]) - size(regs[k]))
  {
  }

  /** The last round, which changes no counter, adds nothing. */
  lemma {:induction false} GrowthOfFixedPoint(size: seq<Rank> -> int, regs: seq<seq<Rank>>, k: nat)
    requires k <= |regs|
    ensures Growth(size, regs, regs, k) == 0
  {
    if k > 0 {
      GrowthOfFixedPoint(size, regs, k - 1);
    }
  }

  // ---------------------------------------------------------------------
  // Lemmas for the loops
  // ---------------------------------------------------------------------

  /** A counter raised twice differs from where it started iff either raise changed it. */
  lemma DominatesChange(r: seq<Rank>, a: seq<Rank>, a': seq<Rank>)
    requires Dominates(a, r) && Dominates(a', a)
    ensures a' != r <==> a != r || a' != a
  {
    if a != r {
      var i :| 0 <= i < |r| && a[i] != r[i];
      assert a'[i] != r[i];
    } else if a' != a {
      var i :| 0 <= i < |a| && a'[i] != a[i];
      assert a'[i] != r[i];
    }
  }

  /**
   * One more turn of the successor loop: the union over one more successor,
   * which changes the counter from where it started iff it had already
   * changed or this union raised a register.
   */
  lemma UnionOverStep(r: seq<Rank>, regs: seq<seq<Rank>>, ws: seq<nat>, k: nat)
    requires Uniform(regs, |r|) && (forall i :: 0 <= i < |ws| ==> ws[i] < |regs|) && k < |ws|
    ensures UnionOver(r, regs, ws[..k + 1]) == UnionRegisters(UnionOver(r, regs, ws[..k]), regs[ws[k]])
    ensures UnionOver(r, regs, ws[..k + 1]) != r <==>
      UnionOver(r, regs, ws[..k]) != r || exists i :: 0 <= i < |r| && UnionOver(r, regs, ws[..k])[i] < regs[ws[k]][i]
  {
    var a := UnionOver(r, regs, ws[..k]);
    assert ws[..k + 1][..k] == ws[..k];
    forall i | 0 <= i < |r|
      ensures r[i] <= a[i]
    {
      UnionOverMax(r, regs, ws[..k], i);
    }
    UnionLeastUpperBound(a, regs[ws[k]], a);
    UnionChanges(a, regs[ws[k]]);
    DominatesChange(r, a, UnionRegisters(a, regs[ws[k]]));
  }

  /** Two sequences differ on a longer prefix iff they differ on the shorter one or at the next position. */
  lemma PrefixChange<T>(a: seq<T>, b: seq<T>, k: nat, k': nat)
    requires k < |a| == |b| && k' == k + 1
    ensures a[..k'] != b[..k'] <==> a[..k] != b[..k] || a[k] != b[k]
  {
    if a[..k] != b[..k] {
      var i :| 0 <= i < k && a[..k][i] != b[..k][i];
      assert a[..k'][i] != b[..k'][i];
    } else if a[k] != b[k] {
      assert a[..k'][k] != b[..k'][k];
    } else {
      assert a[..k'] == a[..k] + [a[k]] && b[..k'] == b[..k] + [b[k]];
    }
  }

  // ---------------------------------------------------------------------
  // The counter objects
  // ---------------------------------------------------------------------

  /** The first k counters are valid counters with b index bits holding the registers regs[..k]. */
  ghost predicate CountersHold(cs: array<HLLCounter?>, k: nat, b: int, regs: seq<seq<Rank>>)
    reads cs, set v | 0 <= v < k && v < cs.Length && cs[v] != null :: cs[v].counter
  {
    && k <= cs.Length && k <= |regs|
    && forall v :: 0 <= v < k ==>
         cs[v] != null && cs[v].b == b && cs[v].Valid() && cs[v].counter[..] == regs[v]
  }

  /**
   * The first loop of `initializeCounters`: n fresh counters with b index
   * bits and all registers zero. owner tells the register arrays apart:
   * each belongs to one node only.
   */
  method NewCounters(n: nat, b: int) returns (counters: array<HLLCounter?>, ghost owner: map<array<Rank>, nat>)
    requires ValidBits(b)
    ensures fresh(counters) && counters.Length == n
    ensures forall v :: 0 <= v < n ==> counters[v] != null && counters[v].b == b && counters[v].Valid()
    ensures forall v :: 0 <= v < n ==> fresh(counters[v].counter) && counters[v].counter[..] == Zeros(Pow2(b))
    ensures forall v :: 0 <= v < n ==> counters[v].counter in owner && owner[counters[v].counter] == v
  {
    counters := new HLLCounter?[n];
    owner := map[];
    for i := 0 to n
      invariant forall v :: 0 <= v < i ==> counters[v] != null && counters[v].b == b && counters[v].Valid()
      invariant forall v :: 0 <= v < i ==> fresh(counters[v].counter) && counters[v].counter[..] == Zeros(Pow2(b))
      invariant forall v :: 0 <= v < i ==> counters[v].counter in owner && owner[counters[v].counter] == v
    {
      counters[i] := new HLLCounter(b);
      owner := owner[counters[i].counter := i];
    }
  }

  /**
   * `initializeCounters`: a fresh counter per node, into which the node
   * itself has been added.
   */
  method InitializeCounters(hb: HyperBall, hash: int -> Fingerprint) returns (counters: array<HLLCounter?>)
    requires ValidBits(hb.numberOfBits)
    ensures fresh(counters) && counters.Length == NumNodes(hb.graph)
    ensures CountersHold(counters, counters.Length, hb.numberOfBits,
                         InitialRegisters(hb.numberOfBits, hash, NumNodes(hb.graph)))
  {
    var n, b := NumNodes(hb.graph), hb.numberOfBits;
    ghost var owner;
    counters, owner := NewCounters(n, b);
    for node := 0 to n
      invariant forall v :: 0 <= v < n ==> counters[v] != null && counters[v].b == b && counters[v].Valid()
      invariant forall v :: 0 <= v < n ==> fresh(counters[v].counter)
      invariant forall v :: 0 <= v < n ==> counters[v].counter in owner && owner[counters[v].counter] == v
      invariant forall v :: 0 <= v < n ==>
        counters[v].counter[..] == if v < node then SingletonRegisters(b, hash(v)) else Zeros(Pow2(b))
    {
      assert forall v :: 0 <= v < n && v != node ==> counters[v].counter != counters[node].counter;
      var _ := counters[node].Add(node, hash);
    }
    assert forall v :: 0 <= v < n ==> InitialRegisters(b, hash, n)[v] == SingletonRegisters(b, hash(v));
  }

  /**
   * One turn of the node loop of `getDistanceDistribution`, first part: a
   * copy of the counter of node unioned, successor by successor, with the
   * counters of the successors. The flag comes out set iff it went in set or
   * the copy ended up different from the counter it was copied from.
   */
  method UnionSuccessors(g: Graph, counters: array<HLLCounter?>, node: nat, countersChanged: bool,
                         ghost b: int, ghost regs: seq<seq<Rank>>)
    returns (copy: HLLCounter, changed: bool)
    requires ValidGraph(g) && ValidBits(b) && counters.Length == NumNodes(g) == |regs| && node < counters.Length
    requires CountersHold(counters, counters.Length, b, regs)
    ensures fresh(copy) && fresh(copy.counter) && copy.Valid() && copy.b == b
    ensures copy.counter[..] == UnionOver(regs[node], regs, Succ(g, node))
    ensures changed <==> countersChanged || copy.counter[..] != regs[node]
  {
    copy := new HLLCounter.Copy(counters[node]);
    changed := countersChanged;
    var successors := g.successors[node];
    for k := 0 to |successors|
      invariant fresh(copy.counter) && copy.Valid() && copy.b == b
      invariant CountersHold(counters, counters.Length, b, regs)
      invariant copy.counter[..] == UnionOver(regs[node], regs, successors[..k])
      invariant changed <==> countersChanged || copy.counter[..] != regs[node]
    {
      var neighbor := successors[k];
      var grew := copy.Union(counters[neighbor]);
      changed := changed || grew;
      UnionOverStep(regs[node], regs, successors, k);
    }
    assert successors[..|successors|] == successors;
  }

  /**
   * m holds the counts of m0 with amount added to the count of key: what
   * a round's calls of `increaseNumberOfPairs` do to the distribution.
   */
  ghost predicate Added(m0: map<int, int>, m: map<int, int>, key: int, amount: int)
  {
    && (forall d :: ValueIn(m, d) == ValueIn(m0, d) + (if d == key then amount else 0))
    && (forall d :: d in m ==> d in m0 || d == key)
  }

  /** Nothing is added yet. */
  lemma AddedNothing(m: map<int, int>, key: int)
    ensures Added(m, m, key, 0)
  {
  }

  /** Increasing the count of key by inc adds inc to what was added. */
  lemma AddedStep(m0: map<int, int>, m: map<int, int>, m': map<int, int>, key: int, count: int,
                  amount: int, inc: int, amount': int)
    requires Added(m0, m, key, amount)
    requires m' == m[key := count] && count == ValueIn(m, key) + inc && amount' == amount + inc
    ensures Added(m0, m', key, amount')
  {
  }

  /**
   * The state of the node loop of `getDistanceDistribution` once the nodes
   * below node are done: the current counters hold regs, the new counters of
   * those nodes hold next, the flag is set iff it was set before the loop
   * (changedBefore) or one of those nodes changed, and m is m0 with the
   * growth of those nodes' estimated sizes added to the count of t + 1.
   */
  ghost predicate NodesDone(g: Graph, counters: array<HLLCounter?>, newCounters: array<HLLCounter?>, node: nat,
                            changed: bool, m: map<int, int>, t: int, size: seq<Rank> -> int,
                            b: int, regs: seq<seq<Rank>>, next: seq<seq<Rank>>, changedBefore: bool, m0: map<int, int>)
    reads counters, set v | 0 <= v < counters.Length && counters[v] != null :: counters[v].counter
    reads newCounters, set v | 0 <= v < node && v < newCounters.Length && newCounters[v] != null :: newCounters[v].counter
  {
    && ValidGraph(g) && ValidBits(b) && counters.Length == NumNodes(g) == |regs| == |next| && node <= counters.Length
    && CountersHold(counters, counters.Length, b, regs) && Uniform(regs, Pow2(b))
    && newCounters != counters && newCounters.Length == counters.Length
    && CountersHold(newCounters, node, b, next)
    && (changed <==> changedBefore || next[..node] != regs[..node])
    && Added(m0, m, t + 1, Growth(size, regs, next, node))
  }

  /**
   * One turn of the node loop of `getDistanceDistribution`: the node's new
   * counter, the union of its counter with its successors' counters, is
   * stored, the flag updated and the growth of the node's estimated size
   * added to the count of distance t + 1, so that one more node is done.
   */
  method AdvanceNode(g: Graph, counters: array<HLLCounter?>, newCounters: array<HLLCounter?>, node: nat,
                     countersChanged: bool, t: int, dist: DistanceDistribution, size: seq<Rank> -> int,
                     ghost b: int, ghost regs: seq<seq<Rank>>, ghost next: seq<seq<Rank>>,
                     ghost changedBefore: bool, ghost m0: map<int, int>)
    returns (changed: bool, node': nat)
    requires NodesDone(g, counters, newCounters, node, countersChanged, dist.distributionMap, t, size,
                       b, regs, next, changedBefore, m0)
    requires node < counters.Length && next[node] == UnionOver(regs[node], regs, Succ(g, node))
    modifies newCounters, dist
    ensures newCounters[..] == old(newCounters[..])[node := newCounters[node]]
    ensures newCounters[node] != null && fresh(newCounters[node].counter)
    ensures node' == node + 1
    ensures NodesDone(g, counters, newCounters, node', changed, dist.distributionMap, t, size,
                      b, regs, next, changedBefore, m0)
  {
    node' := node + 1;
    PrefixChange(next, regs, node, node');
    GrowthStep(size, regs, next, node, node');
    var copy;
    copy, changed := UnionSuccessors(g, counters, node, countersChanged, b, regs);
    newCounters[node] := copy;
    var oldSize := size(counters[node].counter[..]);
    var newSize := size(newCounters[node].counter[..]);
    ghost var m := dist.distributionMap;
    var count := dist.IncreaseNumberOfPairs(t + 1, newSize - oldSize);
    AddedStep(m0, m, dist.distributionMap, t + 1, count, Growth(size, regs, next, node),
              newSize - oldSize, Growth(size, regs, next, node'));
  }

  /**
   * One pass of the outer loop of `getDistanceDistribution` over all nodes:
   * fresh counters holding the next round's registers, the flag set iff it
   * went in set or some counter changed, and the growth of the estimated
   * sizes added to the count of distance t + 1.
   */
  method NextCounters(g: Graph, counters: array<HLLCounter?>, t: int, countersChanged: bool,
                      dist: DistanceDistribution, size: seq<Rank> -> int,
                      ghost b: int, ghost regs: seq<seq<Rank>>, ghost next: seq<seq<Rank>>)
    returns (newCounters: array<HLLCounter?>, changed: bool)
    requires ValidGraph(g) && ValidBits(b) && counters.Length == NumNodes(g) == |regs|
    requires CountersHold(counters, counters.Length, b, regs) && Uniform(regs, Pow2(b))
    requires next == Step(g, Pow2(b), regs)
    modifies dist
    ensures fresh(newCounters) && newCounters.Length == counters.Length
    ensures CountersHold(newCounters, newCounters.Length, b, next)
    ensures changed <==> countersChanged || next != regs
    ensures Added(old(dist.distributionMap), dist.distributionMap, t + 1, Growth(size, regs, next, |regs|))
  {
    var n := counters.Length;
    ghost var m0 := dist.distributionMap;
    newCounters := new HLLCounter?[n];
    changed := countersChanged;
    NoNodesDone(g, counters, newCounters, changed, m0, t, size, b, regs, next);
    var node := 0;
    while node < n
      invariant fresh(newCounters)
      invariant NodesDone(g, counters, newCounters, node, changed, dist.distributionMap, t, size,
                          b, regs, next, countersChanged, m0)
      decreases n - node
    {
      StepAt(g, Pow2(b), regs, node);
      changed, node := AdvanceNode(g, counters, newCounters, node, changed, t, dist, size, b, regs, next, countersChanged, m0);
    }
    AllNodesDone(g, counters, newCounters, node, changed, dist.distributionMap, t, size, b, regs, next, countersChanged, m0);
  }

  /** The registers of node v in the next round. */
  lemma StepAt(g: Graph, m: nat, regs: seq<seq<Rank>>, v: nat)
    requires ValidGraph(g) && |regs| == NumNodes(g) && Uniform(regs, m) && v < |regs|
    ensures Step(g, m, regs)[v] == UnionOver(regs[v], regs, Succ(g, v))
  {
  }

  /** Before the node loop no node is done. */
  lemma NoNodesDone(g: Graph, counters: array<HLLCounter?>, newCounters: array<HLLCounter?>, changed: bool,
                    m0: map<int, int>, t: int, size: seq<Rank> -> int,
                    b: int, regs: seq<seq<Rank>>, next: seq<seq<Rank>>)
    requires ValidGraph(g) && ValidBits(b) && counters.Length == NumNodes(g) == |regs|
    requires CountersHold(counters, counters.Length, b, regs) && Uniform(regs, Pow2(b))
    requires next == Step(g, Pow2(b), regs)
    requires newCounters != counters && newCounters.Length == counters.Length
    ensures NodesDone(g, counters, newCounters, 0, changed, m0, t, size, b, regs, next, changed, m0)
  {
    AddedNothing(m0, t + 1);
  }

  /** After the node loop every node is done: the new counters hold the next round. */
  lemma AllNodesDone(g: Graph, counters: array<HLLCounter?>, newCounters: array<HLLCounter?>, node: nat, changed: bool,
                     m: map<int, int>, t: int, size: seq<Rank> -> int,
                     b: int, regs: seq<seq<Rank>>, next: seq<seq<Rank>>, changedBefore: bool, m0: map<int, int>)
    requires NodesDone(g, counters, newCounters, node, changed, m, t, size, b, regs, next, changedBefore, m0)
    requires node >= counters.Length
    ensures CountersHold(newCounters, newCounters.Length, b, next)
    ensures changed <==> changedBefore || next != regs
    ensures Added(m0, m, t + 1, Growth(size, regs, next, |regs|))
  {
    assert next[..|next|] == next && regs[..|regs|] == regs;
  }

  /** The registers of all counters after t rounds. */
  ghost function RoundRegisters(hb: HyperBall, hash: int -> Fingerprint, t: nat): (regs: seq<seq<Rank>>)
    requires ValidGraph(hb.graph) && ValidBits(hb.numberOfBits)
    ensures |regs| == NumNodes(hb.graph) && Uniform(regs, Pow2(hb.numberOfBits))
  {
    Iterate(hb.graph, Pow2(hb.numberOfBits), InitialRegisters(hb.numberOfBits, hash, NumNodes(hb.graph)), t)
  }

  /** Round s + 1 changes some counter. */
  ghost predicate RoundChanges(hb: HyperBall, hash: int -> Fingerprint, s: nat)
    requires ValidGraph(hb.graph) && ValidBits(hb.numberOfBits)
  {
    RoundRegisters(hb, hash, s + 1) != RoundRegisters(hb, hash, s)
  }

  /** Rounds 1 to n each change some counter. */
  ghost predicate RoundsChange(hb: HyperBall, hash: int -> Fingerprint, n: nat)
    requires ValidGraph(hb.graph) && ValidBits(hb.numberOfBits)
  {
    n == 0 || (RoundsChange(hb, hash, n - 1) && RoundChanges(hb, hash, n - 1))
  }

  lemma {:induction false} RoundsChangeEach(hb: HyperBall, hash: int -> Fingerprint, n: nat)
    requires ValidGraph(hb.graph) && ValidBits(hb.numberOfBits) && RoundsChange(hb, hash, n)
    ensures forall s: nat :: s < n ==> RoundChanges(hb, hash, s)
  {
    if n > 0 {
      RoundsChangeEach(hb, hash, n - 1);
      forall s: nat | s < n
        ensures RoundChanges(hb, hash, s)
      {
        if s == n - 1 {
          assert RoundsChange(hb, hash, n);
        }
      }
    }
  }

  /** The growth of the estimated sizes in round d, the round that takes the counters from radius d - 1 to d. */
  ghost function RoundGrowth(hb: HyperBall, hash: int -> Fingerprint, size: seq<Rank> -> int, d: nat): int
    requires ValidGraph(hb.graph) && ValidBits(hb.numberOfBits) && d >= 1
  {
    Growth(size, RoundRegisters(hb, hash, d - 1), RoundRegisters(hb, hash, d), NumNodes(hb.graph))
  }

  /**
   * The distribution after t rounds: the count of every distance d from 1
   * to t is the growth of the estimated sizes in round d, and every other
   * distance is absent.
   */
  ghost predicate Tallied(m: map<int, int>, hb: HyperBall, hash: int -> Fingerprint, size: seq<Rank> -> int, t: nat)
    requires ValidGraph(hb.graph) && ValidBits(hb.numberOfBits)
  {
    && (forall d: nat :: 1 <= d <= t ==> ValueIn(m, d) == RoundGrowth(hb, hash, size, d))
    && (forall d :: d in m ==> 1 <= d <= t)
  }

  /** A round that adds its growth to distance t + 1 extends the tally by one distance. */
  lemma TalliedStep(m: map<int, int>, m': map<int, int>, hb: HyperBall, hash: int -> Fingerprint,
                    size: seq<Rank> -> int, t: nat)
    requires ValidGraph(hb.graph) && ValidBits(hb.numberOfBits) && Tallied(m, hb, hash, size, t)
    requires Added(m, m', t + 1, RoundGrowth(hb, hash, size, t + 1))
    ensures Tallied(m', hb, hash, size, t + 1)
  {
    forall d: nat | 1 <= d <= t + 1
      ensures ValueIn(m', d) == RoundGrowth(hb, hash, size, d)
    {
      assert ValueIn(m', d) == ValueIn(m, d) + (if d == t + 1 then RoundGrowth(hb, hash, size, t + 1) else 0);
    }
  }

  /**
   * The tally at the fixed point: after the last round, which changed no
   * counter, the count of that round's distance is zero too.
   */
  lemma TalliedAtFixedPoint(m: map<int, int>, hb: HyperBall, hash: int -> Fingerprint,
                            size: seq<Rank> -> int, t: nat)
    requires ValidGraph(hb.graph) && ValidBits(hb.numberOfBits) && t >= 1
    requires Tallied(m, hb, hash, size, t) && RoundRegisters(hb, hash, t) == RoundRegisters(hb, hash, t - 1)
    ensures forall d: nat :: 1 <= d <= t ==> ValueIn(m, d) == RoundGrowth(hb, hash, size, d)
    ensures forall d :: d < 1 || t <= d ==> ValueIn(m, d) == 0
    ensures forall d :: d in m ==> 1 <= d <= t
  {
    GrowthOfFixedPoint(size, RoundRegisters(hb, hash, t), NumNodes(hb.graph));
    assert ValueIn(m, t) == 0;
  }

  /**
   * The state of the outer loop of `getDistanceDistribution` after t rounds:
   * the counters hold the registers of round t, the flag is set iff t is 0
   * or round t changed some counter, every round before t changed some
   * counter, and m is the tally of the first t rounds.
   */
  ghost predicate RoundsDone(hb: HyperBall, hash: int -> Fingerprint, size: seq<Rank> -> int,
                             counters: array<HLLCounter?>, t: nat, countersChanged: bool, m: map<int, int>)
    reads counters, set v | 0 <= v < counters.Length && counters[v] != null :: counters[v].counter
  {
    && ValidGraph(hb.graph) && ValidBits(hb.numberOfBits) && counters.Length == NumNodes(hb.graph)
    && CountersHold(counters, counters.Length, hb.numberOfBits, RoundRegisters(hb, hash, t))
    && (countersChanged <==> t == 0 || RoundChanges(hb, hash, t - 1))
    && (t >= 1 ==> RoundsChange(hb, hash, t - 1))
    && Tallied(m, hb, hash, size, t)
  }

  /**
   * One turn of the outer loop of `getDistanceDistribution`, entered because
   * the last round changed some counter: round t' = t + 1 computed into
   * fresh counters, with its growth tallied at distance t'. The registers
   * can grow only so far: a round that changes a counter leaves less room.
   */
  method NextRound(hb: HyperBall, hash: int -> Fingerprint, size: seq<Rank> -> int,
                   counters: array<HLLCounter?>, t: nat, dist: DistanceDistribution)
    returns (newCounters: array<HLLCounter?>, countersChanged: bool, t': nat)
    requires RoundsDone(hb, hash, size, counters, t, true, dist.distributionMap)
    modifies dist
    ensures fresh(newCounters) && t' == t + 1
    ensures RoundsDone(hb, hash, size, newCounters, t', countersChanged, dist.distributionMap)
    ensures Potential(RoundRegisters(hb, hash, t')) + (if countersChanged then 1 else 0)
            < Potential(RoundRegisters(hb, hash, t)) + 1
  {
    var g, b := hb.graph, hb.numberOfBits;
    t' := t + 1;
    ghost var regs, next := RoundRegisters(hb, hash, t), RoundRegisters(hb, hash, t');
    ghost var m := dist.distributionMap;
    RoundStep(hb, hash, t, t');
    StepPotential(g, Pow2(b), regs);
    newCounters, countersChanged := NextCounters(g, counters, t, false, dist, size, b, regs, next);
    RoundAdvance(hb, hash, size, newCounters, t, t', countersChanged, m, dist.distributionMap);
  }

  /** Round t' = t + 1 is one step from round t. */
  lemma RoundStep(hb: HyperBall, hash: int -> Fingerprint, t: nat, t': nat)
    requires ValidGraph(hb.graph) && ValidBits(hb.numberOfBits) && t' == t + 1
    ensures RoundRegisters(hb, hash, t') == Step(hb.graph, Pow2(hb.numberOfBits), RoundRegisters(hb, hash, t))
  {
  }

  /**
   * The loop state after round t' = t + 1, given what the round did: the
   * new counters hold its registers, the flag tells whether it changed
   * them, and its growth was added to the count of t'.
   */
  lemma RoundAdvance(hb: HyperBall, hash: int -> Fingerprint, size: seq<Rank> -> int,
                     newCounters: array<HLLCounter?>, t: nat, t': nat, changed: bool,
                     m: map<int, int>, m': map<int, int>)
    requires ValidGraph(hb.graph) && ValidBits(hb.numberOfBits) && t' == t + 1
    requires (t == 0 || RoundChanges(hb, hash, t - 1)) && (t >= 1 ==> RoundsChange(hb, hash, t - 1))
    requires Tallied(m, hb, hash, size, t)
    requires newCounters.Length == NumNodes(hb.graph)
    requires CountersHold(newCounters, newCounters.Length, hb.numberOfBits, RoundRegisters(hb, hash, t'))
    requires changed <==> false || RoundRegisters(hb, hash, t') != RoundRegisters(hb, hash, t)
    requires Added(m, m', t + 1, Growth(size, RoundRegisters(hb, hash, t), RoundRegisters(hb, hash, t'),
                                         |RoundRegisters(hb, hash, t)|))
    ensures RoundsDone(hb, hash, size, newCounters, t', changed, m')
  {
    TalliedStep(m, m', hb, hash, size, t);
  }

  /**
   * The counters the loop leaves behind, those of the last round, which
   * changed nothing: each dominates the counters of its successors.
   */
  lemma ExitDominates(hb: HyperBall, hash: int -> Fingerprint, rounds: nat)
    requires ValidGraph(hb.graph) && ValidBits(hb.numberOfBits) && rounds >= 1
    requires RoundRegisters(hb, hash, rounds) == RoundRegisters(hb, hash, rounds - 1)
    ensures forall v, j :: 0 <= v < NumNodes(hb.graph) && 0 <= j < |Succ(hb.graph, v)| ==>
      Dominates(RoundRegisters(hb, hash, rounds)[v], RoundRegisters(hb, hash, rounds)[Succ(hb.graph, v)[j]])
  {
    RoundStep(hb, hash, rounds - 1, rounds);
    FixedPointDominates(hb.graph, Pow2(hb.numberOfBits), RoundRegisters(hb, hash, rounds - 1));
  }

  /**
   * Once no ball grows from radius r to r + 1, round r + 1 changes no
   * counter: the counters of both rounds sketch the same sets of nodes.
   */
  lemma StableBallsStableRound(hb: HyperBall, hash: int -> Fingerprint, r: nat)
    requires ValidGraph(hb.graph) && ValidBits(hb.numberOfBits)
    requires forall v :: 0 <= v < NumNodes(hb.graph) ==> Ball(hb.graph, v, r + 1) == Ball(hb.graph, v, r)
    ensures !RoundChanges(hb, hash, r)
  {
    var b := hb.numberOfBits;
    var regs, regs' := RoundRegisters(hb, hash, r), RoundRegisters(hb, hash, r + 1);
    IterateSketches(hb.graph, b, hash, r);
    IterateSketches(hb.graph, b, hash, r + 1);
    forall v | 0 <= v < NumNodes(hb.graph)
      ensures regs'[v] == regs[v]
    {
      SketchUnique(b, hash, regs'[v], regs[v], Ball(hb.graph, v, r));
    }
  }

  /**
   * The loop runs at most r + 1 rounds when every ball stops growing at
   * radius r (the longest distance between two nodes is such a radius): a run
   * whose rounds before the last each changed some counter cannot pass r.
   */
  lemma RoundsWithinRadius(hb: HyperBall, hash: int -> Fingerprint, rounds: nat, r: nat)
    requires ValidGraph(hb.graph) && ValidBits(hb.numberOfBits) && rounds >= 1
    requires forall s: nat :: s < rounds - 1 ==> RoundChanges(hb, hash, s)
    requires forall v :: 0 <= v < NumNodes(hb.graph) ==> Ball(hb.graph, v, r + 1) == Ball(hb.graph, v, r)
    ensures rounds <= r + 1
  {
    StableBallsStableRound(hb, hash, r);
  }

  /** Before the first round: the initial counters and an empty tally. */
  lemma NoRoundsDone(hb: HyperBall, hash: int -> Fingerprint, size: seq<Rank> -> int,
                     counters: array<HLLCounter?>)
    requires ValidGraph(hb.graph) && ValidBits(hb.numberOfBits) && counters.Length == NumNodes(hb.graph)
    requires CountersHold(counters, counters.Length, hb.numberOfBits,
                          InitialRegisters(hb.numberOfBits, hash, NumNodes(hb.graph)))
    ensures RoundsDone(hb, hash, size, counters, 0, true, map[])
  {
  }

  /**
   * When the flag comes out clear the loop has reached the fixed point: at
   * least one round ran, the last changed nothing, and the tally is final.
   */
  lemma RoundsFinished(hb: HyperBall, hash: int -> Fingerprint, size: seq<Rank> -> int,
                       counters: array<HLLCounter?>, rounds: nat, dist: DistanceDistribution)
    requires RoundsDone(hb, hash, size, counters, rounds, false, dist.distributionMap)
    ensures rounds >= 1
    ensures RoundRegisters(hb, hash, rounds) == RoundRegisters(hb, hash, rounds - 1)
    ensures forall s: nat :: s < rounds - 1 ==> RoundChanges(hb, hash, s)
    ensures forall d: nat :: 1 <= d <= rounds ==> dist.GetValue(d) == RoundGrowth(hb, hash, size, d)
    ensures forall d :: d < 1 || rounds <= d ==> dist.GetValue(d) == 0
    ensures forall d :: d in dist.Distances() ==> 1 <= d <= rounds
  {
    TalliedAtFixedPoint(dist.distributionMap, hb, hash, size, rounds);
    RoundsChangeEach(hb, hash, rounds - 1);
  }

  /**
   * `getDistanceDistribution`: rounds of unions until one changes no
   * counter. `rounds` is the number of rounds run: every round before the
   * last changed some counter, and the last reached the fixed point. The
   * count of distance d is the growth of the estimated sizes in round d,
   * which is zero for the last round and for every distance not reached.
   */
  method GetDistanceDistribution(hb: HyperBall, hash: int -> Fingerprint, size: seq<Rank> -> int)
    returns (dist: DistanceDistribution, ghost rounds: nat)
    requires ValidGraph(hb.graph) && ValidBits(hb.numberOfBits)
    ensures fresh(dist) && rounds >= 1
    ensures RoundRegisters(hb, hash, rounds) == RoundRegisters(hb, hash, rounds - 1)
    ensures forall s: nat :: s < rounds - 1 ==> RoundChanges(hb, hash, s)
    ensures forall d: nat :: 1 <= d <= rounds ==> dist.GetValue(d) == RoundGrowth(hb, hash, size, d)
    ensures forall d :: d < 1 || rounds <= d ==> dist.GetValue(d) == 0
    ensures forall d :: d in dist.Distances() ==> 1 <= d <= rounds
  {
    dist := new DistanceDistribution();
    var counters := InitializeCounters(hb, hash);
    NoRoundsDone(hb, hash, size, counters);
    var t;
    counters, t := RunRounds(hb, hash, size, counters, dist);
    rounds := t;
    RoundsFinished(hb, hash, size, counters, rounds, dist);
  }

  /** The outer loop of `getDistanceDistribution`: rounds until one changes no counter. */
  method RunRounds(hb: HyperBall, hash: int -> Fingerprint, size: seq<Rank> -> int,
                   counters0: array<HLLCounter?>, dist: DistanceDistribution)
    returns (counters: array<HLLCounter?>, t: nat)
    requires RoundsDone(hb, hash, size, counters0, 0, true, dist.distributionMap)
    modifies dist
    ensures RoundsDone(hb, hash, size, counters, t, false, dist.distributionMap)
  {
    counters := counters0;
    t := 0;
    var countersChanged := true;
    while countersChanged
      invariant RoundsDone(hb, hash, size, counters, t, countersChanged, dist.distributionMap)
      decreases Potential(RoundRegisters(hb, hash, t)) + (if countersChanged then 1 else 0)
    {
      counters, countersChanged, t := NextRound(hb, hash, size, counters, t, dist);
    }
  }
}

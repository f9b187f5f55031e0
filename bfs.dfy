/**
 * BfsTraversal: the exact distance distribution of a graph, found by one
 * breadth-first search from every node. Each node a search discovers adds
 * one pair at the distance it was discovered at, so a search from s adds,
 * at every distance d >= 1, the number of nodes at distance exactly d from s.
 */
module Bfs {
  import opened Graphs
  import opened Distribution

  /** `BFSNode`: a node together with the distance it was discovered at. */
  datatype BfsNode = BfsNode(node: nat, distance: nat)

  /** A traversal over a fixed graph. */
  datatype BfsTraversal = BfsTraversal(graph: Graph)

  /** `BfsTraversal(graph)`: rejects a graph without random access. */
  function NewBfsTraversal(graph: Graph): (r: Outcome<BfsTraversal>)
    ensures r.Success? <==> graph.randomAccess
    ensures r.Success? ==> r.value.graph == graph
  {
    if !graph.randomAccess then Failure("Graph must have random-access enabled")
    else Success(BfsTraversal(graph))
  }

  // ---------------------------------------------------------------------
  // Sequences of discovered nodes
  // ---------------------------------------------------------------------

  function Nodes(order: seq<BfsNode>): (ns: seq<nat>)
    ensures |ns| == |order|
    ensures forall i :: 0 <= i < |order| ==> ns[i] == order[i].node
  {
    seq(|order|, i requires 0 <= i < |order| => order[i].node)
  }

  /** The elements of a sequence. */
  function Elems(s: seq<nat>): set<nat>
  {
    set x | x in s
  }

  /** The nodes listed in order. */
  function NodeSet(order: seq<BfsNode>): set<nat>
  {
    Elems(Nodes(order))
  }

  /** The number of entries of order recorded at distance d. */
  function CountAt(order: seq<BfsNode>, d: int): nat
  {
    if order == [] then 0
    else CountAt(order[..|order| - 1], d) + (if order[|order| - 1].distance == d then 1 else 0)
  }

  /** The nodes recorded at distance d. */
  function NodesAt(order: seq<BfsNode>, d: int): set<nat>
  {
    set i | 0 <= i < |order| && order[i].distance == d :: order[i].node
  }

  lemma NodeSetAppend(order: seq<BfsNode>, x: BfsNode)
    ensures NodeSet(order + [x]) == NodeSet(order) + {x.node}
  {
    assert Nodes(order + [x]) == Nodes(order) + [x.node];
  }

  lemma NodeSetLast(order: seq<BfsNode>)
    requires order != []
    ensures NodeSet(order) == NodeSet(order[..|order| - 1]) + {order[|order| - 1].node}
  {
    assert Nodes(order) == Nodes(order[..|order| - 1]) + [order[|order| - 1].node];
  }

  lemma NodeSetMember(order: seq<BfsNode>, w: nat)
    requires w in NodeSet(order)
    ensures exists j :: 0 <= j < |order| && order[j].node == w
  {
    var j :| 0 <= j < |Nodes(order)| && Nodes(order)[j] == w;
  }

  lemma InNodeSet(order: seq<BfsNode>, j: nat)
    requires j < |order|
    ensures order[j].node in NodeSet(order)
  {
    assert Nodes(order)[j] == order[j].node;
  }

  lemma NodesAppend(order: seq<BfsNode>, head: nat, x: BfsNode)
    requires head <= |order|
    ensures Nodes(order + [x]) == Nodes(order) + [x.node]
    ensures Nodes(order + [x])[head..] == Nodes(order)[head..] + [x.node]
  {
    assert Nodes(order + [x]) == Nodes(order) + [x.node];
  }

  lemma SliceAppend(order: seq<BfsNode>, head: nat, x: BfsNode)
    requires head <= |order|
    ensures (order + [x])[head..] == order[head..] + [x]
    ensures (order + [x])[..|order|] == order
  {
  }

  /** A set of numbers below n has at most n elements. */
  lemma {:induction false} RangeBound(S: set<nat>, n: nat)
    requires forall x :: x in S ==> x < n
    ensures |S| <= n
  {
    if n == 0 {
      assert S == {};
    } else {
      RangeBound(S - {n - 1}, n - 1);
    }
  }

  /** Nothing is counted at a distance no node is recorded at. */
  lemma {:induction false} CountAtNone(order: seq<BfsNode>, d: int)
    requires forall i :: 0 <= i < |order| ==> order[i].distance != d
    ensures CountAt(order, d) == 0
  {
    if order != [] {
      CountAtNone(order[..|order| - 1], d);
    }
  }

  // ---------------------------------------------------------------------
  // The order in which a breadth-first search discovers nodes
  // ---------------------------------------------------------------------

  /**
   * A discovery order of a breadth-first search from s, entry by entry: it
   * starts with s at distance 0, and every later entry is a node not listed
   * before, recorded at its distance from s, which is the distance of the
   * entry before it or one more.
   */
  ghost predicate Recorded(g: Graph, s: nat, order: seq<BfsNode>)
    decreases |order|
  {
    if |order| <= 1 then order == [BfsNode(s, 0)] && s < NumNodes(g)
    else
      var prefix, x := order[..|order| - 1], order[|order| - 1];
      && Recorded(g, s, prefix)
      && x.node < NumNodes(g) && x.node !in NodeSet(prefix)
      && 1 <= x.distance && x.node in Layer(g, s, x.distance)
      && prefix[|prefix| - 1].distance <= x.distance <= prefix[|prefix| - 1].distance + 1
  }

  /** Every entry is recorded at its true distance. */
  ghost predicate AtDistances(g: Graph, s: nat, order: seq<BfsNode>)
  {
    forall i :: 0 <= i < |order| ==> order[i].node in Layer(g, s, order[i].distance)
  }

  /** Entries are sorted by distance. */
  ghost predicate Sorted(order: seq<BfsNode>)
  {
    forall i, j :: 0 <= i <= j < |order| ==> order[i].distance <= order[j].distance
  }

  /** What a discovery order says about each of its entries. */
  lemma {:induction false} RecordedFacts(g: Graph, s: nat, order: seq<BfsNode>)
    requires Recorded(g, s, order)
    ensures |order| >= 1 && order[0] == BfsNode(s, 0)
    ensures forall i :: 0 <= i < |order| ==> order[i].node < NumNodes(g)
    ensures AtDistances(g, s, order)
    ensures forall i :: 0 <= i < |order| ==> order[i].distance <= i
    decreases |order|
  {
    if |order| > 1 {
      var prefix := order[..|order| - 1];
      RecordedFacts(g, s, prefix);
      forall i | 0 <= i < |prefix|
        ensures order[i] == prefix[i]
      {
      }
    }
  }

  /** A discovery order is sorted by distance. */
  lemma {:induction false} RecordedSorted(g: Graph, s: nat, order: seq<BfsNode>)
    requires Recorded(g, s, order)
    ensures Sorted(order)
    decreases |order|
  {
    if |order| > 1 {
      var prefix, last := order[..|order| - 1], |order| - 1;
      RecordedSorted(g, s, prefix);
      forall i, j | 0 <= i <= j < |order|
        ensures order[i].distance <= order[j].distance
      {
        if j < last {
          assert order[i] == prefix[i] && order[j] == prefix[j];
        } else if i < last {
          assert order[i] == prefix[i] && prefix[i].distance <= prefix[last - 1].distance;
        }
      }
    }
  }

  /** A discovery order lists as many distinct nodes as it has entries. */
  lemma {:induction false} RecordedCard(g: Graph, s: nat, order: seq<BfsNode>)
    requires Recorded(g, s, order)
    ensures |NodeSet(order)| == |order|
    decreases |order|
  {
    if |order| <= 1 {
      assert Nodes(order) == [s];
      assert NodeSet(order) == {s};
    } else {
      var prefix, x := order[..|order| - 1], order[|order| - 1];
      assert x.node !in NodeSet(prefix);
      RecordedCard(g, s, prefix);
      NodeSetLast(order);
    }
  }

  /** A discovery order has at most as many entries as the graph has nodes. */
  lemma RecordedBound(g: Graph, s: nat, order: seq<BfsNode>)
    requires Recorded(g, s, order)
    ensures |order| <= NumNodes(g)
  {
    RecordedFacts(g, s, order);
    RecordedCard(g, s, order);
    forall w | w in NodeSet(order)
      ensures w < NumNodes(g)
    {
      NodeSetMember(order, w);
    }
    RangeBound(NodeSet(order), NumNodes(g));
  }

  lemma NodesAtListed(order: seq<BfsNode>, d: int)
    ensures NodesAt(order, d) <= NodeSet(order)
  {
    forall y | y in NodesAt(order, d)
      ensures y in NodeSet(order)
    {
      var i :| 0 <= i < |order| && order[i].distance == d && order[i].node == y;
      InNodeSet(order, i);
    }
  }

  /** The last entry adds its node to the nodes recorded at its distance. */
  lemma NodesAtLast(order: seq<BfsNode>, d: int)
    requires order != []
    ensures var prefix, x := order[..|order| - 1], order[|order| - 1];
      && (x.distance == d ==> NodesAt(order, d) == NodesAt(prefix, d) + {x.node})
      && (x.distance != d ==> NodesAt(order, d) == NodesAt(prefix, d))
  {
    var prefix, x := order[..|order| - 1], order[|order| - 1];
    forall y | y in NodesAt(order, d)
      ensures y in NodesAt(prefix, d) || (x.distance == d && y == x.node)
    {
      var i :| 0 <= i < |order| && order[i].distance == d && order[i].node == y;
      if i < |prefix| {
        assert prefix[i] == order[i];
      }
    }
    forall y | y in NodesAt(prefix, d)
      ensures y in NodesAt(order, d)
    {
      var i :| 0 <= i < |prefix| && prefix[i].distance == d && prefix[i].node == y;
      assert order[i] == prefix[i];
    }
  }

  /** Adding a new element to a set adds one to its size. */
  lemma CardAddOne(S: set<nat>, y: nat)
    requires y !in S
    ensures |S + {y}| == |S| + 1
  {
  }

  /** The count at a distance is the number of distinct nodes recorded at it. */
  lemma {:induction false} CountAtNodes(g: Graph, s: nat, order: seq<BfsNode>, d: int)
    requires Recorded(g, s, order)
    ensures CountAt(order, d) == |NodesAt(order, d)|
    decreases |order|
  {
    var prefix, last := order[..|order| - 1], order[|order| - 1];
    NodesAtLast(order, d);
    if |order| <= 1 {
      assert NodesAt(prefix, d) == {};
    } else {
      CountAtNodes(g, s, prefix, d);
      NodesAtListed(prefix, d);
    }
    if last.distance == d {
      CardAddOne(NodesAt(prefix, d), last.node);
    }
  }

  /** The search state with head entries of order polled: order is a discovery order from s. */
  ghost predicate BfsInv(g: Graph, s: nat, order: seq<BfsNode>, head: nat)
  {
    Recorded(g, s, order) && head <= |order|
  }

  /**
   * The queue, the entries from head on, holds no distance beyond the last
   * polled one plus 1; before the first poll it holds the source alone.
   */
  ghost predicate Frontier(order: seq<BfsNode>, head: nat)
    requires head <= |order|
  {
    && (head == 0 ==> |order| == 1)
    && (head > 0 ==> forall i :: head <= i < |order| ==> order[i].distance <= order[head - 1].distance + 1)
  }

  /** All successors of the first p entries of order are in seen. */
  ghost predicate Processed(g: Graph, order: seq<BfsNode>, seen: set<nat>, p: nat)
    requires p <= |order|
  {
    forall i, k :: 0 <= i < p && 0 <= k < |Succ(g, order[i].node)| ==> Succ(g, order[i].node)[k] in seen
  }

  /** Appending to order and to seen keeps the first p entries processed. */
  lemma ProcessedGrow(g: Graph, order: seq<BfsNode>, seen: set<nat>, p: nat, x: BfsNode)
    requires p <= |order| && Processed(g, order, seen, p)
    ensures Processed(g, order + [x], seen + {x.node}, p)
  {
    forall i, k | 0 <= i < p && 0 <= k < |Succ(g, (order + [x])[i].node)|
      ensures Succ(g, (order + [x])[i].node)[k] in seen + {x.node}
    {
      assert (order + [x])[i] == order[i];
    }
  }

  /** A node at distance d that lies in the ball of radius D has d <= D. */
  lemma LayerBelow(g: Graph, s: nat, x: nat, d: nat, D: nat)
    requires x in Layer(g, s, d) && x in Ball(g, s, D)
    ensures d <= D
  {
    if d > D {
      BallMonotone(g, s, D, d - 1);
    }
  }

  /**
   * When every entry recorded below distance D has been processed, all nodes
   * within distance D of the source have been seen.
   */
  lemma {:induction false} Covered(g: Graph, s: nat, order: seq<BfsNode>, seen: set<nat>, p: nat, D: nat)
    requires 1 <= |order| && order[0].node == s && p <= |order| && AtDistances(g, s, order)
    requires seen == NodeSet(order) && Processed(g, order, seen, p)
    requires forall i :: 0 <= i < |order| && order[i].distance < D ==> i < p
    ensures Ball(g, s, D) <= seen
    decreases D
  {
    if D == 0 {
      InNodeSet(order, 0);
    } else {
      Covered(g, s, order, seen, p, D - 1);
      forall w | w in Ball(g, s, D)
        ensures w in seen
      {
        CoveredStep(g, s, order, seen, p, D - 1, w);
      }
    }
  }

  /** One more step of Covered: the ball of radius D + 1 from the ball of radius D. */
  lemma CoveredStep(g: Graph, s: nat, order: seq<BfsNode>, seen: set<nat>, p: nat, D: nat, w: nat)
    requires p <= |order| && seen == NodeSet(order) && Processed(g, order, seen, p)
    requires AtDistances(g, s, order)
    requires forall i :: 0 <= i < |order| && order[i].distance <= D ==> i < p
    requires Ball(g, s, D) <= seen && w in Ball(g, s, D + 1)
    ensures w in seen
  {
    BallSplit(g, s, D, w);
    if w !in Ball(g, s, D) {
      var u, k :| u in Ball(g, s, D) && 0 <= k < |Succ(g, u)| && Succ(g, u)[k] == w;
      NodeSetMember(order, u);
      var i :| 0 <= i < |order| && order[i].node == u;
      LayerBelow(g, s, u, order[i].distance, D);
    }
  }

  /** By sortedness, every entry recorded below the distance of order[c] comes before it. */
  lemma BelowProcessed(order: seq<BfsNode>, c: nat)
    requires Sorted(order) && c < |order|
    ensures forall i :: 0 <= i < |order| && order[i].distance < order[c].distance ==> i < c
  {
  }

  /** Polling the front of the queue keeps the invariant. */
  lemma Poll(g: Graph, s: nat, order: seq<BfsNode>, head: nat)
    requires BfsInv(g, s, order, head) && head < |order| && Frontier(order, head)
    ensures BfsInv(g, s, order, head + 1) && Frontier(order, head + 1)
  {
    RecordedSorted(g, s, order);
  }

  /** Appending an unseen node at one more than the distance of the node being processed. */
  lemma Append(g: Graph, s: nat, order: seq<BfsNode>, head: nat, x: BfsNode)
    requires BfsInv(g, s, order, head) && 1 <= head && Frontier(order, head)
    requires x.node < NumNodes(g) && x.node !in NodeSet(order)
    requires x.distance == order[head - 1].distance + 1 && x.node in Layer(g, s, x.distance)
    ensures BfsInv(g, s, order + [x], head) && Frontier(order + [x], head)
    ensures NodeSet(order + [x]) == NodeSet(order) + {x.node}
  {
    RecordedSorted(g, s, order);
    SliceAppend(order, head, x);
    NodeSetAppend(order, x);
  }

  /**
   * Discovering an unseen successor x of the node being processed records it
   * at its true distance, one more than that node's, and keeps the invariant.
   */
  lemma Discover(g: Graph, s: nat, order: seq<BfsNode>, seen: set<nat>, head: nat, k: nat, x: BfsNode)
    requires ValidGraph(g)
    requires BfsInv(g, s, order, head) && 1 <= head && Frontier(order, head)
    requires seen == NodeSet(order) && Processed(g, order, seen, head - 1)
    requires k < |Succ(g, order[head - 1].node)| && Succ(g, order[head - 1].node)[k] !in seen
    requires x == BfsNode(Succ(g, order[head - 1].node)[k], order[head - 1].distance + 1)
    ensures BfsInv(g, s, order + [x], head) && Frontier(order + [x], head)
    ensures NodeSet(order + [x]) == seen + {x.node}
  {
    NextLayer(g, s, order, seen, head, k);
    Append(g, s, order, head, x);
  }

  /**
   * An unseen successor of the node being processed is at distance one more
   * than that node: every node closer than that has already been seen.
   */
  lemma NextLayer(g: Graph, s: nat, order: seq<BfsNode>, seen: set<nat>, head: nat, k: nat)
    requires ValidGraph(g) && Recorded(g, s, order) && 1 <= head <= |order|
    requires seen == NodeSet(order) && Processed(g, order, seen, head - 1)
    requires k < |Succ(g, order[head - 1].node)| && Succ(g, order[head - 1].node)[k] !in seen
    ensures Succ(g, order[head - 1].node)[k] < NumNodes(g)
    ensures Succ(g, order[head - 1].node)[k] in Layer(g, s, order[head - 1].distance + 1)
  {
    RecordedFacts(g, s, order);
    RecordedSorted(g, s, order);
    var cur := order[head - 1];
    BelowProcessed(order, head - 1);
    Covered(g, s, order, seen, head - 1, cur.distance);
    assert cur.node in Ball(g, s, cur.distance);
    BallExtend(g, s, cur.distance, cur.node, k);
  }

  /** With every entry processed, the nodes seen are closed under successors. */
  lemma SeenClosed(g: Graph, order: seq<BfsNode>, seen: set<nat>)
    requires seen == NodeSet(order) && Processed(g, order, seen, |order|)
    ensures Closed(g, seen)
  {
    forall u, i | u in seen && 0 <= i < |Succ(g, u)|
      ensures Succ(g, u)[i] in seen
    {
      NodeSetMember(order, u);
    }
  }

  /** Once the queue is empty, the nodes seen are exactly the nodes reachable from the source. */
  lemma FinishedReach(g: Graph, s: nat, order: seq<BfsNode>, seen: set<nat>)
    requires Recorded(g, s, order) && seen == NodeSet(order) && Processed(g, order, seen, |order|)
    ensures seen == ReachableSet(g, s)
    ensures |order| == |ReachableSet(g, s)|
  {
    RecordedFacts(g, s, order);
    SeenClosed(g, order, seen);
    InNodeSet(order, 0);
    forall w | w in ReachableSet(g, s)
      ensures w in seen
    {
      var t :| w in Ball(g, s, t);
      ClosedContainsBall(g, seen, s, t);
    }
    forall w | w in seen
      ensures w in ReachableSet(g, s)
    {
      NodeSetMember(order, w);
      var j :| 0 <= j < |order| && order[j].node == w;
      assert w in Ball(g, s, order[j].distance);
    }
    RecordedCard(g, s, order);
  }

  /**
   * Once the queue is empty, the nodes recorded at each distance d >= 1 are
   * exactly the nodes at distance d.
   */
  lemma FinishedLayer(g: Graph, s: nat, order: seq<BfsNode>, seen: set<nat>, d: nat)
    requires Recorded(g, s, order) && seen == NodeSet(order) && Processed(g, order, seen, |order|)
    ensures CountAt(order, d) == |Layer(g, s, d)|
  {
    RecordedFacts(g, s, order);
    SeenClosed(g, order, seen);
    InNodeSet(order, 0);
    CountAtNodes(g, s, order, d);
    forall x | x in Layer(g, s, d)
      ensures x in NodesAt(order, d)
    {
      ClosedContainsBall(g, seen, s, d);
      NodeSetMember(order, x);
      var j :| 0 <= j < |order| && order[j].node == x;
      LayersDisjoint(g, s, d, order[j].distance, x);
    }
    forall x | x in NodesAt(order, d)
      ensures x in Layer(g, s, d)
    {
    }
    assert NodesAt(order, d) == Layer(g, s, d);
  }

  // ---------------------------------------------------------------------
  // The traversal
  // ---------------------------------------------------------------------

  /** The visited flags are set exactly for the seen nodes. */
  ghost predicate Marked(visited: seq<bool>, seen: set<nat>)
  {
    forall x :: 0 <= x < |visited| ==> (visited[x] <==> x in seen)
  }

  lemma MarkStep(visited: seq<bool>, seen: set<nat>, x: nat)
    requires Marked(visited, seen) && x < |visited|
    ensures Marked(visited[x := true], seen + {x})
  {
  }

  /**
   * The map holds the counts the map before held plus one pair per
   * discovered node at its distance, the source (at distance 0) excepted,
   * and keeps every distance the map before held.
   */
  ghost predicate Counted(m: map<int, int>, before: map<int, int>, order: seq<BfsNode>)
  {
    && (forall d: int :: d != 0 ==> ValueIn(m, d) == ValueIn(before, d) + CountAt(order, d))
    && ValueIn(m, 0) == ValueIn(before, 0)
    && Sum(m) == Sum(before) + |order| - 1
    && (forall d :: d in m && d !in before ==> 1 <= d < |order|)
    && before.Keys <= m.Keys
  }

  /** Counting one more node, at a distance d >= 1, at d. */
  lemma CountStep(m: map<int, int>, before: map<int, int>, order: seq<BfsNode>, x: BfsNode)
    requires Counted(m, before, order) && 1 <= x.distance <= |order|
    ensures Counted(m[x.distance := ValueIn(m, x.distance) + 1], before, order + [x])
  {
    var order' := order + [x];
    assert order'[..|order'| - 1] == order;
    SumUpdate(m, x.distance, ValueIn(m, x.distance) + 1);
  }

  /**
   * The state inside the successor loop: order[head - 1] was polled and the
   * first k of its successors have been looked at.
   */
  ghost predicate Searching(g: Graph, s: nat, order: seq<BfsNode>, head: nat, k: nat)
  {
    && BfsInv(g, s, order, head) && 1 <= head && Frontier(order, head)
    && order[head - 1].node < NumNodes(g) && order[head - 1].distance < head
    && k <= |Succ(g, order[head - 1].node)|
    && Processed(g, order, NodeSet(order), head - 1)
    && AllIn(Succ(g, order[head - 1].node), k, NodeSet(order))
  }

  /** The first k elements of ns are in S. */
  ghost predicate AllIn(ns: seq<nat>, k: nat, S: set<nat>)
    requires k <= |ns|
  {
    forall j :: 0 <= j < k ==> ns[j] in S
  }

  /** Polling the front of the queue starts its successor loop. */
  lemma PollNext(g: Graph, s: nat, order: seq<BfsNode>, head: nat)
    requires BfsInv(g, s, order, head) && Frontier(order, head) && head < |order|
    requires Processed(g, order, NodeSet(order), head)
    ensures Searching(g, s, order, head + 1, 0)
  {
    RecordedFacts(g, s, order);
    Poll(g, s, order, head);
  }

  /** A successor that was already visited changes nothing. */
  lemma Skip(g: Graph, s: nat, order: seq<BfsNode>, head: nat, k: nat, visited: seq<bool>)
    requires ValidGraph(g) && |visited| == NumNodes(g)
    requires Searching(g, s, order, head, k) && k < |Succ(g, order[head - 1].node)|
    requires Marked(visited, NodeSet(order)) && visited[Succ(g, order[head - 1].node)[k]]
    ensures Searching(g, s, order, head, k + 1)
  {
  }

  /**
   * Exploring an unvisited successor x of the polled node: it is recorded one
   * step further away than the polled node, enqueued and marked.
   */
  lemma Explore(g: Graph, s: nat, order: seq<BfsNode>, head: nat, k: nat, x: BfsNode, order': seq<BfsNode>,
                visited: seq<bool>)
    requires ValidGraph(g) && |visited| == NumNodes(g)
    requires Searching(g, s, order, head, k) && k < |Succ(g, order[head - 1].node)|
    requires x == BfsNode(Succ(g, order[head - 1].node)[k], order[head - 1].distance + 1)
    requires Marked(visited, NodeSet(order)) && !visited[x.node]
    requires order' == order + [x]
    ensures Searching(g, s, order', head, k + 1) && order'[head - 1] == order[head - 1]
    ensures order'[head..] == order[head..] + [x]
    ensures Marked(visited[x.node := true], NodeSet(order'))
  {
    var seen := NodeSet(order);
    Discover(g, s, order, seen, head, k, x);
    ProcessedGrow(g, order, seen, head - 1, x);
    MarkStep(visited, seen, x.node);
    SliceAppend(order, head, x);
  }

  /** Visiting an unvisited successor x also counts it at its distance. */
  lemma Visit(g: Graph, s: nat, order: seq<BfsNode>, head: nat, k: nat, x: BfsNode, order': seq<BfsNode>,
              visited: seq<bool>, m: map<int, int>, m': map<int, int>, before: map<int, int>)
    requires ValidGraph(g) && |visited| == NumNodes(g)
    requires Searching(g, s, order, head, k) && k < |Succ(g, order[head - 1].node)|
    requires x == BfsNode(Succ(g, order[head - 1].node)[k], order[head - 1].distance + 1)
    requires Marked(visited, NodeSet(order)) && !visited[x.node]
    requires Counted(m, before, order)
    requires order' == order + [x] && m' == m[x.distance := ValueIn(m, x.distance) + 1]
    ensures Searching(g, s, order', head, k + 1) && order'[head - 1] == order[head - 1]
    ensures order'[head..] == order[head..] + [x]
    ensures Marked(visited[x.node := true], NodeSet(order'))
    ensures Counted(m', before, order')
  {
    Explore(g, s, order, head, k, x, order', visited);
    CountStep(m, before, order, x);
  }

  /** Once all successors of the polled node are seen, it counts as processed. */
  lemma Done(g: Graph, s: nat, order: seq<BfsNode>, head: nat)
    requires 1 <= head <= |order|
    requires Searching(g, s, order, head, |Succ(g, order[head - 1].node)|)
    ensures BfsInv(g, s, order, head) && Frontier(order, head)
    ensures Processed(g, order, NodeSet(order), head)
  {
  }

  /**
   * `updateDistanceDistribution`: a breadth-first search from node that adds
   * one pair at distance d for every node at distance exactly d >= 1; the
   * source itself is not counted, and no other distance is touched.
   */
  method UpdateDistanceDistribution(bfs: BfsTraversal, distribution: DistanceDistribution, node: nat)
    requires ValidGraph(bfs.graph) && node < NumNodes(bfs.graph)
    modifies distribution
    ensures forall d: nat :: 1 <= d < NumNodes(bfs.graph) ==>
      distribution.GetValue(d) == old(distribution.GetValue(d)) + |Layer(bfs.graph, node, d)|
    ensures forall d: int :: d < 1 || NumNodes(bfs.graph) <= d ==>
      distribution.GetValue(d) == old(distribution.GetValue(d))
    ensures distribution.Total() == old(distribution.Total()) + |ReachableSet(bfs.graph, node)| - 1
    ensures old(distribution.Distances()) <= distribution.Distances()
    ensures forall d :: d in distribution.Distances() && d !in old(distribution.Distances()) ==>
      1 <= d < NumNodes(bfs.graph)
  {
    var g := bfs.graph;
    var n := |g.successors|;
    var visited := new bool[n];
    for i := 0 to n
      modifies visited
      invariant forall j :: 0 <= j < i ==> !visited[j]
    {
      visited[i] := false;
    }
    visited[node] := true;

    var queue := [BfsNode(node, 0)];
    ghost var before := distribution.distributionMap;
    ghost var order := queue;
    ghost var head := 0;
    assert Nodes(order) == [node];
    assert NodeSet(order) == {node};

    while queue != []
      invariant BfsInv(g, node, order, head) && Frontier(order, head) && queue == order[head..]
      invariant Processed(g, order, NodeSet(order), head)
      invariant visited.Length == n && Marked(visited[..], NodeSet(order))
      invariant Counted(distribution.distributionMap, before, order)
      decreases n - head
    {
      RecordedBound(g, node, order);
      var bfsNode := queue[0];
      queue := queue[1..];
      PollNext(g, node, order, head);
      head := head + 1;
      queue, order := VisitSuccessors(g, node, visited, distribution, bfsNode, queue, order, head, before);
    }

    Conclude(g, node, order, distribution.distributionMap, before);
  }

  /** What a finished search has added to the distribution, distance by distance. */
  lemma Conclude(g: Graph, s: nat, order: seq<BfsNode>, m: map<int, int>, before: map<int, int>)
    requires ValidGraph(g) && s < NumNodes(g)
    requires BfsInv(g, s, order, |order|) && Processed(g, order, NodeSet(order), |order|)
    requires Counted(m, before, order)
    ensures forall d: nat :: 1 <= d < NumNodes(g) ==> ValueIn(m, d) == ValueIn(before, d) + |Layer(g, s, d)|
    ensures forall d: int :: d < 1 || NumNodes(g) <= d ==> ValueIn(m, d) == ValueIn(before, d)
    ensures Sum(m) == Sum(before) + |ReachableSet(g, s)| - 1
    ensures forall d :: d in m && d !in before ==> 1 <= d < NumNodes(g)
    ensures before.Keys <= m.Keys
  {
    FinishedReach(g, s, order, NodeSet(order));
    forall d: nat | 1 <= d
      ensures CountAt(order, d) == |Layer(g, s, d)|
    {
      FinishedLayer(g, s, order, NodeSet(order), d);
    }
    RecordedBound(g, s, order);
    RecordedFacts(g, s, order);
    forall d: int | d < 0 || NumNodes(g) <= d
      ensures CountAt(order, d) == 0
    {
      CountAtNone(order, d);
    }
  }

  /**
   * The successor loop of `updateDistanceDistribution` for the node just
   * polled: every successor not yet visited is marked, enqueued one step
   * further away than the polled node, and counted at that distance.
   */
  method VisitSuccessors(g: Graph, s: nat, visited: array<bool>, distribution: DistanceDistribution,
                         bfsNode: BfsNode, queue: seq<BfsNode>,
                         ghost order: seq<BfsNode>, ghost head: nat, ghost before: map<int, int>)
    returns (queue': seq<BfsNode>, ghost order': seq<BfsNode>)
    requires ValidGraph(g) && visited.Length == NumNodes(g)
    requires Searching(g, s, order, head, 0) && order[head - 1] == bfsNode && queue == order[head..]
    requires Marked(visited[..], NodeSet(order)) && Counted(distribution.distributionMap, before, order)
    modifies visited, distribution
    ensures BfsInv(g, s, order', head) && Frontier(order', head) && queue' == order'[head..]
    ensures Processed(g, order', NodeSet(order'), head)
    ensures Marked(visited[..], NodeSet(order')) && Counted(distribution.distributionMap, before, order')
  {
    queue', order' := queue, order;
    var successors := g.successors[bfsNode.node];
    assert successors == Succ(g, order[head - 1].node);
    for k := 0 to |successors|
      invariant Searching(g, s, order', head, k) && order'[head - 1] == bfsNode
      invariant queue' == order'[head..]
      invariant Marked(visited[..], NodeSet(order')) && Counted(distribution.distributionMap, before, order')
    {
      queue', order' := VisitSuccessor(g, s, visited, distribution, bfsNode, k, queue', order', head, before);
    }
    Done(g, s, order', head);
  }

  /** One turn of the successor loop: the k-th successor of the polled node. */
  method VisitSuccessor(g: Graph, s: nat, visited: array<bool>, distribution: DistanceDistribution,
                        bfsNode: BfsNode, k: nat, queue: seq<BfsNode>,
                        ghost order: seq<BfsNode>, ghost head: nat, ghost before: map<int, int>)
    returns (queue': seq<BfsNode>, ghost order': seq<BfsNode>)
    requires ValidGraph(g) && visited.Length == NumNodes(g)
    requires Searching(g, s, order, head, k) && order[head - 1] == bfsNode && queue == order[head..]
    requires k < |Succ(g, bfsNode.node)|
    requires Marked(visited[..], NodeSet(order)) && Counted(distribution.distributionMap, before, order)
    modifies visited, distribution
    ensures Searching(g, s, order', head, k + 1) && order'[head - 1] == bfsNode && queue' == order'[head..]
    ensures Marked(visited[..], NodeSet(order')) && Counted(distribution.distributionMap, before, order')
  {
    var next := g.successors[bfsNode.node][k];
    if !visited[next] {
      ghost var marks := visited[..];
      visited[next] := true;
      var distance := bfsNode.distance + 1;
      var discovered := BfsNode(next, distance);
      queue' := queue + [discovered];
      ghost var counts := distribution.distributionMap;
      var _ := distribution.IncrementNumberOfPairs(distance);
      order' := order + [discovered];
      Visit(g, s, order, head, k, discovered, order', marks, counts, distribution.distributionMap, before);
      assert visited[..] == marks[next := true];
    } else {
      Skip(g, s, order, head, k, visited[..]);
      queue', order' := queue, order;
    }
  }

  // ---------------------------------------------------------------------
  // Reachable nodes
  // ---------------------------------------------------------------------

  /** No element occurs twice. */
  ghost predicate NoDuplicates(ns: seq<nat>)
  {
    forall i, j :: 0 <= i < j < |ns| ==> ns[i] != ns[j]
  }

  /** A discovery order never lists a node twice. */
  lemma {:induction false} RecordedDistinct(g: Graph, s: nat, order: seq<BfsNode>)
    requires Recorded(g, s, order)
    ensures NoDuplicates(Nodes(order))
    decreases |order|
  {
    if |order| > 1 {
      var prefix, last := order[..|order| - 1], |order| - 1;
      RecordedDistinct(g, s, prefix);
      forall i, j | 0 <= i < j < |order|
        ensures Nodes(order)[i] != Nodes(order)[j]
      {
        assert order[i] == prefix[i];
        if j < last {
          assert order[j] == prefix[j] && Nodes(prefix)[i] != Nodes(prefix)[j];
        } else {
          InNodeSet(prefix, i);
        }
      }
    }
  }

  /**
   * `getReachableNodes`: a breadth-first search from v that lists v first and
   * then every node it discovers, once each; the list holds exactly the nodes
   * reachable from v.
   */
  method GetReachableNodes(bfs: BfsTraversal, v: nat) returns (result: seq<nat>)
    requires ValidGraph(bfs.graph) && v < NumNodes(bfs.graph)
    ensures |result| >= 1 && result[0] == v
    ensures NoDuplicates(result)
    ensures Elems(result) == ReachableSet(bfs.graph, v)
  {
    var g := bfs.graph;
    var n := |g.successors|;
    var discovered := new bool[n];
    for i := 0 to n
      modifies discovered
      invariant forall j :: 0 <= j < i ==> !discovered[j]
    {
      discovered[i] := false;
    }

    var reachableNodes := [v];
    var queue := [v];
    discovered[v] := true;
    ghost var order := [BfsNode(v, 0)];
    ghost var head := 0;
    assert Nodes(order) == [v];
    assert NodeSet(order) == {v};

    while queue != []
      invariant BfsInv(g, v, order, head) && Frontier(order, head)
      invariant reachableNodes == Nodes(order) && queue == Nodes(order)[head..]
      invariant Processed(g, order, NodeSet(order), head)
      invariant discovered.Length == n && Marked(discovered[..], NodeSet(order))
      decreases n - head
    {
      RecordedBound(g, v, order);
      var node := queue[0];
      queue := queue[1..];
      PollNext(g, v, order, head);
      head := head + 1;
      reachableNodes, queue, order := ExploreSuccessors(g, v, discovered, node, reachableNodes, queue, order, head);
    }

    FinishedReach(g, v, order, NodeSet(order));
    RecordedDistinct(g, v, order);
    RecordedFacts(g, v, order);
    result := reachableNodes;
  }

  /** The successor loop of `getReachableNodes` for the node just polled. */
  method ExploreSuccessors(g: Graph, s: nat, discovered: array<bool>, node: nat,
                           reachable: seq<nat>, queue: seq<nat>, ghost order: seq<BfsNode>, ghost head: nat)
    returns (reachable': seq<nat>, queue': seq<nat>, ghost order': seq<BfsNode>)
    requires ValidGraph(g) && discovered.Length == NumNodes(g)
    requires Searching(g, s, order, head, 0) && order[head - 1].node == node
    requires reachable == Nodes(order) && queue == Nodes(order)[head..]
    requires Marked(discovered[..], NodeSet(order))
    modifies discovered
    ensures BfsInv(g, s, order', head) && Frontier(order', head)
    ensures reachable' == Nodes(order') && queue' == Nodes(order')[head..]
    ensures Processed(g, order', NodeSet(order'), head)
    ensures Marked(discovered[..], NodeSet(order'))
  {
    reachable', queue', order' := reachable, queue, order;
    var successors := g.successors[node];
    assert successors == Succ(g, order[head - 1].node);
    for k := 0 to |successors|
      invariant Searching(g, s, order', head, k) && order'[head - 1].node == node
      invariant reachable' == Nodes(order') && queue' == Nodes(order')[head..]
      invariant Marked(discovered[..], NodeSet(order'))
    {
      reachable', queue', order' := ExploreSuccessor(g, s, discovered, node, k, reachable', queue', order', head);
    }
    Done(g, s, order', head);
  }

  /** One turn of the successor loop of `getReachableNodes`. */
  method ExploreSuccessor(g: Graph, s: nat, discovered: array<bool>, node: nat, k: nat,
                          reachable: seq<nat>, queue: seq<nat>, ghost order: seq<BfsNode>, ghost head: nat)
    returns (reachable': seq<nat>, queue': seq<nat>, ghost order': seq<BfsNode>)
    requires ValidGraph(g) && discovered.Length == NumNodes(g)
    requires Searching(g, s, order, head, k) && order[head - 1].node == node && k < |Succ(g, node)|
    requires reachable == Nodes(order) && queue == Nodes(order)[head..]
    requires Marked(discovered[..], NodeSet(order))
    modifies discovered
    ensures Searching(g, s, order', head, k + 1) && order'[head - 1].node == node
    ensures reachable' == Nodes(order') && queue' == Nodes(order')[head..]
    ensures Marked(discovered[..], NodeSet(order'))
  {
    var neighbor := g.successors[node][k];
    if !discovered[neighbor] {
      ghost var marks := discovered[..];
      discovered[neighbor] := true;
      reachable' := reachable + [neighbor];
      queue' := queue + [neighbor];
      ghost var x := BfsNode(neighbor, order[head - 1].distance + 1);
      order' := order + [x];
      Explore(g, s, order, head, k, x, order', marks);
      NodesAppend(order, head, x);
      assert discovered[..] == marks[neighbor := true];
    } else {
      Skip(g, s, order, head, k, discovered[..]);
      reachable', queue', order' := reachable, queue, order;
    }
  }

  // ---------------------------------------------------------------------
  // The exact distance distribution
  // ---------------------------------------------------------------------

  /** The number of pairs (v, w) with v < k and w at distance exactly d from v. */
  ghost function PairsAt(g: Graph, d: nat, k: nat): nat
  {
    if k == 0 then 0 else PairsAt(g, d, k - 1) + |Layer(g, k - 1, d)|
  }

  /** The number of pairs (v, w) with v < k and w != v reachable from v. */
  ghost function ReachablePairs(g: Graph, k: nat): int
  {
    if k == 0 then 0 else ReachablePairs(g, k - 1) + |ReachableSet(g, k - 1)| - 1
  }

  /** The counts a map holds after searches from the nodes below k. */
  ghost predicate Accumulated(g: Graph, m: map<int, int>, k: nat)
  {
    && (forall d: nat :: 1 <= d < NumNodes(g) ==> ValueIn(m, d) == PairsAt(g, d, k))
    && (forall d: int :: d < 1 || NumNodes(g) <= d ==> ValueIn(m, d) == 0)
    && Sum(m) == ReachablePairs(g, k)
    && (forall d :: d in m ==> 1 <= d < NumNodes(g))
  }

  /** One more search, from node k, extends the accumulated counts to the nodes below k' = k + 1. */
  lemma AccumulateStep(g: Graph, m: map<int, int>, m': map<int, int>, k: nat, k': nat)
    requires Accumulated(g, m, k) && k' == k + 1
    requires forall d: nat :: 1 <= d < NumNodes(g) ==> ValueIn(m', d) == ValueIn(m, d) + |Layer(g, k, d)|
    requires forall d: int :: d < 1 || NumNodes(g) <= d ==> ValueIn(m', d) == ValueIn(m, d)
    requires Sum(m') == Sum(m) + |ReachableSet(g, k)| - 1
    requires forall d :: d in m' && d !in m ==> 1 <= d < NumNodes(g)
    ensures Accumulated(g, m', k')
  {
  }

  /**
   * One turn of the node loop of `getDistanceDistribution`: the search from
   * node, after which the counts are those of the searches from the nodes
   * below node' = node + 1.
   */
  method SearchFrom(bfs: BfsTraversal, distribution: DistanceDistribution, node: nat) returns (node': nat)
    requires ValidGraph(bfs.graph) && node < NumNodes(bfs.graph)
    requires Accumulated(bfs.graph, distribution.distributionMap, node)
    modifies distribution
    ensures node' == node + 1
    ensures Accumulated(bfs.graph, distribution.distributionMap, node')
  {
    node' := node + 1;
    ghost var m := distribution.distributionMap;
    UpdateDistanceDistribution(bfs, distribution, node);
    forall d: int
      ensures ValueIn(m, d) == old(distribution.GetValue(d))
      ensures ValueIn(distribution.distributionMap, d) == distribution.GetValue(d)
      ensures d in m <==> d in old(distribution.Distances())
      ensures d in distribution.distributionMap <==> d in distribution.Distances()
    {
    }
    AccumulateStep(bfs.graph, m, distribution.distributionMap, node, node');
  }

  /** After the searches from all n nodes, the counts are the pair counts of the whole graph. */
  lemma AccumulatedAll(g: Graph, m: map<int, int>, k: nat)
    requires Accumulated(g, m, k) && k == NumNodes(g)
    ensures forall d: nat :: 1 <= d < NumNodes(g) ==> ValueIn(m, d) == PairsAt(g, d, NumNodes(g))
    ensures forall d: int :: d < 1 || NumNodes(g) <= d ==> ValueIn(m, d) == 0
    ensures Sum(m) == ReachablePairs(g, NumNodes(g))
    ensures forall d :: d in m ==> 1 <= d < NumNodes(g)
  {
  }

  /**
   * `getDistanceDistribution`: one search from every node. The count at each
   * distance d >= 1 is the number of pairs of nodes at distance exactly d,
   * and the total is the number of pairs (v, w) with w != v reachable from v.
   */
  method GetDistanceDistribution(bfs: BfsTraversal) returns (distribution: DistanceDistribution)
    requires ValidGraph(bfs.graph)
    ensures fresh(distribution)
    ensures forall d: nat :: 1 <= d < NumNodes(bfs.graph) ==>
      distribution.GetValue(d) == PairsAt(bfs.graph, d, NumNodes(bfs.graph))
    ensures forall d: int :: d < 1 || NumNodes(bfs.graph) <= d ==> distribution.GetValue(d) == 0
    ensures distribution.Total() == ReachablePairs(bfs.graph, NumNodes(bfs.graph))
    ensures forall d :: d in distribution.Distances() ==> 1 <= d < NumNodes(bfs.graph)
  {
    var n := |bfs.graph.successors|;
    distribution := new DistanceDistribution();
    var node := 0;
    while node < n
      invariant node <= n && Accumulated(bfs.graph, distribution.distributionMap, node)
      decreases n - node
    {
      node := SearchFrom(bfs, distribution, node);
    }
    AccumulatedAll(bfs.graph, distribution.distributionMap, node);
  }
}

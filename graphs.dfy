/**
 * Graphs as the algorithms see them: nodes 0..n-1, each with a list of
 * successors, and a flag telling whether the graph allows random access to
 * the successors of any node.
 *
 * The ball of radius t around v is the set of nodes v reaches in at most t
 * steps. It is defined by the same recursion HyperBall applies to its
 * counters: the ball of radius t + 1 around v is the ball of radius t around
 * v together with the balls of radius t around each successor of v.
 */
module Graphs {

  datatype Graph = Graph(successors: seq<seq<nat>>, randomAccess: bool)

  /** The result of a constructor that may reject its arguments with an `InvalidParameterException`. */
  datatype Outcome<T> = Success(value: T) | Failure(message: string)

  function NumNodes(g: Graph): nat
  {
    |g.successors|
  }

  /** Every successor is a node of the graph. */
  predicate ValidGraph(g: Graph)
  {
    forall v, i :: 0 <= v < |g.successors| && 0 <= i < |g.successors[v]| ==>
      g.successors[v][i] < |g.successors|
  }

  /** The successors of v (none for a number that is not a node). */
  function Succ(g: Graph, v: nat): seq<nat>
  {
    if v < |g.successors| then g.successors[v] else []
  }

  /** The nodes v reaches in at most t steps. */
  function Ball(g: Graph, v: nat, t: nat): set<nat>
    decreases t, 0, 0
  {
    if t == 0 then {v}
    else Ball(g, v, t - 1) + BallsOf(g, Succ(g, v), t - 1)
  }

  /** The union of the balls of radius t around the nodes of ws. */
  function BallsOf(g: Graph, ws: seq<nat>, t: nat): set<nat>
    decreases t, 1, |ws|
  {
    if ws == [] then {}
    else BallsOf(g, ws[..|ws| - 1], t) + Ball(g, ws[|ws| - 1], t)
  }

  /** Nodes at distance exactly d: in the ball of radius d but not of radius d - 1. */
  function Layer(g: Graph, v: nat, d: nat): set<nat>
  {
    if d == 0 then {v} else Ball(g, v, d) - Ball(g, v, d - 1)
  }

  ghost predicate Reachable(g: Graph, v: nat, w: nat)
  {
    exists t: nat :: w in Ball(g, v, t)
  }

  /** The nodes reachable from v (v included). */
  ghost function ReachableSet(g: Graph, v: nat): set<nat>
  {
    set w | 0 <= w < NumNodes(g) && Reachable(g, v, w)
  }

  /** A set of nodes that contains the successors of each of its members. */
  ghost predicate Closed(g: Graph, S: set<nat>)
  {
    forall u, i :: u in S && 0 <= i < |Succ(g, u)| ==> Succ(g, u)[i] in S
  }

  // ---------------------------------------------------------------------
  // Lemmas
  // ---------------------------------------------------------------------

  /** Membership in a union of balls: some node of ws has y in its ball. */
  lemma {:induction false} BallsOfMember(g: Graph, ws: seq<nat>, t: nat, y: nat)
    ensures y in BallsOf(g, ws, t) <==> exists i :: 0 <= i < |ws| && y in Ball(g, ws[i], t)
    decreases |ws|
  {
    if ws != [] {
      var ws' := ws[..|ws| - 1];
      BallsOfMember(g, ws', t, y);
      if exists i :: 0 <= i < |ws| && y in Ball(g, ws[i], t) {
        var i :| 0 <= i < |ws| && y in Ball(g, ws[i], t);
        if i < |ws| - 1 {
          assert ws'[i] == ws[i];
        }
      }
      if exists i :: 0 <= i < |ws'| && y in Ball(g, ws'[i], t) {
        var i :| 0 <= i < |ws'| && y in Ball(g, ws'[i], t);
        assert ws[i] == ws'[i];
      }
    }
  }

  /** y is in the ball of radius t + 1 around v iff it is v's ball of radius t or some successor's. */
  lemma BallStep(g: Graph, v: nat, t: nat, y: nat)
    ensures y in Ball(g, v, t + 1) <==>
      y in Ball(g, v, t) || exists i :: 0 <= i < |Succ(g, v)| && y in Ball(g, Succ(g, v)[i], t)
  {
    BallsOfMember(g, Succ(g, v), t, y);
  }

  /** Balls grow with their radius. */
  lemma {:induction false} BallMonotone(g: Graph, v: nat, t: nat, t': nat)
    requires t <= t'
    ensures Ball(g, v, t) <= Ball(g, v, t')
    decreases t' - t
  {
    if t < t' {
      BallMonotone(g, v, t, t' - 1);
    }
  }

  lemma CenterInBall(g: Graph, v: nat, t: nat)
    ensures v in Ball(g, v, t)
  {
    BallMonotone(g, v, 0, t);
  }

  /** Following one edge out of the ball of radius d lands in the ball of radius d + 1. */
  lemma {:induction false} BallExtend(g: Graph, s: nat, d: nat, u: nat, i: nat)
    requires u in Ball(g, s, d) && i < |Succ(g, u)|
    ensures Succ(g, u)[i] in Ball(g, s, d + 1)
    decreases d
  {
    var w := Succ(g, u)[i];
    if d == 0 {
      assert u == s;
      BallStep(g, s, 0, w);
    } else {
      BallStep(g, s, d - 1, u);
      if u in Ball(g, s, d - 1) {
        BallExtend(g, s, d - 1, u, i);
        BallMonotone(g, s, d, d + 1);
      } else {
        var j :| 0 <= j < |Succ(g, s)| && u in Ball(g, Succ(g, s)[j], d - 1);
        BallExtend(g, Succ(g, s)[j], d - 1, u, i);
        BallStep(g, s, d, w);
      }
    }
  }

  /**
   * A node of the ball of radius d + 1 is in the ball of radius d or is a
   * successor of a node of it.
   */
  lemma {:induction false} BallSplit(g: Graph, s: nat, d: nat, w: nat)
    requires w in Ball(g, s, d + 1)
    ensures w in Ball(g, s, d) || exists u, i :: u in Ball(g, s, d) && 0 <= i < |Succ(g, u)| && Succ(g, u)[i] == w
    decreases d
  {
    BallStep(g, s, d, w);
    if w !in Ball(g, s, d) {
      var j :| 0 <= j < |Succ(g, s)| && w in Ball(g, Succ(g, s)[j], d);
      var x := Succ(g, s)[j];
      if d == 0 {
        assert w == x;
        assert s in Ball(g, s, 0);
      } else {
        BallSplit(g, x, d - 1, w);
        if w in Ball(g, x, d - 1) {
          BallStep(g, s, d - 1, w);
        } else {
          var u, i :| u in Ball(g, x, d - 1) && 0 <= i < |Succ(g, u)| && Succ(g, u)[i] == w;
          BallStep(g, s, d - 1, u);
        }
      }
    }
  }

  /** A closed set that contains v contains every ball around v. */
  lemma {:induction false} ClosedContainsBall(g: Graph, S: set<nat>, v: nat, t: nat)
    requires Closed(g, S) && v in S
    ensures Ball(g, v, t) <= S
    decreases t
  {
    if t > 0 {
      ClosedContainsBall(g, S, v, t - 1);
      forall y | y in Ball(g, v, t)
        ensures y in S
      {
        BallStep(g, v, t - 1, y);
        if y !in Ball(g, v, t - 1) {
          var i :| 0 <= i < |Succ(g, v)| && y in Ball(g, Succ(g, v)[i], t - 1);
          ClosedContainsBall(g, S, Succ(g, v)[i], t - 1);
        }
      }
    }
  }

  /** In a valid graph the balls around a node hold only nodes. */
  lemma {:induction false} BallInGraph(g: Graph, v: nat, t: nat)
    requires ValidGraph(g) && v < NumNodes(g)
    ensures forall y :: y in Ball(g, v, t) ==> y < NumNodes(g)
    decreases t
  {
    if t > 0 {
      BallInGraph(g, v, t - 1);
      forall y | y in Ball(g, v, t)
        ensures y < NumNodes(g)
      {
        BallStep(g, v, t - 1, y);
        if y !in Ball(g, v, t - 1) {
          var i :| 0 <= i < |Succ(g, v)| && y in Ball(g, Succ(g, v)[i], t - 1);
          BallInGraph(g, Succ(g, v)[i], t - 1);
        }
      }
    }
  }

  /** A node lies in at most one layer. */
  lemma LayersDisjoint(g: Graph, v: nat, d: nat, d': nat, x: nat)
    requires x in Layer(g, v, d) && x in Layer(g, v, d')
    ensures d == d'
  {
    if d < d' {
      BallMonotone(g, v, d, d' - 1);
    } else if d' < d {
      BallMonotone(g, v, d', d - 1);
    }
  }
}

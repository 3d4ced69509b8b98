/** Directed paths and reachability over one adjacency map (`node -> neighbour set`),
    the shape of both of hdgraph's maps. */
module Paths {

  /** A node id: a Go `int`, 64 bits wide. */
  type Node = x: int | -0x8000_0000_0000_0000 <= x < 0x8000_0000_0000_0000

  /** One adjacency map: `out` (successors) or `in` (predecessors) of hdgraph's Graph. */
  type Adjacency = map<Node, set<Node>>

  /** The neighbours of `x`. A node without an entry has none, as ranging over a
      missing Go map entry (a nil map) yields nothing. */
  function Succ(g: Adjacency, x: Node): set<Node>
  {
    if x in g then g[x] else {}
  }

  /** `p` is a walk along `g`: every element after the first is a neighbour of the one before. */
  ghost predicate IsPath(g: Adjacency, p: seq<Node>)
  {
    |p| >= 1 && forall t :: 0 <= t < |p| - 1 ==> p[t + 1] in Succ(g, p[t])
  }

  /** `v` can be reached from `u` along zero or more edges of `g`. */
  ghost predicate Reach(g: Adjacency, u: Node, v: Node)
  {
    exists p :: IsPath(g, p) && p[0] == u && p[|p| - 1] == v
  }

  ghost predicate MutuallyReachable(g: Adjacency, u: Node, v: Node)
  {
    Reach(g, u, v) && Reach(g, v, u)
  }

  lemma ReachRefl(g: Adjacency, u: Node)
    ensures Reach(g, u, u)
  {
    assert IsPath(g, [u]);
  }

  /** Any stretch of a path is a path; so its later element is reachable from its earlier one. */
  lemma PathReach(g: Adjacency, p: seq<Node>, i: int, j: int)
    requires IsPath(g, p) && 0 <= i <= j < |p|
    ensures Reach(g, p[i], p[j])
  {
    var q := p[i..j + 1];
    assert forall t :: 0 <= t < |q| ==> q[t] == p[i + t];
    assert IsPath(g, q);
    assert q[0] == p[i] && q[|q| - 1] == p[j];
  }

  lemma ReachStep(g: Adjacency, u: Node, v: Node, w: Node)
    requires Reach(g, u, v) && w in Succ(g, v)
    ensures Reach(g, u, w)
  {
    var p :| IsPath(g, p) && p[0] == u && p[|p| - 1] == v;
    var q := p + [w];
    assert forall t :: 0 <= t < |p| ==> q[t] == p[t];
    assert IsPath(g, q);
    assert q[0] == u && q[|q| - 1] == w;
  }

  lemma ReachEdge(g: Adjacency, u: Node, v: Node)
    requires v in Succ(g, u)
    ensures Reach(g, u, v)
  {
    ReachRefl(g, u);
    ReachStep(g, u, u, v);
  }

  /** A path to another node starts with an edge. */
  lemma FirstStep(g: Adjacency, u: Node, v: Node) returns (w: Node)
    requires Reach(g, u, v) && u != v
    ensures w in Succ(g, u) && Reach(g, w, v)
  {
    var p :| IsPath(g, p) && p[0] == u && p[|p| - 1] == v;
    w := p[1];
    PathReach(g, p, 1, |p| - 1);
  }

  /** Nothing is reachable from a node without successors except itself. */
  lemma SinkReachesOnlyItself(g: Adjacency, u: Node, v: Node)
    requires Succ(g, u) == {} && Reach(g, u, v)
    ensures v == u
  {
    if v != u {
      var w := FirstStep(g, u, v);
    }
  }

  lemma ReachTrans(g: Adjacency, u: Node, v: Node, w: Node)
    requires Reach(g, u, v) && Reach(g, v, w)
    ensures Reach(g, u, w)
  {
    var p :| IsPath(g, p) && p[0] == u && p[|p| - 1] == v;
    var q :| IsPath(g, q) && q[0] == v && q[|q| - 1] == w;
    var r := p + q[1..];
    forall t | 0 <= t < |r| - 1
      ensures r[t + 1] in Succ(g, r[t])
    {
      if t < |p| - 1 {
        assert r[t] == p[t] && r[t + 1] == p[t + 1];
      } else {
        assert r[t] == q[t - |p| + 1] && r[t + 1] == q[t - |p| + 2];
      }
    }
    assert IsPath(g, r);
    assert r[|r| - 1] == w by {
      if |q| == 1 { assert r == p; } else { assert r[|r| - 1] == q[|q| - 1]; }
    }
  }

  /** A path that starts inside `s` and ends outside it has an edge that leaves `s`. */
  lemma {:induction false} Crossing(g: Adjacency, p: seq<Node>, s: seq<Node>) returns (t: int)
    requires IsPath(g, p) && p[0] in s && p[|p| - 1] !in s
    ensures 0 <= t < |p| - 1 && p[t] in s && p[t + 1] !in s
  {
    if p[1] !in s {
      t := 0;
    } else {
      var q := p[1..];
      assert forall i :: 0 <= i < |q| ==> q[i] == p[i + 1];
      assert IsPath(g, q);
      var t' := Crossing(g, q, s);
      t := t' + 1;
    }
  }

  /** Reading `ins` backwards walks `outs` forwards, when `ins` lists, for each of the
      nodes `nodes`, exactly its predecessors in `outs` among `nodes`. */
  lemma {:induction false} ReachReversed(outs: Adjacency, ins: Adjacency, nodes: set<Node>, u: Node, v: Node)
    requires forall d, s :: d in nodes ==> (s in Succ(ins, d) <==> s in nodes && d in Succ(outs, s))
    requires u in nodes && Reach(ins, u, v)
    ensures v in nodes && Reach(outs, v, u)
  {
    var p :| IsPath(ins, p) && p[0] == u && p[|p| - 1] == v;
    ReachReversedPath(outs, ins, nodes, p);
  }

  lemma {:induction false} ReachReversedPath(outs: Adjacency, ins: Adjacency, nodes: set<Node>, p: seq<Node>)
    requires forall d, s :: d in nodes ==> (s in Succ(ins, d) <==> s in nodes && d in Succ(outs, s))
    requires IsPath(ins, p) && p[0] in nodes
    ensures p[|p| - 1] in nodes && Reach(outs, p[|p| - 1], p[0])
    decreases |p|
  {
    if |p| == 1 {
      ReachRefl(outs, p[0]);
    } else {
      var q := p[..|p| - 1];
      assert forall i :: 0 <= i < |q| ==> q[i] == p[i];
      assert IsPath(ins, q);
      ReachReversedPath(outs, ins, nodes, q);
      var a, b := p[|p| - 2], p[|p| - 1];
      assert b in Succ(ins, a);
      ReachEdge(outs, b, a);
      ReachTrans(outs, b, a, p[0]);
    }
  }
}

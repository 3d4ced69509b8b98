/** A client of hdgraph: one dependency edge and the order StrongComponents
    must report it in, derived from the method contracts alone. */
module Usage {
  import opened Paths
  import opened Components
  import opened Traversal
  import opened GraphSpec
  import opened HdGraph

  /** New, then Link(0, 1): two nodes, no cycle, so StrongComponents returns
      one singleton per node, the source of the edge first. */
  method LinkThenComponents() returns (components: seq<seq<Node>>)
    ensures components == [[0], [1]]
  {
    var g := new Graph();
    ghost var m := g.Model();
    g.Link(0, 1);
    OneEdge(m);
    ghost var outs := g.outs;
    components := g.StrongComponents();
    YieldsTwoSingletons(outs, components);
  }

  /** The graph `0 -> 1` built from the empty one meets StrongComponents'
      requirements and mirrors its maps. */
  lemma OneEdge(m: Maps)
    requires m == Maps(map[], map[])
    ensures Linked(m, 0, 1).outs.Keys == {0, 1} && |Linked(m, 0, 1).outs| == 2
    ensures Succ(Linked(m, 0, 1).outs, 0) == {1} && Succ(Linked(m, 0, 1).outs, 1) == {}
    ensures NeighboursInRange(Linked(m, 0, 1).outs, 2) && NeighboursInRange(Linked(m, 0, 1).ins, 2)
    ensures Coherent(Linked(m, 0, 1))
  {
    var r := Linked(m, 0, 1);
    assert r.outs.Keys == {0, 1} && r.ins.Keys == {0, 1};
    assert Succ(r.outs, 0) == {1} && Succ(r.outs, 1) == {};
    assert Succ(r.ins, 1) == {0} && Succ(r.ins, 0) == {};
    OneEdgeShape(r);
  }

  /** Any pair of maps holding just the edge `0 -> 1`, in both directions. */
  lemma OneEdgeShape(r: Maps)
    requires r.outs.Keys == {0, 1} && r.ins.Keys == {0, 1}
    requires Succ(r.outs, 0) == {1} && Succ(r.outs, 1) == {}
    requires Succ(r.ins, 1) == {0} && Succ(r.ins, 0) == {}
    ensures |r.outs| == 2
    ensures NeighboursInRange(r.outs, 2) && NeighboursInRange(r.ins, 2)
    ensures Coherent(r)
  {
    assert |r.outs| == |r.outs.Keys| == 2;
    forall x, y | x in r.outs && y in r.outs[x] ensures 0 <= y < 2 {
      assert y in Succ(r.outs, x);
    }
    forall x, y | x in r.ins && y in r.ins[x] ensures 0 <= y < 2 {
      assert y in Succ(r.ins, x);
    }
    forall d, s | d in r.outs ensures s in Succ(r.ins, d) <==> s in r.outs && d in Succ(r.outs, s) {
      assert d == 0 || d == 1;
    }
  }

  /** The only partition of the graph `0 -> 1` into strongly connected
      components in dependency order. */
  lemma YieldsTwoSingletons(outs: Adjacency, cs: seq<seq<Node>>)
    requires outs.Keys == {0, 1} && Succ(outs, 0) == {1} && Succ(outs, 1) == {}
    requires Partitions(cs, outs.Keys)
    requires ComponentsAreSccs(outs, outs.Keys, cs)
    requires TopologicallySorted(outs, cs)
    ensures cs == [[0], [1]]
  {
    var nodes := outs.Keys;
    assert !MutuallyReachable(outs, 0, 1) by {
      if Reach(outs, 1, 0) {
        SinkReachesOnlyItself(outs, 1, 0);
      }
    }
    assert 0 in nodes && 1 in nodes;
    var k :| 0 <= k < |cs| && 0 in cs[k];
    var l :| 0 <= l < |cs| && 1 in cs[l];
    assert 1 in Succ(outs, 0);
    Singleton(cs, nodes, k, 0);
    Singleton(cs, nodes, l, 1);
    OnlyTwo(cs, nodes, k, l);
  }

  /** In a partition of `{0, 1}` that keeps 0 and 1 apart, a component holding
      `x` is exactly `[x]`. */
  lemma Singleton(cs: seq<seq<Node>>, nodes: set<Node>, k: int, x: Node)
    requires nodes == {0, 1} && Partitions(cs, nodes)
    requires 0 <= k < |cs| && x in cs[k] && x in nodes
    requires !SameComponent(cs, 0, 1)
    ensures cs[k] == [x]
  {
    forall i | 0 <= i < |cs[k]| ensures cs[k][i] == x {
      assert cs[k][i] in cs[k];
      assert cs[k][i] in nodes;
      assert !(0 in cs[k] && 1 in cs[k]);
    }
    forall i | 0 <= i < |cs[k]| ensures cs[k][i] == cs[k][0] && i == 0 {
    }
    assert cs[k][|cs[k]| - 1] == x;
  }

  /** Two singleton components `[0]` before `[1]` leave no room for a third. */
  lemma OnlyTwo(cs: seq<seq<Node>>, nodes: set<Node>, k: int, l: int)
    requires nodes == {0, 1} && Partitions(cs, nodes)
    requires 0 <= k < l < |cs| && cs[k] == [0] && cs[l] == [1]
    ensures cs == [[0], [1]]
  {
    forall j | 0 <= j < |cs| ensures |cs[j]| > 0 && (j == k || j == l) {
      assert cs[j][0] in cs[j];
      assert cs[j][0] in nodes;
      if cs[j][0] == 0 {
        assert cs[j][0] == cs[k][0];
      } else {
        assert cs[j][0] == cs[l][0];
      }
    }
    assert |cs[0]| > 0 && |cs[1]| > 0 && |cs[|cs| - 1]| > 0;
  }
}

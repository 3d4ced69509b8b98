/** hdgraph's Graph and dfser (hdgraph.go:16-144) as Dafny classes whose
    methods change their fields as the Go methods do. Each Graph edit is
    proved to produce the value GraphSpec gives it; StrongComponents is
    proved to return a partition of the nodes into strongly connected
    components in dependency order, whatever order the maps are ranged over. */
module HdGraph {
  import opened Paths
  import opened Components
  import opened Traversal
  import opened GraphSpec
  import opened Kosaraju

  class Graph {
    /** Go field `out`: node -> successors. */
    var outs: Adjacency
    /** Go field `in`: node -> predecessors. */
    var ins: Adjacency

    ghost function Model(): Maps
      reads this
    {
      Maps(outs, ins)
    }

    /** Holds in every state New and the four edits can reach. */
    ghost predicate Valid()
      reads this
    {
      KeysCovered(Model())
    }

    /** New (hdgraph.go:23-28): a graph with no nodes. */
    constructor ()
      ensures outs == map[] && ins == map[]
      ensures Valid() && WellFormed(Model())
    {
      outs := map[];
      ins := map[];
    }

    /** Add (hdgraph.go:31-36). */
    method Add(node: Node)
      modifies this
      ensures Model() == Added(old(Model()), node)
      ensures old(Valid()) ==> Valid()
    {
      if node !in outs {
        outs := outs[node := {}];
        ins := ins[node := {}];
      }
    }

    /** Remove (hdgraph.go:39-45): ranges over `node`'s successors, deleting
        `node` from each one's `in` set (a no-op where there is none), then
        deletes `node`'s `out` entry. */
    method Remove(node: Node)
      modifies this
      ensures Model() == Removed(old(Model()), node)
      ensures old(Valid()) ==> Valid()
    {
      var out := Succ(outs, node);
      var rest := out;
      while rest != {}
        invariant rest <= out
        invariant outs == old(outs)
        invariant ins == Scrub(old(ins), out - rest, node)
        decreases rest
      {
        var dst :| dst in rest;
        if dst in ins {
          ins := ins[dst := ins[dst] - {node}];
        }
        rest := rest - {dst};
        assert ins == Scrub(old(ins), out - rest, node);
      }
      assert out - rest == out;
      outs := outs - {node};
    }

    /** Link (hdgraph.go:48-53). Writing into `in[dst]` needs that entry, which
        Valid guarantees once Add has run. */
    method Link(src: Node, dst: Node)
      requires Valid()
      modifies this
      ensures Model() == Linked(old(Model()), src, dst)
      ensures Valid()
    {
      Add(src);
      Add(dst);
      outs := outs[src := outs[src] + {dst}];
      ins := ins[dst := ins[dst] + {src}];
    }

    /** Unlink (hdgraph.go:56-63). */
    method Unlink(src: Node, dst: Node)
      modifies this
      ensures Model() == Unlinked(old(Model()), src, dst)
      ensures old(Valid()) ==> Valid()
    {
      if src in outs {
        outs := outs[src := outs[src] - {dst}];
      }
      if dst in ins {
        ins := ins[dst := ins[dst] - {src}];
      }
    }

    /** StrongComponents (hdgraph.go:70-100), Kosaraju's two passes. The marker
        array has one slot per node and is indexed by node, so the nodes must be
        `0 .. |outs| - 1` and every neighbour one of them, or the Go code
        indexes out of range. The result always partitions the nodes; when the
        two maps mirror each other it lists the strongly connected components,
        each edge between two of them going from an earlier to a later one. */
    method StrongComponents() returns (components: seq<seq<Node>>)
      requires forall x :: x in outs ==> 0 <= x < |outs|
      requires NeighboursInRange(outs, |outs|) && NeighboursInRange(ins, |outs|)
      ensures Partitions(components, outs.Keys)
      ensures Coherent(Model()) ==> ComponentsAreSccs(outs, outs.Keys, components)
      ensures Coherent(Model()) ==> TopologicallySorted(outs, components)
    {
      ghost var m := Model();
      var n := |outs|;
      KeysAreIds(outs.Keys, n);
      var d := new Dfser(outs, n);
      d.FirstPass(outs.Keys);
      var order := d.order;
      Pass1Done(m, d.flip[..], order);
      d.order := [];
      d.graph := ins;
      ghost var roots: seq<Node>, idx: seq<int>;
      components, roots, idx := d.SecondPass(order);
      Pass2Done(m, d.flip[..], order, components, roots, idx);
    }
  }

  /** dfser (hdgraph.go:111-115): the map being searched, the post-order of
      finished nodes, and one marker per node. Pass 1 marks with `true`,
      pass 2 with `false`. */
  class Dfser {
    var graph: Adjacency
    var order: seq<Node>
    const flip: array<bool>

    /** The dfser literal of hdgraph.go:71-75: all markers start `false`. */
    constructor (graph: Adjacency, n: nat)
      ensures this.graph == graph && order == []
      ensures fresh(flip) && flip.Length == n
      ensures forall x :: 0 <= x < n ==> !flip[x]
    {
      this.graph := graph;
      order := [];
      flip := new bool[n](_ => false);
    }

    /** The first pass (hdgraph.go:77-81): a search from each node of `nodes`
        not yet marked, leaving in `order` a post-order of every node. */
    method FirstPass(nodes: set<Node>)
      requires NeighboursInRange(graph, flip.Length) && (forall x :: x in nodes ==> 0 <= x < flip.Length)
      requires order == [] && (forall x :: 0 <= x < flip.Length ==> !flip[x])
      modifies this`order, flip
      ensures DfsState(graph, flip[..], true, {}, order, []) && PostOrdered(graph, order)
      ensures AllMarked(flip[..], true, nodes)
    {
      assert forall x :: 0 <= x < flip.Length ==> flip[..][x] == flip[x];
      var rest := nodes;
      while rest != {}
        invariant rest <= nodes
        invariant DfsState(graph, flip[..], true, {}, order, []) && PostOrdered(graph, order)
        invariant AllMarked(flip[..], true, nodes - rest)
        decreases rest
      {
        var node :| node in rest;
        ghost var F := flip[..];
        var seen := SawTrue(node);
        ghost var G := flip[..];
        assert AllMarked(G, true, nodes - rest + {node});
        if !seen {
          Visit(graph, F, true, {}, order, [], node);
          Dfs1(node, [node]);
        } else {
          assert G == F;
        }
        MarkedStayMarked(G, flip[..], true, nodes - rest + {node});
        rest := rest - {node};
      }
      assert nodes - rest == nodes;
    }

    /** The second pass (hdgraph.go:88-97), once `graph` is the `in` map: from
        the last node of pass 1's `finished` backwards, each node not yet marked
        roots a search whose finished nodes form the next component. */
    method SecondPass(finished: seq<Node>) returns (components: seq<seq<Node>>, ghost roots: seq<Node>, ghost idx: seq<int>)
      requires NeighboursInRange(graph, flip.Length) && (forall x :: x in finished ==> 0 <= x < flip.Length)
      requires order == [] && DfsState(graph, flip[..], false, Taken([]), [], [])
      modifies this`order, flip
      ensures Pass2Facts(graph, finished, 0, components, roots, idx)
      ensures DfsState(graph, flip[..], false, Taken(components), [], [])
    {
      components, roots, idx := [], [], [];
      Pass2Start(graph, finished);
      var i := |finished| - 1;
      while i >= 0
        invariant -1 <= i < |finished|
        invariant order == []
        invariant Pass2Facts(graph, finished, i + 1, components, roots, idx)
        invariant DfsState(graph, flip[..], false, Taken(components), [], [])
        decreases i
      {
        var node := finished[i];
        assert node in finished;
        ghost var F := flip[..];
        var seen := SawFalse(node);
        if !seen {
          Visit(graph, F, false, Taken(components), [], [], node);
          Dfs2(node, [node], Taken(components));
          var component := order;
          Pass2Found(graph, finished, i, components, roots, idx, F, flip[..], component);
          components, roots, idx := components + [component], roots + [node], idx + [i];
          order := [];
        } else {
          assert flip[..] == F;
          Pass2Taken(graph, finished, i, components, roots, idx, F);
        }
        i := i - 1;
      }
    }

    /** sawTrue (hdgraph.go:117-121): marks `node` for pass 1 and says whether
        it was marked already. */
    method SawTrue(node: Node) returns (seen: bool)
      requires 0 <= node < flip.Length
      modifies flip
      ensures seen == old(flip[node])
      ensures flip[..] == old(flip[..])[node := true]
    {
      seen := flip[node];
      flip[node] := true;
    }

    /** sawFalse (hdgraph.go:122-126): marks `node` for pass 2 and says whether
        it was marked already. */
    method SawFalse(node: Node) returns (seen: bool)
      requires 0 <= node < flip.Length
      modifies flip
      ensures seen == !old(flip[node])
      ensures flip[..] == old(flip[..])[node := false]
    {
      var r := flip[node];
      flip[node] := false;
      seen := !r;
    }

    /** dfs1 (hdgraph.go:128-135): visits every unmarked successor, then
        appends `node`. The ghost `stack` holds the nodes whose visit is under
        way, `node` on top; the search finishes `node` and keeps the post-order
        frontier property. */
    method Dfs1(node: Node, ghost stack: seq<Node>)
      requires NeighboursInRange(graph, flip.Length)
      requires |stack| > 0 && stack[|stack| - 1] == node
      requires DfsState(graph, flip[..], true, {}, order, stack) && PostOrdered(graph, order)
      modifies this`order, flip
      ensures DfsState(graph, flip[..], true, {}, order, stack[..|stack| - 1]) && PostOrdered(graph, order)
      ensures |order| > |old(order)| && order[..|old(order)|] == old(order) && order[|order| - 1] == node
      ensures Unvisited(flip[..], true) <= old(Unvisited(flip[..], true))
      decreases Unvisited(flip[..], true)
    {
      var rest := Succ(graph, node);
      while rest != {}
        invariant rest <= Succ(graph, node)
        invariant DfsState(graph, flip[..], true, {}, order, stack) && PostOrdered(graph, order)
        invariant AllMarked(flip[..], true, Succ(graph, node) - rest)
        invariant |order| >= |old(order)| && order[..|old(order)|] == old(order)
        invariant Unvisited(flip[..], true) <= old(Unvisited(flip[..], true))
        decreases rest
      {
        var neighbor :| neighbor in rest;
        assert node in stack && node in graph && neighbor in graph[node];
        ghost var F := flip[..];
        var seen := SawTrue(neighbor);
        ghost var G := flip[..];
        assert AllMarked(G, true, Succ(graph, node) - rest + {neighbor});
        if !seen {
          Visit(graph, F, true, {}, order, stack, neighbor);
          assert Unvisited(flip[..], true) == Unvisited(F, true) - {neighbor};
          Dfs1(neighbor, stack + [neighbor]);
          assert (stack + [neighbor])[..|stack|] == stack;
        } else {
          assert G == F;
        }
        MarkedStayMarked(G, flip[..], true, Succ(graph, node) - rest + {neighbor});
        rest := rest - {neighbor};
      }
      assert Succ(graph, node) - rest == Succ(graph, node);
      Finish(graph, flip[..], true, {}, order, stack);
      FinishPostOrdered(graph, flip[..], order, stack);
      order := order + [node];
    }

    /** dfs2 (hdgraph.go:137-144): as dfs1 with the pass-2 marker, skipping the
        nodes `taken` by earlier components; every node it finishes is reached
        from the bottom of the stack, the root of the component. */
    method Dfs2(node: Node, ghost stack: seq<Node>, ghost taken: set<Node>)
      requires NeighboursInRange(graph, flip.Length)
      requires |stack| > 0 && stack[|stack| - 1] == node
      requires DfsState(graph, flip[..], false, taken, order, stack) && FromRoot(graph, stack[0], order)
      modifies this`order, flip
      ensures DfsState(graph, flip[..], false, taken, order, stack[..|stack| - 1]) && FromRoot(graph, stack[0], order)
      ensures |order| > |old(order)| && order[..|old(order)|] == old(order) && order[|order| - 1] == node
      ensures Unvisited(flip[..], false) <= old(Unvisited(flip[..], false))
      decreases Unvisited(flip[..], false)
    {
      var rest := Succ(graph, node);
      while rest != {}
        invariant rest <= Succ(graph, node)
        invariant DfsState(graph, flip[..], false, taken, order, stack) && FromRoot(graph, stack[0], order)
        invariant AllMarked(flip[..], false, Succ(graph, node) - rest)
        invariant |order| >= |old(order)| && order[..|old(order)|] == old(order)
        invariant Unvisited(flip[..], false) <= old(Unvisited(flip[..], false))
        decreases rest
      {
        var neighbor :| neighbor in rest;
        assert node in stack && node in graph && neighbor in graph[node];
        ghost var F := flip[..];
        var seen := SawFalse(neighbor);
        ghost var G := flip[..];
        assert AllMarked(G, false, Succ(graph, node) - rest + {neighbor});
        if !seen {
          Visit(graph, F, false, taken, order, stack, neighbor);
          assert Unvisited(flip[..], false) == Unvisited(F, false) - {neighbor};
          Dfs2(neighbor, stack + [neighbor], taken);
          assert (stack + [neighbor])[..|stack|] == stack;
        } else {
          assert G == F;
        }
        MarkedStayMarked(G, flip[..], false, Succ(graph, node) - rest + {neighbor});
        rest := rest - {neighbor};
      }
      assert Succ(graph, node) - rest == Succ(graph, node);
      Finish(graph, flip[..], false, taken, order, stack);
      FinishFromRoot(graph, order, stack);
      order := order + [node];
    }
  }

  /** The ids `0 .. n - 1`. */
  ghost function Ids(n: nat): (r: set<int>)
    ensures forall x :: x in r <==> 0 <= x < n
    ensures |r| == n
  {
    if n == 0 then {} else Ids(n - 1) + {n - 1}
  }

  lemma {:induction false} SubsetSize(a: set<Node>, b: set<int>)
    requires a <= b
    ensures |a| <= |b|
    decreases b
  {
    if a != {} {
      var x :| x in a;
      SubsetSize(a - {x}, b - {x});
    }
  }

  /** `n` distinct ids below `n` are all the ids below `n`. */
  lemma KeysAreIds(keys: set<Node>, n: nat)
    requires |keys| == n && forall x :: x in keys ==> 0 <= x < n
    ensures forall x :: 0 <= x < n <==> x in keys
  {
    forall x | 0 <= x < n ensures x in keys {
      if x !in keys {
        SubsetSize(keys, Ids(n) - {x});
      }
    }
  }

  /** StrongComponents sizes `flip` by the number of nodes and indexes it by
      id, so the ids must stay `0 .. |outs| - 1`. From such a graph, Remove
      keeps that range only when it removes the largest id; any other removal
      leaves the largest id out of range, and the next StrongComponents
      indexes past the end of `flip` (hdgraph.go:74, 118). */
  lemma RemoveKeepsIdsOnlyForLargest(m: Maps, k: Node)
    requires forall x :: x in m.outs ==> 0 <= x < |m.outs|
    requires k in m.outs
    ensures var r := Removed(m, k); (forall x :: x in r.outs ==> 0 <= x < |r.outs|) <==> k == |m.outs| - 1
  {
    var n := |m.outs|;
    assert |m.outs.Keys| == n;
    KeysAreIds(m.outs.Keys, n);
    var r := Removed(m, k);
    assert |r.outs| == |r.outs.Keys| == |m.outs.Keys - {k}| == n - 1;
    if k != n - 1 {
      assert n - 1 in r.outs;
    }
  }

  /** After Remove(n) while `p` still points at `n`, no graph meets
      StrongComponents' requirements: either some id is out of range, or `n`,
      now not a node, is a neighbour of `p` that the marker array cannot index
      (hdgraph.go:118), unless `n` is added back or the edge is unlinked. */
  lemma StaleEdgeBreaksIds(m: Maps, n: Node, p: Node)
    requires p in m.outs && p != n && n in m.outs[p]
    ensures var r := Removed(m, n);
      !((forall x :: x in r.outs ==> 0 <= x < |r.outs|) && NeighboursInRange(r.outs, |r.outs|))
  {
    var r := Removed(m, n);
    if forall x :: x in r.outs ==> 0 <= x < |r.outs| {
      assert |r.outs.Keys| == |r.outs|;
      KeysAreIds(r.outs.Keys, |r.outs|);
      assert p in r.outs && n in r.outs[p] && n !in r.outs;
    }
  }
}

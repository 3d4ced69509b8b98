/** Why StrongComponents' two passes (hdgraph.go:70-99) compute strongly
    connected components in dependency order, stated on values: pass 1's
    post-order `order`, and the components, their roots and the roots'
    positions in `order` that pass 2 produces. */
module Kosaraju {
  import opened Paths
  import opened Components
  import opened Traversal
  import opened GraphSpec

  ghost function IndexOf(s: seq<Node>, x: Node): (j: int)
    requires x in s
    ensures 0 <= j < |s| && s[j] == x
  {
    var j :| 0 <= j < |s| && s[j] == x; j
  }

  /** What pass 2 (DFS along `ins` from the end of `order` backwards) has
      established once it has handled positions `i` and above of `order`:
      components `cs` with roots `roots` at positions `idx`, each root in its
      component and every member reached from it along `ins`; every `ins`
      neighbour of a member of component `k` is in components `0..k` (the visit
      left no unmarked neighbour); everything after a root's position was taken
      before that root; and every position from `i` on is taken. */
  ghost predicate Pass2Facts(ins: Adjacency, order: seq<Node>, i: int, cs: seq<seq<Node>>, roots: seq<Node>, idx: seq<int>)
  {
    && 0 <= i <= |order| && |roots| == |cs| && |idx| == |cs|
    && NoDup(Flatten(cs))
    && (forall k :: 0 <= k < |cs| ==> i <= idx[k] < |order| && roots[k] == order[idx[k]] && roots[k] in cs[k])
    && (forall k, x :: 0 <= k < |cs| && x in cs[k] ==> Reach(ins, roots[k], x))
    && (forall k, x, p {:trigger p in Succ(ins, x), x in cs[k]} ::
          0 <= k < |cs| && x in cs[k] && p in Succ(ins, x) ==> p in Flatten(cs[..k + 1]))
    && (forall k, j :: 0 <= k < |cs| && idx[k] < j < |order| ==> order[j] in Flatten(cs[..k]))
    && (forall j :: i <= j < |order| ==> order[j] in Flatten(cs))
  }

  lemma Pass2Start(ins: Adjacency, order: seq<Node>)
    ensures Pass2Facts(ins, order, |order|, [], [], [])
  {
  }

  /** Position `i` holds a node some earlier component already took: nothing is added. */
  lemma Pass2Skip(ins: Adjacency, order: seq<Node>, i: int, cs: seq<seq<Node>>, roots: seq<Node>, idx: seq<int>)
    requires 0 <= i && Pass2Facts(ins, order, i + 1, cs, roots, idx)
    requires i < |order| && order[i] in Flatten(cs)
    ensures Pass2Facts(ins, order, i, cs, roots, idx)
  {
  }

  /** Position `i` holds an untaken node: the search from it yields component `c`. */
  lemma Pass2Extend(ins: Adjacency, order: seq<Node>, i: int, cs: seq<seq<Node>>, roots: seq<Node>, idx: seq<int>, c: seq<Node>)
    requires 0 <= i && Pass2Facts(ins, order, i + 1, cs, roots, idx)
    requires i < |order| && order[i] !in Flatten(cs) && order[i] in c
    requires NoDup(c) && (forall x :: x in c ==> x !in Flatten(cs))
    requires FromRoot(ins, order[i], c)
    requires forall x, p :: x in c && p in Succ(ins, x) ==> p in Flatten(cs) || p in c
    ensures Pass2Facts(ins, order, i, cs + [c], roots + [order[i]], idx + [i])
  {
    var cs', roots', idx' := cs + [c], roots + [order[i]], idx + [i];
    FlattenAppend(cs, c);
    NoDupAppend(Flatten(cs), c);
    PrefixOfAppend(cs, c);
    forall k, x, p | 0 <= k < |cs'| && x in cs'[k] && p in Succ(ins, x)
      ensures p in Flatten(cs'[..k + 1])
    {
      if k < |cs| {
        assert x in cs[k];
      } else {
        assert x in c;
      }
    }
    forall k, j | 0 <= k < |cs'| && idx'[k] < j < |order| ensures order[j] in Flatten(cs'[..k]) {
      if k < |cs| {
        assert idx[k] < j;
      } else {
        assert i + 1 <= j;
      }
    }
  }

  lemma PrefixOfAppend(cs: seq<seq<Node>>, c: seq<Node>)
    ensures forall k :: 0 <= k <= |cs| ==> (cs + [c])[..k] == cs[..k]
    ensures (cs + [c])[..|cs| + 1] == cs + [c]
  {
  }

  /** In the graph `outs`, the nodes taken by the first `K` components are
      closed under predecessors, so a node reaching one of them is one of them. */
  lemma {:induction false} TakenIsBackwardClosed(m: Maps, order: seq<Node>, cs: seq<seq<Node>>, roots: seq<Node>, idx: seq<int>, K: int, p: seq<Node>)
    requires Coherent(m) && Pass2Facts(m.ins, order, 0, cs, roots, idx) && 0 <= K <= |cs|
    requires IsPath(m.outs, p) && p[|p| - 1] in Flatten(cs[..K])
    ensures p[0] in Flatten(cs[..K])
    decreases |p|
  {
    if |p| > 1 {
      var q := p[1..];
      assert forall t :: 0 <= t < |q| ==> q[t] == p[t + 1];
      assert IsPath(m.outs, q);
      TakenIsBackwardClosed(m, order, cs, roots, idx, K, q);
      var a, z := p[0], p[1];
      assert z in Succ(m.outs, a) && z in Flatten(cs[..K]);
      assert a in m.outs && z in m.outs;
      assert a in Succ(m.ins, z);
      var k := FlattenMember(cs[..K], z);
      assert cs[..K][k] == cs[k];
      assert a in Flatten(cs[..k + 1]);
      var k' := FlattenMember(cs[..k + 1], a);
      assert cs[..k + 1][k'] == cs[k'];
      InFlattenPrefix(cs, K, k', a);
    }
  }

  lemma TakenIsBackwardClosedReach(m: Maps, order: seq<Node>, cs: seq<seq<Node>>, roots: seq<Node>, idx: seq<int>, K: int, w: Node, y: Node)
    requires Coherent(m) && Pass2Facts(m.ins, order, 0, cs, roots, idx) && 0 <= K <= |cs|
    requires Reach(m.outs, w, y) && y in Flatten(cs[..K])
    ensures w in Flatten(cs[..K])
  {
    var p :| IsPath(m.outs, p) && p[0] == w && p[|p| - 1] == y;
    TakenIsBackwardClosed(m, order, cs, roots, idx, K, p);
  }

  /** The hypotheses of the correctness theorem: a coherent graph whose nodes
      pass 1 finished each exactly once in post-order, and pass 2 complete. */
  ghost predicate Finished(m: Maps, order: seq<Node>, cs: seq<seq<Node>>, roots: seq<Node>, idx: seq<int>)
  {
    && Coherent(m)
    && NoDup(order) && (forall x :: x in order <==> x in m.outs)
    && PostOrdered(m.outs, order)
    && Pass2Facts(m.ins, order, 0, cs, roots, idx)
    && (forall x :: x in Flatten(cs) ==> x in m.outs)
  }

  /** A node not taken before component `k` was finished, in pass 1, no later
      than that component's root. */
  lemma NotAfterRoot(ins: Adjacency, order: seq<Node>, cs: seq<seq<Node>>, roots: seq<Node>, idx: seq<int>, k: int, w: Node)
    requires Pass2Facts(ins, order, 0, cs, roots, idx) && 0 <= k < |cs|
    requires w in order && w !in Flatten(cs[..k])
    ensures IndexOf(order, w) <= idx[k]
  {
  }

  /** Pass 1's frontier at position `j`: a path from `order[j]` to a node finished
      later leaves the nodes finished up to `j` along an edge `a -> y` whose end
      `y` reaches back to `order[j]`. */
  lemma {:induction false} FrontierCrossing(g: Adjacency, order: seq<Node>, j: int, ir: int) returns (a: Node, y: Node)
    requires NoDup(order) && 0 <= j < ir < |order| && Frontier(g, order, j)
    requires Reach(g, order[j], order[ir])
    ensures y in Succ(g, a) && (forall t :: 0 <= t <= j ==> order[t] != y)
    ensures Reach(g, order[j], y) && Reach(g, y, order[ir]) && Reach(g, y, order[j])
  {
    var w, r := order[j], order[ir];
    var p :| IsPath(g, p) && p[0] == w && p[|p| - 1] == r;
    var before := order[..j + 1];
    assert forall t :: 0 <= t <= j ==> before[t] == order[t];
    assert w == before[j];
    assert r !in before;
    var t := Crossing(g, p, before);
    a, y := p[t], p[t + 1];
    var ka :| 0 <= ka <= j && before[ka] == a;
    assert y in Succ(g, order[ka]) && y !in order[..j + 1];
    PathReach(g, p, 0, t + 1);
    PathReach(g, p, t + 1, |p| - 1);
  }

  /** The heart of Kosaraju's argument: a node not taken before component `k`
      that reaches its root is reached back from the root. By induction on how far
      before the root the node was finished in pass 1. */
  lemma {:induction false} ReachedFromRoot(m: Maps, order: seq<Node>, cs: seq<seq<Node>>, roots: seq<Node>, idx: seq<int>, k: int, w: Node)
    requires Finished(m, order, cs, roots, idx) && 0 <= k < |cs|
    requires w in m.outs && w !in Flatten(cs[..k]) && Reach(m.outs, w, roots[k])
    ensures Reach(m.outs, roots[k], w)
    decreases idx[k] - IndexOf(order, w)
  {
    var r, ir, j := roots[k], idx[k], IndexOf(order, w);
    if w == r {
      ReachRefl(m.outs, r);
    } else {
      NotAfterRoot(m.ins, order, cs, roots, idx, k, w);
      var a, y := FrontierCrossing(m.outs, order, j, ir);
      if y in Flatten(cs[..k]) {
        TakenIsBackwardClosedReach(m, order, cs, roots, idx, k, w, y);
      }
      assert a in m.outs && y in m.outs;
      NotAfterRoot(m.ins, order, cs, roots, idx, k, y);
      ReachedFromRoot(m, order, cs, roots, idx, k, y);
      ReachTrans(m.outs, r, y, w);
    }
  }

  /** Reachability never leads back to an earlier component. */
  lemma ReachOrdersComponents(m: Maps, order: seq<Node>, cs: seq<seq<Node>>, roots: seq<Node>, idx: seq<int>, u: Node, a: int, v: Node, b: int)
    requires Coherent(m) && Pass2Facts(m.ins, order, 0, cs, roots, idx)
    requires 0 <= a < |cs| && 0 <= b < |cs| && u in cs[a] && v in cs[b] && Reach(m.outs, u, v)
    ensures a <= b
  {
    InFlattenPrefix(cs, b + 1, b, v);
    TakenIsBackwardClosedReach(m, order, cs, roots, idx, b + 1, u, v);
    var a' := FlattenMember(cs[..b + 1], u);
    assert cs[..b + 1][a'] == cs[a'];
    UniqueComponent(cs, a', a, u);
  }

  /** Every member of component `k` and its root reach each other. */
  lemma MembersAreMutual(m: Maps, order: seq<Node>, cs: seq<seq<Node>>, roots: seq<Node>, idx: seq<int>, k: int, x: Node)
    requires Finished(m, order, cs, roots, idx) && 0 <= k < |cs| && x in cs[k]
    ensures x in m.outs && MutuallyReachable(m.outs, x, roots[k])
  {
    InFlatten(cs, k, roots[k]);
    ReachReversed(m.outs, m.ins, m.outs.Keys, roots[k], x);
    NotInEarlier(cs, k, x);
    ReachedFromRoot(m, order, cs, roots, idx, k, x);
  }

  /** Every node mutually reachable with the root of component `k` is in it. */
  lemma MutualAreMembers(m: Maps, order: seq<Node>, cs: seq<seq<Node>>, roots: seq<Node>, idx: seq<int>, k: int, x: Node)
    requires Finished(m, order, cs, roots, idx) && 0 <= k < |cs|
    requires x in m.outs && MutuallyReachable(m.outs, x, roots[k])
    ensures x in cs[k]
  {
    var jx := IndexOf(order, x);
    var k' := FlattenMember(cs, x);
    ReachOrdersComponents(m, order, cs, roots, idx, x, k', roots[k], k);
    ReachOrdersComponents(m, order, cs, roots, idx, roots[k], k, x, k');
  }

  /** Component `k` is exactly the strongly connected component of its root. */
  lemma ComponentIsScc(m: Maps, order: seq<Node>, cs: seq<seq<Node>>, roots: seq<Node>, idx: seq<int>, k: int)
    requires Finished(m, order, cs, roots, idx) && 0 <= k < |cs|
    ensures forall x :: x in cs[k] <==> x in m.outs && MutuallyReachable(m.outs, x, roots[k])
  {
    forall x ensures x in cs[k] <==> x in m.outs && MutuallyReachable(m.outs, x, roots[k]) {
      if x in cs[k] {
        MembersAreMutual(m, order, cs, roots, idx, k, x);
      }
      if x in m.outs && MutuallyReachable(m.outs, x, roots[k]) {
        MutualAreMembers(m, order, cs, roots, idx, k, x);
      }
    }
  }

  /** Two nodes share a component exactly when they are mutually reachable. */
  lemma {:induction false} FinishedComponentsAreSccs(m: Maps, order: seq<Node>, cs: seq<seq<Node>>, roots: seq<Node>, idx: seq<int>)
    requires Finished(m, order, cs, roots, idx)
    ensures ComponentsAreSccs(m.outs, m.outs.Keys, cs)
  {
    forall u, v | u in m.outs.Keys && v in m.outs.Keys
      ensures SameComponent(cs, u, v) <==> MutuallyReachable(m.outs, u, v)
    {
      if SameComponent(cs, u, v) {
        var k :| 0 <= k < |cs| && u in cs[k] && v in cs[k];
        ComponentIsScc(m, order, cs, roots, idx, k);
        ReachTrans(m.outs, u, roots[k], v);
        ReachTrans(m.outs, v, roots[k], u);
      }
      if MutuallyReachable(m.outs, u, v) {
        var ju := IndexOf(order, u);
        var k := FlattenMember(cs, u);
        ComponentIsScc(m, order, cs, roots, idx, k);
        ReachTrans(m.outs, v, u, roots[k]);
        ReachTrans(m.outs, roots[k], u, v);
      }
    }
  }

  /** An edge between two different components goes from an earlier one to a
      later one: the predecessor was taken no later than its successor. */
  lemma FinishedComponentsAreSorted(m: Maps, order: seq<Node>, cs: seq<seq<Node>>, roots: seq<Node>, idx: seq<int>)
    requires Coherent(m) && Pass2Facts(m.ins, order, 0, cs, roots, idx)
    requires forall x :: x in Flatten(cs) ==> x in m.outs
    ensures TopologicallySorted(m.outs, cs)
  {
    forall k, l, u, v | 0 <= k < |cs| && 0 <= l < |cs| && u in cs[k] && v in cs[l] && v in Succ(m.outs, u) && k != l
      ensures k < l
    {
      InFlatten(cs, l, v);
      assert u in Succ(m.ins, v);
      var k' := FlattenMember(cs[..l + 1], u);
      assert cs[..l + 1][k'] == cs[k'];
      UniqueComponent(cs, k', k, u);
    }
  }

  // ---- the bookkeeping of the two passes ----

  /** The nodes taken by the components found so far. */
  ghost function Taken(cs: seq<seq<Node>>): set<Node>
  {
    set x | x in Flatten(cs)
  }

  /** Pass 1 is over once every node is marked: `order` lists every node, and
      with every marker now `true`, pass 2 starts with nothing marked. */
  lemma Pass1Done(m: Maps, F: seq<bool>, order: seq<Node>)
    requires forall x :: 0 <= x < |F| <==> x in m.outs
    requires DfsState(m.outs, F, true, {}, order, []) && AllMarked(F, true, m.outs.Keys)
    ensures forall x :: x in order <==> x in m.outs
    ensures DfsState(m.ins, F, false, Taken([]), [], [])
  {
  }

  /** Position `i` of `order` holds an untaken node; the search from it
      finished the nodes `c`, which become the next component. */
  lemma Pass2Found(ins: Adjacency, order: seq<Node>, i: int, cs: seq<seq<Node>>, roots: seq<Node>, idx: seq<int>, F: seq<bool>, F': seq<bool>, c: seq<Node>)
    requires 0 <= i < |order| && Pass2Facts(ins, order, i + 1, cs, roots, idx)
    requires DfsState(ins, F, false, Taken(cs), [], []) && 0 <= order[i] < |F| && F[order[i]] != false
    requires DfsState(ins, F', false, Taken(cs), c, []) && FromRoot(ins, order[i], c) && order[i] in c
    ensures Pass2Facts(ins, order, i, cs + [c], roots + [order[i]], idx + [i])
    ensures DfsState(ins, F', false, Taken(cs + [c]), [], [])
  {
    assert order[i] !in Taken(cs);
    forall x, p | x in c && p in Succ(ins, x) ensures p in Flatten(cs) || p in c {
      assert 0 <= p < |F'| && F'[p] == false;
    }
    Pass2Extend(ins, order, i, cs, roots, idx, c);
    Retire(ins, F', false, Taken(cs), c);
    FlattenAppend(cs, c);
    assert Taken(cs + [c]) == Taken(cs) + (set x | x in c);
  }

  /** Position `i` of `order` holds a node an earlier component took. */
  lemma Pass2Taken(ins: Adjacency, order: seq<Node>, i: int, cs: seq<seq<Node>>, roots: seq<Node>, idx: seq<int>, F: seq<bool>)
    requires 0 <= i < |order| && Pass2Facts(ins, order, i + 1, cs, roots, idx)
    requires DfsState(ins, F, false, Taken(cs), [], []) && 0 <= order[i] < |F| && F[order[i]] == false
    ensures Pass2Facts(ins, order, i, cs, roots, idx)
  {
    assert order[i] in Taken(cs);
    Pass2Skip(ins, order, i, cs, roots, idx);
  }

  /** Once pass 2 has handled every position, the components partition the
      nodes, and when the maps are coherent they are the strongly connected
      components in dependency order. */
  lemma Pass2Done(m: Maps, F: seq<bool>, order: seq<Node>, cs: seq<seq<Node>>, roots: seq<Node>, idx: seq<int>)
    requires forall x :: 0 <= x < |F| <==> x in m.outs
    requires NoDup(order) && PostOrdered(m.outs, order) && (forall x :: x in order <==> x in m.outs)
    requires Pass2Facts(m.ins, order, 0, cs, roots, idx) && DfsState(m.ins, F, false, Taken(cs), [], [])
    ensures Partitions(cs, m.outs.Keys)
    ensures Coherent(m) ==> ComponentsAreSccs(m.outs, m.outs.Keys, cs) && TopologicallySorted(m.outs, cs)
  {
    forall x ensures x in m.outs <==> x in Flatten(cs) {
      if x in m.outs {
        var j := IndexOf(order, x);
      }
      if x in Flatten(cs) {
        assert x in Taken(cs);
      }
    }
    forall k | 0 <= k < |cs| ensures |cs[k]| > 0 {
      assert roots[k] in cs[k];
    }
    PartitionsFromFlatten(cs, m.outs.Keys);
    if Coherent(m) {
      FinishedComponentsAreSccs(m, order, cs, roots, idx);
      FinishedComponentsAreSorted(m, order, cs, roots, idx);
    }
  }

  /** A graph with no cycle: no path of one or more edges returns to its start. */
  ghost predicate Acyclic(g: Adjacency)
  {
    forall p :: IsPath(g, p) && |p| > 1 ==> p[0] != p[|p| - 1]
  }

  /** In an acyclic graph every strongly connected component is a single node,
      so the components are the nodes one by one (hdgraph.go:11-13). */
  lemma AcyclicComponentsAreSingletons(g: Adjacency, nodes: set<Node>, cs: seq<seq<Node>>)
    requires Partitions(cs, nodes) && ComponentsAreSccs(g, nodes, cs) && Acyclic(g)
    ensures forall k :: 0 <= k < |cs| ==> |cs[k]| == 1
  {
    forall k | 0 <= k < |cs| ensures |cs[k]| == 1 {
      if |cs[k]| > 1 {
        var u, v := cs[k][0], cs[k][1];
        assert u != v && u in nodes && v in nodes;
        assert SameComponent(cs, u, v);
        MutualMeansCycle(g, u, v);
      }
    }
  }

  /** Two different mutually reachable nodes lie on a cycle. */
  lemma MutualMeansCycle(g: Adjacency, u: Node, v: Node)
    requires u != v && MutuallyReachable(g, u, v)
    ensures !Acyclic(g)
  {
    var p :| IsPath(g, p) && p[0] == u && p[|p| - 1] == v;
    var q :| IsPath(g, q) && q[0] == v && q[|q| - 1] == u;
    var c := p + q[1..];
    forall t | 0 <= t < |c| - 1 ensures c[t + 1] in Succ(g, c[t]) {
      if t < |p| - 1 {
        assert c[t] == p[t] && c[t + 1] == p[t + 1];
      } else {
        assert c[t] == q[t - |p| + 1] && c[t + 1] == q[t - |p| + 2];
      }
    }
    assert IsPath(g, c) && c[0] == u && c[|c| - 1] == q[|q| - 1];
  }

  // ---- Remove, then Add again: the answer depends on map order ----

  /** On the state GraphSpec.RemoveThenAddLosesEdge ends in, `out` still holds
      the cycle 0 -> 1 -> 0 (Remove(1) was meant to delete 0 -> 1) while `in`
      holds only 1 -> 0. Pass 1 rooted at 1 finishes 0 and then 1; pass 2
      starts at 1, finds no predecessor, and takes [1] before [0]. That is the
      answer for the graph without the removed edge (CorrectedComponents).
      Both passes end in the states they are proved to reach. */
  lemma PassesAdmitSplit(r: Maps)
    requires r.outs.Keys == {0, 1} && Succ(r.outs, 0) == {1} && Succ(r.outs, 1) == {0}
    requires Succ(r.ins, 1) == {} && Succ(r.ins, 0) == {1}
    ensures DfsState(r.outs, [true, true], true, {}, [0, 1], []) && PostOrdered(r.outs, [0, 1])
    ensures AllMarked([true, true], true, r.outs.Keys)
    ensures Pass2Facts(r.ins, [0, 1], 0, [[1], [0]], [1, 0], [1, 0])
    ensures DfsState(r.ins, [false, false], false, Taken([[1], [0]]), [], [])
    ensures Partitions([[1], [0]], r.outs.Keys)
    ensures MutuallyReachable(r.outs, 0, 1) && !ComponentsAreSccs(r.outs, r.outs.Keys, [[1], [0]])
  {
    SplitPassOne(r);
    SplitPassTwo(r);
    SplitComponents(r);
  }

  /** The same state, pass 1 rooted at 0 instead: it finishes 1 and then 0;
      pass 2 starts at 0, follows `in[0] = {1}`, and takes [1, 0] as one
      component, so the edge 0 -> 1 that Remove(1) left in `out` counts. */
  lemma PassesAdmitMerge(r: Maps)
    requires r.outs.Keys == {0, 1} && Succ(r.outs, 0) == {1} && Succ(r.outs, 1) == {0}
    requires Succ(r.ins, 1) == {} && Succ(r.ins, 0) == {1}
    ensures DfsState(r.outs, [true, true], true, {}, [1, 0], []) && PostOrdered(r.outs, [1, 0])
    ensures AllMarked([true, true], true, r.outs.Keys)
    ensures Pass2Facts(r.ins, [1, 0], 0, [[1, 0]], [0], [1])
    ensures DfsState(r.ins, [false, false], false, Taken([[1, 0]]), [], [])
    ensures Partitions([[1, 0]], r.outs.Keys) && ComponentsAreSccs(r.outs, r.outs.Keys, [[1, 0]])
  {
    MergePassOne(r);
    MergePassTwo(r);
    MergeComponents(r);
  }

  /** Pass 1 from 1: 0 finishes first, then 1. */
  lemma SplitPassOne(r: Maps)
    requires r.outs.Keys == {0, 1} && Succ(r.outs, 0) == {1} && Succ(r.outs, 1) == {0}
    ensures DfsState(r.outs, [true, true], true, {}, [0, 1], []) && PostOrdered(r.outs, [0, 1])
    ensures AllMarked([true, true], true, r.outs.Keys)
  {
    var order := [0, 1];
    ReachEdge(r.outs, 1, 0);
    assert Frontier(r.outs, order, 0);
    assert Frontier(r.outs, order, 1) by {
      forall k, y | 0 <= k <= 1 && y in Succ(r.outs, order[k]) ensures y in order[..2] {
        assert order[k] == 0 || order[k] == 1;
        assert order[..2] == [0, 1];
      }
    }
  }

  /** Pass 1 from 0: 1 finishes first, then 0. */
  lemma MergePassOne(r: Maps)
    requires r.outs.Keys == {0, 1} && Succ(r.outs, 0) == {1} && Succ(r.outs, 1) == {0}
    ensures DfsState(r.outs, [true, true], true, {}, [1, 0], []) && PostOrdered(r.outs, [1, 0])
    ensures AllMarked([true, true], true, r.outs.Keys)
  {
    var order := [1, 0];
    ReachEdge(r.outs, 0, 1);
    assert Frontier(r.outs, order, 0);
    assert Frontier(r.outs, order, 1) by {
      forall k, y | 0 <= k <= 1 && y in Succ(r.outs, order[k]) ensures y in order[..2] {
        assert order[k] == 0 || order[k] == 1;
        assert order[..2] == [1, 0];
      }
    }
  }

  /** Pass 2 from the back of [0, 1]: 1 has no `in` neighbour, so [1] is taken
      alone, and then [0]. */
  lemma SplitPassTwo(r: Maps)
    requires Succ(r.ins, 1) == {} && Succ(r.ins, 0) == {1}
    ensures Pass2Facts(r.ins, [0, 1], 0, [[1], [0]], [1, 0], [1, 0])
    ensures DfsState(r.ins, [false, false], false, Taken([[1], [0]]), [], [])
  {
    var order: seq<Node>, cs: seq<seq<Node>>, roots: seq<Node> := [0, 1], [[1], [0]], [1, 0];
    SplitFlatten();
    ReachRefl(r.ins, 0);
    ReachRefl(r.ins, 1);
    forall k, x | 0 <= k < 2 && x in cs[k] ensures x == roots[k] {
    }
    forall k, x, p | 0 <= k < 2 && x in cs[k] && p in Succ(r.ins, x) ensures p in Flatten(cs[..k + 1]) {
      assert k == 1 && x == 0 && p == 1;
    }
    SplitPassTwoEnd(r.ins);
  }

  /** Pass 2 from the back of [1, 0]: the search from 0 reaches 1 along `in`,
      finishing 1 and then 0. */
  lemma MergePassTwo(r: Maps)
    requires Succ(r.ins, 1) == {} && Succ(r.ins, 0) == {1}
    ensures Pass2Facts(r.ins, [1, 0], 0, [[1, 0]], [0], [1])
    ensures DfsState(r.ins, [false, false], false, Taken([[1, 0]]), [], [])
  {
    var cs: seq<seq<Node>> := [[1, 0]];
    MergeFlatten();
    ReachRefl(r.ins, 0);
    ReachEdge(r.ins, 0, 1);
    forall x, p | x in cs[0] && p in Succ(r.ins, x) ensures p in Flatten(cs[..1]) {
      assert x == 0 && p == 1;
    }
    MergePassTwoEnd(r.ins);
  }

  /** Once both are taken, every marker is back to `false`. */
  lemma SplitPassTwoEnd(ins: Adjacency)
    ensures DfsState(ins, [false, false], false, Taken([[1], [0]]), [], [])
  {
    SplitFlatten();
    assert Taken([[1], [0]]) == {1, 0};
  }

  lemma MergePassTwoEnd(ins: Adjacency)
    ensures DfsState(ins, [false, false], false, Taken([[1, 0]]), [], [])
  {
    MergeFlatten();
    assert Taken([[1, 0]]) == {1, 0};
  }

  lemma SplitFlatten()
    ensures Flatten([[1], [0]]) == [1, 0] && NoDup([1, 0])
    ensures Flatten([[1], [0]][..1]) == [1] && Flatten([[1], [0]][..2]) == [1, 0]
  {
    var cs: seq<seq<Node>> := [[1], [0]];
    assert cs[..1] == [[1]] && cs[..2] == cs;
    assert Flatten([[1]]) == Flatten([]) + [1];
    assert Flatten(cs) == Flatten([[1]]) + [0];
  }

  lemma MergeFlatten()
    ensures Flatten([[1, 0]]) == [1, 0] && Flatten([[1, 0]][..1]) == [1, 0] && NoDup([1, 0])
  {
    var cs: seq<seq<Node>> := [[1, 0]];
    assert cs[..1] == cs;
    assert Flatten(cs) == Flatten([]) + [1, 0];
  }

  /** Both [[1], [0]] and [[1, 0]] partition the nodes 0 and 1. */
  lemma PartitionsOfTwo(nodes: set<Node>)
    requires nodes == {0, 1}
    ensures Partitions([[1], [0]], nodes) && Partitions([[1, 0]], nodes)
  {
    var split: seq<seq<Node>>, merged: seq<seq<Node>> := [[1], [0]], [[1, 0]];
    assert 0 in split[1] && 1 in split[0] && 0 in merged[0] && 1 in merged[0];
    forall x ensures x in nodes <==> exists k :: 0 <= k < |split| && x in split[k] {
      if x in nodes {
        assert x == 0 || x == 1;
      }
    }
  }

  /** [[1], [0]] keeps the mutually reachable 0 and 1 apart. */
  lemma SplitComponents(r: Maps)
    requires r.outs.Keys == {0, 1} && Succ(r.outs, 0) == {1} && Succ(r.outs, 1) == {0}
    ensures Partitions([[1], [0]], r.outs.Keys)
    ensures MutuallyReachable(r.outs, 0, 1) && !ComponentsAreSccs(r.outs, r.outs.Keys, [[1], [0]])
  {
    var cs: seq<seq<Node>> := [[1], [0]];
    PartitionsOfTwo(r.outs.Keys);
    ReachEdge(r.outs, 1, 0);
    ReachEdge(r.outs, 0, 1);
    assert !SameComponent(cs, 0, 1);
    assert 0 in r.outs.Keys && 1 in r.outs.Keys;
  }

  /** [[1, 0]] is the one strongly connected component of the cycle. */
  lemma MergeComponents(r: Maps)
    requires r.outs.Keys == {0, 1} && Succ(r.outs, 0) == {1} && Succ(r.outs, 1) == {0}
    ensures Partitions([[1, 0]], r.outs.Keys) && ComponentsAreSccs(r.outs, r.outs.Keys, [[1, 0]])
  {
    var cs: seq<seq<Node>> := [[1, 0]];
    PartitionsOfTwo(r.outs.Keys);
    ReachEdge(r.outs, 1, 0);
    ReachEdge(r.outs, 0, 1);
    ReachRefl(r.outs, 0);
    ReachRefl(r.outs, 1);
    forall u, v | u in r.outs.Keys && v in r.outs.Keys ensures SameComponent(cs, u, v) && MutuallyReachable(r.outs, u, v) {
      assert u in cs[0] && v in cs[0];
    }
  }

  /** The graph the corrected Remove leaves, with the single edge 1 -> 0:
      [[1], [0]] is its partition into strongly connected components in
      dependency order, and [[1, 0]] is not. */
  lemma CorrectedComponents(c: Maps)
    requires c.outs.Keys == {0, 1} && Succ(c.outs, 0) == {} && Succ(c.outs, 1) == {0}
    ensures Partitions([[1], [0]], c.outs.Keys)
    ensures ComponentsAreSccs(c.outs, c.outs.Keys, [[1], [0]]) && TopologicallySorted(c.outs, [[1], [0]])
    ensures !ComponentsAreSccs(c.outs, c.outs.Keys, [[1, 0]])
  {
    var split: seq<seq<Node>> := [[1], [0]];
    PartitionsOfTwo(c.outs.Keys);
    CorrectedSccs(c);
    assert SameComponent([[1, 0]], 0, 1) && 0 in c.outs.Keys && 1 in c.outs.Keys;
    forall k, l, u, v | 0 <= k < 2 && 0 <= l < 2 && u in split[k] && v in split[l] && v in Succ(c.outs, u) && k != l ensures k < l {
      assert u == 1;
    }
  }

  /** With the single edge 1 -> 0, each node is mutually reachable only with itself. */
  lemma CorrectedSccs(c: Maps)
    requires c.outs.Keys == {0, 1} && Succ(c.outs, 0) == {} && Succ(c.outs, 1) == {0}
    ensures ComponentsAreSccs(c.outs, c.outs.Keys, [[1], [0]]) && !MutuallyReachable(c.outs, 0, 1)
  {
    var split: seq<seq<Node>> := [[1], [0]];
    assert !Reach(c.outs, 0, 1) by {
      if Reach(c.outs, 0, 1) {
        SinkReachesOnlyItself(c.outs, 0, 1);
      }
    }
    forall u, v | u in c.outs.Keys && v in c.outs.Keys ensures SameComponent(split, u, v) <==> MutuallyReachable(c.outs, u, v) {
      ReachRefl(c.outs, u);
      assert u == 0 || u == 1;
      assert v == 0 || v == 1;
      assert 1 in split[0] && 0 in split[1];
    }
  }

  /** Link(1, 0), Link(0, 1), Remove(1), Add(1), Link(1, 0) as written: the
      two maps disagree, so the result depends on where pass 1 starts. Rooted
      at 1, the passes admit [[1], [0]], the answer the corrected Remove gives.
      Rooted at 0, they admit [[1, 0]], which counts the edge 0 -> 1 that
      Remove(1) should have deleted and is not the corrected graph's answer. */
  lemma RemoveThenAddRevivesEdge() returns (r: Maps, c: Maps)
    ensures r == Linked(Added(Removed(Linked(Linked(Maps(map[], map[]), 1, 0), 0, 1), 1), 1), 1, 0)
    ensures c == Linked(Added(RemovedWithEdges(Linked(Linked(Maps(map[], map[]), 1, 0), 0, 1), 1), 1), 1, 0)
    ensures PostOrdered(r.outs, [0, 1]) && Pass2Facts(r.ins, [0, 1], 0, [[1], [0]], [1, 0], [1, 0])
    ensures PostOrdered(r.outs, [1, 0]) && Pass2Facts(r.ins, [1, 0], 0, [[1, 0]], [0], [1])
    ensures ComponentsAreSccs(c.outs, c.outs.Keys, [[1], [0]]) && TopologicallySorted(c.outs, [[1], [0]])
    ensures !ComponentsAreSccs(c.outs, c.outs.Keys, [[1, 0]])
  {
    r := RemoveThenAddLosesEdge();
    PassesAdmitSplit(r);
    PassesAdmitMerge(r);
    c := CorrectedSequence();
    CorrectedComponents(c);
  }
}

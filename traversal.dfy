/** The state of one depth-first pass of dfser (hdgraph.go:102-144), as values:
    the marker array `flip` read as a sequence, the post-order `order` built so
    far, the ghost stack of nodes whose visit has begun but not finished, and
    (in pass 2) the nodes already taken by earlier components. Pass 1 marks
    with `true`, pass 2 with `false`; `pol` is the mark of the current pass. */
module Traversal {
  import opened Paths
  import opened Components

  /** Every neighbour of a node that the marker array can index is itself indexable. */
  ghost predicate NeighboursInRange(g: Adjacency, n: int)
  {
    forall x, y :: x in g && 0 <= x < n && y in g[x] ==> 0 <= y < n
  }

  /** The nodes the current pass has not marked yet; the DFS recursion's measure. */
  ghost function Unvisited(F: seq<bool>, pol: bool): set<int>
  {
    set x | 0 <= x < |F| && F[x] != pol
  }

  /** The marked nodes are exactly those taken earlier, finished, or on the stack;
      these three are disjoint and repetition-free; every successor of a finished
      node is marked; and the stack is a path of `g`. */
  ghost predicate DfsState(g: Adjacency, F: seq<bool>, pol: bool, taken: set<Node>, order: seq<Node>, stack: seq<Node>)
  {
    && (forall x :: x in taken ==> 0 <= x < |F| && x !in order && x !in stack)
    && (forall x :: x in order ==> 0 <= x < |F| && x !in stack)
    && (forall x :: x in stack ==> 0 <= x < |F|)
    && NoDup(order) && NoDup(stack)
    && (forall x :: 0 <= x < |F| ==> (F[x] == pol <==> x in taken || x in order || x in stack))
    && (forall x, y {:trigger y in Succ(g, x), x in order} :: x in order && y in Succ(g, x) ==> 0 <= y < |F| && F[y] == pol)
    && (forall t :: 0 <= t < |stack| - 1 ==> stack[t + 1] in Succ(g, stack[t]))
  }

  /** The post-order fact Kosaraju's second pass rests on, at position `j`: an edge
      that leaves the first `j + 1` finished nodes ends at a node that reaches `order[j]`. */
  ghost predicate Frontier(g: Adjacency, order: seq<Node>, j: int)
    requires 0 <= j < |order|
  {
    forall k, y :: 0 <= k <= j && y in Succ(g, order[k]) && y !in order[..j + 1] ==> Reach(g, y, order[j])
  }

  ghost predicate PostOrdered(g: Adjacency, order: seq<Node>)
  {
    forall j :: 0 <= j < |order| ==> Frontier(g, order, j)
  }

  /** Every finished node was reached from `r` (pass 2 collects one component from its root). */
  ghost predicate FromRoot(g: Adjacency, r: Node, order: seq<Node>)
  {
    forall x :: x in order ==> Reach(g, r, x)
  }

  /** Every node of `ys` is marked in the current pass. */
  ghost predicate AllMarked(F: seq<bool>, pol: bool, ys: set<Node>)
  {
    forall y :: y in ys ==> 0 <= y < |F| && F[y] == pol
  }

  /** A node marked before a search is still marked after it: a search only marks. */
  lemma MarkedStayMarked(F: seq<bool>, F': seq<bool>, pol: bool, ys: set<Node>)
    requires |F'| == |F| && Unvisited(F', pol) <= Unvisited(F, pol) && AllMarked(F, pol, ys)
    ensures AllMarked(F', pol, ys)
  {
    forall y | y in ys ensures 0 <= y < |F'| && F'[y] == pol {
      assert y !in Unvisited(F, pol);
    }
  }

  /** Marking an unmarked node pushes it: a root when the stack is empty, else a
      successor of the node on top. */
  lemma Visit(g: Adjacency, F: seq<bool>, pol: bool, taken: set<Node>, order: seq<Node>, stack: seq<Node>, y: Node)
    requires DfsState(g, F, pol, taken, order, stack)
    requires 0 <= y < |F| && F[y] != pol
    requires stack == [] || y in Succ(g, stack[|stack| - 1])
    ensures DfsState(g, F[y := pol], pol, taken, order, stack + [y])
  {
    var s := stack + [y];
    var F' := F[y := pol];
    assert y !in taken && y !in order && y !in stack;
    assert forall t :: 0 <= t < |stack| ==> s[t] == stack[t];
    assert forall x :: x in s <==> x in stack || x == y;
    assert NoDup(s) by {
      forall i, j | 0 <= i < j < |s| ensures s[i] != s[j] {
        if j < |stack| { assert s[i] == stack[i] && s[j] == stack[j]; }
        else { assert s[i] == stack[i] && s[j] == y; }
      }
    }
    forall t | 0 <= t < |s| - 1 ensures s[t + 1] in Succ(g, s[t]) {
      if t < |stack| - 1 { assert s[t + 1] == stack[t + 1]; }
    }
    assert forall x :: 0 <= x < |F'| ==> (F'[x] == pol <==> x in taken || x in order || x in s);
    forall x, z | x in order && z in Succ(g, x) ensures 0 <= z < |F'| && F'[z] == pol {
      assert 0 <= z < |F| && F[z] == pol;
    }
  }

  /** Once every successor of the top node is marked, the node is finished:
      it moves from the stack to the end of `order`. */
  lemma Finish(g: Adjacency, F: seq<bool>, pol: bool, taken: set<Node>, order: seq<Node>, stack: seq<Node>)
    requires DfsState(g, F, pol, taken, order, stack) && |stack| > 0
    requires AllMarked(F, pol, Succ(g, stack[|stack| - 1]))
    ensures DfsState(g, F, pol, taken, order + [stack[|stack| - 1]], stack[..|stack| - 1])
  {
    var u := stack[|stack| - 1];
    var o, s := order + [u], stack[..|stack| - 1];
    assert forall t :: 0 <= t < |s| ==> s[t] == stack[t];
    assert forall t :: 0 <= t < |order| ==> o[t] == order[t];
    assert u !in s && u !in order && u !in taken;
    assert forall x :: x in stack <==> x in s || x == u;
    assert forall x :: x in o <==> x in order || x == u;
    assert NoDup(s);
    assert NoDup(o) by {
      forall i, j | 0 <= i < j < |o| ensures o[i] != o[j] {
        if j < |order| { assert o[i] == order[i] && o[j] == order[j]; }
        else { assert o[i] == order[i] && o[j] == u; }
      }
    }
    forall x, y | x in o && y in Succ(g, x) ensures 0 <= y < |F| && F[y] == pol {
      if x != u { assert x in order; }
    }
  }

  /** Finishing a node keeps the frontier property (with no earlier components,
      as in pass 1): a successor not yet finished is on the stack, hence reaches
      the node on top. */
  lemma FinishPostOrdered(g: Adjacency, F: seq<bool>, order: seq<Node>, stack: seq<Node>)
    requires DfsState(g, F, true, {}, order, stack) && PostOrdered(g, order) && |stack| > 0
    requires AllMarked(F, true, Succ(g, stack[|stack| - 1]))
    ensures PostOrdered(g, order + [stack[|stack| - 1]])
  {
    var u := stack[|stack| - 1];
    var o := order + [u];
    forall j | 0 <= j < |o| ensures Frontier(g, o, j) {
      if j < |order| {
        assert o[..j + 1] == order[..j + 1];
        assert Frontier(g, order, j);
      } else {
        assert o[..j + 1] == o;
        forall k, y | 0 <= k <= j && y in Succ(g, o[k]) && y !in o[..j + 1]
          ensures Reach(g, y, o[j])
        {
          if k < |order| {
            assert o[k] == order[k] && o[k] in order;
            assert 0 <= y < |F| && F[y] == true;
          } else {
            assert o[k] == u;
          }
          assert forall x :: x in order ==> x in o;
          assert y !in order && y != u;
          assert y in stack;
          var t :| 0 <= t < |stack| && stack[t] == y;
          assert IsPath(g, stack);
          PathReach(g, stack, t, |stack| - 1);
        }
      }
    }
  }

  /** Finishing the top node keeps "reached from the root": the stack is a path from the root. */
  lemma FinishFromRoot(g: Adjacency, order: seq<Node>, stack: seq<Node>)
    requires |stack| > 0 && FromRoot(g, stack[0], order)
    requires forall t :: 0 <= t < |stack| - 1 ==> stack[t + 1] in Succ(g, stack[t])
    ensures FromRoot(g, stack[0], order + [stack[|stack| - 1]])
  {
    assert IsPath(g, stack);
    PathReach(g, stack, 0, |stack| - 1);
  }

  /** A finished search with an empty stack: its nodes join the taken ones. */
  lemma Retire(g: Adjacency, F: seq<bool>, pol: bool, taken: set<Node>, order: seq<Node>)
    requires DfsState(g, F, pol, taken, order, [])
    ensures DfsState(g, F, pol, taken + (set x | x in order), [], [])
  {
  }
}

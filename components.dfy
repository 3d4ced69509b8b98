/** The shape of StrongComponents' result, a list of components, and the three
    properties promised of it: a partition of the nodes, one strongly connected
    component per entry, and dependency order between entries. */
module Components {
  import opened Paths

  ghost predicate NoDup(s: seq<Node>)
  {
    forall i, j :: 0 <= i < j < |s| ==> s[i] != s[j]
  }

  /** The components laid end to end, first component first. */
  ghost function Flatten(cs: seq<seq<Node>>): seq<Node>
  {
    if cs == [] then [] else Flatten(cs[..|cs| - 1]) + cs[|cs| - 1]
  }

  /** Every node of `nodes` lies in exactly one component, exactly once, no
      component is empty and no component holds anything else. */
  ghost predicate Partitions(cs: seq<seq<Node>>, nodes: set<Node>)
  {
    && (forall k :: 0 <= k < |cs| ==> |cs[k]| > 0)
    && (forall x :: x in nodes <==> exists k :: 0 <= k < |cs| && x in cs[k])
    && (forall k, l, i, j ::
          0 <= k < |cs| && 0 <= l < |cs| && 0 <= i < |cs[k]| && 0 <= j < |cs[l]| && cs[k][i] == cs[l][j]
          ==> k == l && i == j)
  }

  ghost predicate SameComponent(cs: seq<seq<Node>>, u: Node, v: Node)
  {
    exists k :: 0 <= k < |cs| && u in cs[k] && v in cs[k]
  }

  /** Two nodes share a component exactly when each reaches the other along `g`. */
  ghost predicate ComponentsAreSccs(g: Adjacency, nodes: set<Node>, cs: seq<seq<Node>>)
  {
    forall u, v :: u in nodes && v in nodes ==> (SameComponent(cs, u, v) <==> MutuallyReachable(g, u, v))
  }

  /** Dependency order: an edge `u -> v` between two different components puts
      `u`'s component strictly before `v`'s. */
  ghost predicate TopologicallySorted(g: Adjacency, cs: seq<seq<Node>>)
  {
    forall k, l, u, v ::
      0 <= k < |cs| && 0 <= l < |cs| && u in cs[k] && v in cs[l] && v in Succ(g, u) && k != l
      ==> k < l
  }

  /** Appending a sequence disjoint from `f` keeps both free of repetition. */
  lemma NoDupAppend(f: seq<Node>, c: seq<Node>)
    requires NoDup(f) && NoDup(c) && (forall x :: x in c ==> x !in f)
    ensures NoDup(f + c)
  {
    forall a, b | 0 <= a < b < |f + c| ensures (f + c)[a] != (f + c)[b] {
      if b < |f| {
        assert (f + c)[a] == f[a] && (f + c)[b] == f[b];
      } else if a >= |f| {
        assert (f + c)[a] == c[a - |f|] && (f + c)[b] == c[b - |f|];
      } else {
        assert (f + c)[a] == f[a] && (f + c)[b] == c[b - |f|] && c[b - |f|] in c;
      }
    }
  }

  lemma FlattenAppend(cs: seq<seq<Node>>, c: seq<Node>)
    ensures Flatten(cs + [c]) == Flatten(cs) + c
  {
    assert (cs + [c])[..|cs|] == cs;
  }

  lemma {:induction false} FlattenMember(cs: seq<seq<Node>>, x: Node) returns (k: int)
    requires x in Flatten(cs)
    ensures 0 <= k < |cs| && x in cs[k]
  {
    var m := |cs| - 1;
    if x in cs[m] {
      k := m;
    } else {
      assert x in Flatten(cs[..m]);
      k := FlattenMember(cs[..m], x);
      assert cs[..m][k] == cs[k];
    }
  }

  lemma {:induction false} InFlatten(cs: seq<seq<Node>>, k: int, x: Node)
    requires 0 <= k < |cs| && x in cs[k]
    ensures x in Flatten(cs)
  {
    var m := |cs| - 1;
    if k < m {
      assert cs[..m][k] == cs[k];
      InFlatten(cs[..m], k, x);
    }
  }

  /** A node of component `k` is already in the concatenation of the first `m > k` components. */
  lemma InFlattenPrefix(cs: seq<seq<Node>>, m: int, k: int, x: Node)
    requires 0 <= k < m <= |cs| && x in cs[k]
    ensures x in Flatten(cs[..m])
  {
    assert cs[..m][k] == cs[k];
    InFlatten(cs[..m], k, x);
  }

  /** With no repetition in the concatenation, one position of one component holds each node. */
  lemma {:induction false} UniquePosition(cs: seq<seq<Node>>, k: int, l: int, i: int, j: int)
    requires NoDup(Flatten(cs))
    requires 0 <= k < |cs| && 0 <= l < |cs| && 0 <= i < |cs[k]| && 0 <= j < |cs[l]|
    requires cs[k][i] == cs[l][j]
    ensures k == l && i == j
  {
    var m := |cs| - 1;
    var p := cs[..m];
    var f, c := Flatten(p), cs[m];
    assert Flatten(cs) == f + c;
    assert forall a :: 0 <= a < |f| ==> Flatten(cs)[a] == f[a];
    assert forall a :: 0 <= a < |c| ==> Flatten(cs)[|f| + a] == c[a];
    if k < m && l < m {
      assert p[k] == cs[k] && p[l] == cs[l];
      UniquePosition(p, k, l, i, j);
    } else if k < m && l == m {
      InFlattenPrefix(cs, m, k, cs[k][i]);
    } else if k == m && l < m {
      InFlattenPrefix(cs, m, l, cs[l][j]);
    }
  }

  lemma UniqueComponent(cs: seq<seq<Node>>, k: int, l: int, x: Node)
    requires NoDup(Flatten(cs))
    requires 0 <= k < |cs| && 0 <= l < |cs| && x in cs[k] && x in cs[l]
    ensures k == l
  {
    var i :| 0 <= i < |cs[k]| && cs[k][i] == x;
    var j :| 0 <= j < |cs[l]| && cs[l][j] == x;
    UniquePosition(cs, k, l, i, j);
  }

  /** A node of component `k` is not among the components before it. */
  lemma NotInEarlier(cs: seq<seq<Node>>, k: int, x: Node)
    requires NoDup(Flatten(cs)) && 0 <= k < |cs| && x in cs[k]
    ensures x !in Flatten(cs[..k])
  {
    if x in Flatten(cs[..k]) {
      var k' := FlattenMember(cs[..k], x);
      assert cs[..k][k'] == cs[k'];
      UniqueComponent(cs, k, k', x);
    }
  }

  lemma PartitionsFromFlatten(cs: seq<seq<Node>>, nodes: set<Node>)
    requires NoDup(Flatten(cs))
    requires forall k :: 0 <= k < |cs| ==> |cs[k]| > 0
    requires forall x :: x in nodes <==> x in Flatten(cs)
    ensures Partitions(cs, nodes)
  {
    forall x
      ensures x in nodes <==> exists k :: 0 <= k < |cs| && x in cs[k]
    {
      if x in nodes {
        var k := FlattenMember(cs, x);
      }
      if exists k :: 0 <= k < |cs| && x in cs[k] {
        var k :| 0 <= k < |cs| && x in cs[k];
        InFlatten(cs, k, x);
      }
    }
    forall k, l, i, j |
      0 <= k < |cs| && 0 <= l < |cs| && 0 <= i < |cs[k]| && 0 <= j < |cs[l]| && cs[k][i] == cs[l][j]
      ensures k == l && i == j
    {
      UniquePosition(cs, k, l, i, j);
    }
  }
}

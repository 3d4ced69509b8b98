/** The value of a hdgraph Graph, its two adjacency maps, and what each edit
    operation does to that value. The methods of HdGraph.Graph are proved to
    perform exactly these functions; the lemmas here say what the edits keep. */
module GraphSpec {
  import opened Paths

  /** `outs` is the Go field `out` (node -> successors), `ins` the field `in`
      (node -> predecessors). */
  datatype Maps = Maps(outs: Adjacency, ins: Adjacency)

  /** Every node with an `out` entry has an `in` entry. Every reachable state
      satisfies it, and Link relies on it: writing into a missing `in` entry
      would be a write to a nil Go map. */
  ghost predicate KeysCovered(m: Maps)
  {
    m.outs.Keys <= m.ins.Keys
  }

  /** The mirror invariant with equal key sets: the graph as the package intends it. */
  ghost predicate WellFormed(m: Maps)
  {
    && m.outs.Keys == m.ins.Keys
    && (forall s, d :: s in m.outs && d in m.outs[s] ==> d in m.outs)
    && (forall s, d :: d in Succ(m.outs, s) <==> s in Succ(m.ins, d))
  }

  /** The weaker condition StrongComponents' correctness needs: successors are
      nodes, and the `in` entry of every node lists exactly its predecessors.
      `in` may keep entries for nodes that have no `out` entry any more. */
  ghost predicate Coherent(m: Maps)
  {
    && (forall s, d :: s in m.outs && d in m.outs[s] ==> d in m.outs)
    && (forall d, s :: d in m.outs ==> (s in Succ(m.ins, d) <==> s in m.outs && d in Succ(m.outs, s)))
  }

  /** The `in` set of `x` once `Add(x)` has run: kept when `x` has an `out`
      entry, otherwise freshly empty. */
  function InAfterAdd(m: Maps, x: Node): set<Node>
  {
    if x in m.outs then Succ(m.ins, x) else {}
  }

  /** Add (hdgraph.go:31-36). */
  function Added(m: Maps, n: Node): (r: Maps)
    ensures r.outs.Keys == m.outs.Keys + {n}
    ensures n in m.outs ==> r == m
    ensures n !in m.outs ==> r.ins.Keys == m.ins.Keys + {n} && r.outs[n] == {} && r.ins[n] == {}
    ensures forall x :: x != n ==> Succ(r.outs, x) == Succ(m.outs, x) && Succ(r.ins, x) == Succ(m.ins, x)
    ensures KeysCovered(m) ==> KeysCovered(r)
  {
    if n in m.outs then m else Maps(m.outs[n := {}], m.ins[n := {}])
  }

  /** The `in` map once `n` is deleted from the `in` set of every node of `ds`
      that has one, as Remove's loop does. */
  function Scrub(ins: Adjacency, ds: set<Node>, n: Node): Adjacency
  {
    map d | d in ins :: if d in ds then ins[d] - {n} else ins[d]
  }

  /** Remove (hdgraph.go:39-45): only `n`'s `out` entry goes, and `n` leaves the
      `in` sets of its successors. Its own `in` entry stays (losing only `n`
      itself when `n` has a self-loop), and its predecessors' `out` sets are
      left as they are. */
  function Removed(m: Maps, n: Node): (r: Maps)
    ensures r.outs.Keys == m.outs.Keys - {n} && r.ins.Keys == m.ins.Keys
    ensures forall x :: x in r.outs ==> r.outs[x] == m.outs[x]
    ensures forall d :: d in Succ(m.outs, n) ==> n !in Succ(r.ins, d)
    ensures forall d :: d in m.ins ==> r.ins[d] == (if d in Succ(m.outs, n) then m.ins[d] - {n} else m.ins[d])
    ensures n !in m.outs ==> r == m
    ensures KeysCovered(m) ==> KeysCovered(r)
  {
    Maps(m.outs - {n}, Scrub(m.ins, Succ(m.outs, n), n))
  }

  /** Link (hdgraph.go:48-53): Add both ends, then record the edge in both maps. */
  function Linked(m: Maps, s: Node, d: Node): (r: Maps)
    requires KeysCovered(m)
    ensures KeysCovered(r)
    ensures r.outs.Keys == m.outs.Keys + {s, d} && r.ins.Keys == m.ins.Keys + {s, d}
    ensures forall x :: Succ(r.outs, x) == if x == s then Succ(m.outs, s) + {d} else Succ(m.outs, x)
    ensures forall x :: Succ(r.ins, x) == if x == d then InAfterAdd(m, d) + {s} else if x == s then InAfterAdd(m, s) else Succ(m.ins, x)
  {
    var b := Added(Added(m, s), d);
    Maps(b.outs[s := b.outs[s] + {d}], b.ins[d := b.ins[d] + {s}])
  }

  /** Unlink (hdgraph.go:56-63): each half of the edge is removed where its entry exists. */
  function Unlinked(m: Maps, s: Node, d: Node): (r: Maps)
    ensures r.outs.Keys == m.outs.Keys && r.ins.Keys == m.ins.Keys
    ensures Succ(r.outs, s) == Succ(m.outs, s) - {d} && Succ(r.ins, d) == Succ(m.ins, d) - {s}
    ensures forall x :: x != s ==> Succ(r.outs, x) == Succ(m.outs, x)
    ensures forall x :: x != d ==> Succ(r.ins, x) == Succ(m.ins, x)
    ensures KeysCovered(m) ==> KeysCovered(r)
  {
    var outs := if s in m.outs then m.outs[s := m.outs[s] - {d}] else m.outs;
    var ins := if d in m.ins then m.ins[d := m.ins[d] - {s}] else m.ins;
    Maps(outs, ins)
  }

  // ---- what the edits keep ----

  lemma AddIdempotent(m: Maps, n: Node)
    ensures Added(Added(m, n), n) == Added(m, n)
  {
  }

  lemma {:induction false} LinkIdempotent(m: Maps, s: Node, d: Node)
    requires KeysCovered(m)
    ensures Linked(Linked(m, s, d), s, d) == Linked(m, s, d)
  {
    var r := Linked(m, s, d);
    assert Added(Added(r, s), d) == r;
    assert r.outs[s] + {d} == r.outs[s] && r.ins[d] + {s} == r.ins[d];
    assert r.outs[s := r.outs[s]] == r.outs;
    assert r.ins[d := r.ins[d]] == r.ins;
  }

  lemma {:induction false} UnlinkIdempotent(m: Maps, s: Node, d: Node)
    ensures Unlinked(Unlinked(m, s, d), s, d) == Unlinked(m, s, d)
  {
    var r := Unlinked(m, s, d);
    if s in r.outs {
      assert r.outs[s] - {d} == r.outs[s];
      assert r.outs[s := r.outs[s]] == r.outs;
    }
    if d in r.ins {
      assert r.ins[d] - {s} == r.ins[d];
      assert r.ins[d := r.ins[d]] == r.ins;
    }
  }

  /** Unlink undoes a Link that added a new edge between two present nodes. */
  lemma {:induction false} UnlinkUndoesLink(m: Maps, s: Node, d: Node)
    requires WellFormed(m) && s in m.outs && d in m.outs && d !in m.outs[s]
    ensures Unlinked(Linked(m, s, d), s, d) == m
  {
    assert d in Succ(m.outs, s) <==> s in Succ(m.ins, d);
    assert s !in m.ins[d];
    var r := Unlinked(Linked(m, s, d), s, d);
    assert r.outs == m.outs;
    assert r.ins == m.ins;
  }

  lemma WellFormedIsCoherent(m: Maps)
    requires WellFormed(m)
    ensures Coherent(m) && KeysCovered(m)
  {
    forall d, s | d in m.outs ensures s in Succ(m.ins, d) <==> s in m.outs && d in Succ(m.outs, s) {
      assert d in Succ(m.outs, s) <==> s in Succ(m.ins, d);
    }
  }

  lemma {:induction false} AddKeepsWellFormed(m: Maps, n: Node)
    requires WellFormed(m)
    ensures WellFormed(Added(m, n))
  {
    var r := Added(m, n);
    forall s, d ensures d in Succ(r.outs, s) <==> s in Succ(r.ins, d) {
      assert d in Succ(m.outs, s) <==> s in Succ(m.ins, d);
      if n !in m.outs {
        assert d in Succ(m.outs, n) <==> n in Succ(m.ins, d);
        assert n in Succ(m.outs, s) <==> s in Succ(m.ins, n);
      }
    }
  }

  lemma {:induction false} LinkKeepsWellFormed(m: Maps, s: Node, d: Node)
    requires WellFormed(m)
    ensures WellFormed(Linked(m, s, d))
  {
    var r := Linked(m, s, d);
    forall x, y ensures y in Succ(r.outs, x) <==> x in Succ(r.ins, y) {
      assert y in Succ(m.outs, x) <==> x in Succ(m.ins, y);
    }
  }

  lemma {:induction false} UnlinkKeepsWellFormed(m: Maps, s: Node, d: Node)
    requires WellFormed(m)
    ensures WellFormed(Unlinked(m, s, d))
  {
    var r := Unlinked(m, s, d);
    forall x, y ensures y in Succ(r.outs, x) <==> x in Succ(r.ins, y) {
      assert y in Succ(m.outs, x) <==> x in Succ(m.ins, y);
    }
  }

  /** Remove of a present node never leaves a well-formed graph: its `in` entry stays. */
  lemma RemoveBreaksWellFormed(m: Maps, n: Node)
    requires KeysCovered(m) && n in m.outs
    ensures !WellFormed(Removed(m, n))
  {
    var r := Removed(m, n);
    assert n in r.ins && n !in r.outs;
  }

  lemma {:induction false} AddKeepsCoherent(m: Maps, n: Node)
    requires Coherent(m)
    ensures Coherent(Added(m, n))
  {
    var r := Added(m, n);
    forall x, y | x in r.outs ensures y in Succ(r.ins, x) <==> y in r.outs && x in Succ(r.outs, y) {
      if n !in m.outs {
        if x == n {
          assert y in m.outs ==> n !in m.outs[y];
        } else {
          assert y in Succ(m.ins, x) <==> y in m.outs && x in Succ(m.outs, y);
        }
      }
    }
  }

  lemma {:induction false} LinkKeepsCoherent(m: Maps, s: Node, d: Node)
    requires KeysCovered(m) && Coherent(m)
    ensures Coherent(Linked(m, s, d))
  {
    var r := Linked(m, s, d);
    forall x, y | x in r.outs && y in r.outs[x] ensures y in r.outs {
      if x != s { assert y in Succ(m.outs, x); }
    }
    forall x, y | x in r.outs ensures y in Succ(r.ins, x) <==> y in r.outs && x in Succ(r.outs, y) {
      LinkMirrorAt(m, s, d, x, y);
    }
  }

  lemma LinkMirrorAt(m: Maps, s: Node, d: Node, x: Node, y: Node)
    requires KeysCovered(m) && Coherent(m)
    requires x in Linked(m, s, d).outs
    ensures var r := Linked(m, s, d); y in Succ(r.ins, x) <==> y in r.outs && x in Succ(r.outs, y)
  {
    var r := Linked(m, s, d);
    if x in m.outs {
      assert y in Succ(m.ins, x) <==> y in m.outs && x in Succ(m.outs, y);
    } else {
      assert y in m.outs ==> x !in m.outs[y];
      assert y !in m.outs ==> Succ(m.outs, y) == {};
    }
  }

  lemma {:induction false} UnlinkKeepsCoherent(m: Maps, s: Node, d: Node)
    requires Coherent(m)
    ensures Coherent(Unlinked(m, s, d))
  {
    var r := Unlinked(m, s, d);
    forall x, y | x in r.outs ensures y in Succ(r.ins, x) <==> y in r.outs && x in Succ(r.outs, y) {
      assert y in Succ(m.ins, x) <==> y in m.outs && x in Succ(m.outs, y);
    }
  }

  /** Remove keeps the graph coherent exactly when no other node still points at
      the removed one; otherwise the predecessor's stale `out` entry remains. */
  lemma {:induction false} RemoveKeepsCoherent(m: Maps, n: Node)
    requires Coherent(m)
    requires forall y :: y in m.outs && y != n ==> n !in m.outs[y]
    ensures Coherent(Removed(m, n))
  {
    var r := Removed(m, n);
    forall x, y | x in r.outs ensures y in Succ(r.ins, x) <==> y in r.outs && x in Succ(r.outs, y) {
      assert y in Succ(m.ins, x) <==> y in m.outs && x in Succ(m.outs, y);
      assert n in Succ(m.ins, x) <==> n in m.outs && x in Succ(m.outs, n);
    }
  }

  /** ... and a node still pointed at by another present node breaks it. */
  lemma RemoveWithPredecessorBreaksCoherent(m: Maps, n: Node, p: Node)
    requires p in m.outs && p != n && n in m.outs[p]
    ensures !Coherent(Removed(m, n))
  {
    var r := Removed(m, n);
    assert p in r.outs && n in r.outs[p] && n !in r.outs;
  }

  // ---- Remove, then Add again ----

  /** Link(1, 0), then Link(0, 1): the cycle 0 -> 1 -> 0, mirrored in `in`. */
  lemma TwoCycle() returns (b: Maps)
    ensures b == Linked(Linked(Maps(map[], map[]), 1, 0), 0, 1)
    ensures b.outs.Keys == {0, 1} && Succ(b.outs, 0) == {1} && Succ(b.outs, 1) == {0}
    ensures Succ(b.ins, 0) == {1} && Succ(b.ins, 1) == {0} && KeysCovered(b)
  {
    var a := Linked(Maps(map[], map[]), 1, 0);
    assert a.outs.Keys == {0, 1} && Succ(a.outs, 0) == {} && Succ(a.outs, 1) == {0};
    b := Linked(a, 0, 1);
  }

  /** Remove(1), then Add(1), on the cycle: 1 comes back with no edges and an
      empty `in` set, while 0 still points at it. */
  lemma ReAdded(b: Maps) returns (d: Maps)
    requires b.outs.Keys == {0, 1} && Succ(b.outs, 0) == {1} && Succ(b.outs, 1) == {0} && Succ(b.ins, 0) == {1} && KeysCovered(b)
    ensures d == Added(Removed(b, 1), 1)
    ensures d.outs.Keys == {0, 1} && Succ(d.outs, 0) == {1} && Succ(d.outs, 1) == {} && Succ(d.ins, 1) == {} && Succ(d.ins, 0) == {}
    ensures KeysCovered(d)
  {
    var c := Removed(b, 1);
    assert c.outs.Keys == {0} && Succ(c.outs, 0) == {1};
    d := Added(c, 1);
  }

  /** As written, Remove leaves its predecessors' edges into the removed node,
      and a later Add of that node gives it a fresh, empty `in` set. So the
      sequence Link(1, 0), Link(0, 1), Remove(1), Add(1), Link(1, 0) builds the
      cycle 0 -> 1 -> 0 in `out` but only the edge 1 -> 0 in `in`. What
      StrongComponents returns then depends on map order
      (Kosaraju.RemoveThenAddRevivesEdge). */
  lemma RemoveThenAddLosesEdge() returns (r: Maps)
    ensures r == Linked(Added(Removed(Linked(Linked(Maps(map[], map[]), 1, 0), 0, 1), 1), 1), 1, 0)
    ensures r.outs.Keys == {0, 1} && Succ(r.outs, 0) == {1} && Succ(r.outs, 1) == {0}
    ensures Succ(r.ins, 1) == {} && Succ(r.ins, 0) == {1} && MutuallyReachable(r.outs, 0, 1)
    ensures !Coherent(r)
  {
    var b := TwoCycle();
    var d := ReAdded(b);
    r := RelinkedSplit(d);
  }

  /** The last Link(1, 0) closes the cycle in `out` only. */
  lemma RelinkedSplit(d: Maps) returns (r: Maps)
    requires d.outs.Keys == {0, 1} && Succ(d.outs, 0) == {1} && Succ(d.outs, 1) == {} && Succ(d.ins, 1) == {} && Succ(d.ins, 0) == {}
    requires KeysCovered(d)
    ensures r == Linked(d, 1, 0)
    ensures r.outs.Keys == {0, 1} && Succ(r.outs, 0) == {1} && Succ(r.outs, 1) == {0}
    ensures Succ(r.ins, 1) == {} && Succ(r.ins, 0) == {1} && MutuallyReachable(r.outs, 0, 1)
    ensures !Coherent(r)
  {
    r := Linked(d, 1, 0);
    assert Succ(r.ins, 1) == InAfterAdd(d, 1) == {};
    assert Succ(r.ins, 0) == InAfterAdd(d, 0) + {1} == {1};
    ReachEdge(r.outs, 0, 1);
    ReachEdge(r.outs, 1, 0);
    assert 1 in r.outs && 0 in r.outs && 1 in Succ(r.outs, 0) && 0 !in Succ(r.ins, 1);
  }

  /** Remove as its comment ("removes a node from the graph") intends it: the
      node goes together with every edge into or out of it, in both maps. In Go
      this is the existing loop, a second loop over `in[node]` deleting `node`
      from each predecessor's `out` set, and `delete(g.in, node)`. */
  function RemovedWithEdges(m: Maps, n: Node): (r: Maps)
    ensures r.outs.Keys == m.outs.Keys - {n} && r.ins.Keys == m.ins.Keys - {n}
    ensures forall d :: d in Succ(m.outs, n) ==> n !in Succ(r.ins, d)
    ensures forall p :: p in Succ(m.ins, n) ==> n !in Succ(r.outs, p)
    ensures forall x :: x in r.outs ==> r.outs[x] == (if x in Succ(m.ins, n) then m.outs[x] - {n} else m.outs[x])
    ensures forall x :: x in r.ins ==> r.ins[x] == (if x in Succ(m.outs, n) then m.ins[x] - {n} else m.ins[x])
    ensures KeysCovered(m) ==> KeysCovered(r)
  {
    var w := Removed(m, n);
    Maps(Scrub(w.outs, Succ(m.ins, n), n), w.ins - {n})
  }

  lemma {:induction false} RemovedWithEdgesKeepsWellFormed(m: Maps, n: Node)
    requires WellFormed(m)
    ensures WellFormed(RemovedWithEdges(m, n))
  {
    var r := RemovedWithEdges(m, n);
    forall x, y | x in r.outs && y in r.outs[x] ensures y in r.outs {
      assert x in Succ(m.ins, n) <==> n in Succ(m.outs, x);
    }
    forall x, y ensures y in Succ(r.outs, x) <==> x in Succ(r.ins, y) {
      assert y in Succ(m.outs, x) <==> x in Succ(m.ins, y);
      assert n in Succ(m.outs, x) <==> x in Succ(m.ins, n);
      assert y in Succ(m.outs, n) <==> n in Succ(m.ins, y);
    }
  }

  lemma {:induction false} RemovedWithEdgesKeepsCoherent(m: Maps, n: Node)
    requires Coherent(m)
    ensures Coherent(RemovedWithEdges(m, n))
  {
    var r := RemovedWithEdges(m, n);
    forall x, y | x in r.outs && y in r.outs[x] ensures y in r.outs {
      if n in m.outs {
        assert x in Succ(m.ins, n) <==> x in m.outs && n in Succ(m.outs, x);
      }
    }
    forall x, y | x in r.outs ensures y in Succ(r.ins, x) <==> y in r.outs && x in Succ(r.outs, y) {
      RemovedWithEdgesMirrorAt(m, n, x, y);
    }
  }

  lemma RemovedWithEdgesMirrorAt(m: Maps, n: Node, x: Node, y: Node)
    requires Coherent(m) && x in RemovedWithEdges(m, n).outs
    ensures var r := RemovedWithEdges(m, n); y in Succ(r.ins, x) <==> y in r.outs && x in Succ(r.outs, y)
  {
    assert y in Succ(m.ins, x) <==> y in m.outs && x in Succ(m.outs, y);
    assert n in Succ(m.ins, x) <==> n in m.outs && x in Succ(m.outs, n);
  }

  /** With the corrected Remove, the sequence of RemoveThenAddLosesEdge keeps
      both maps mirrored: `in[1]` lists 0 again once the edge is relinked. */
  lemma {:induction false} CorrectedSequenceIsCoherent()
    ensures var b := Linked(Linked(Maps(map[], map[]), 1, 0), 0, 1);
      KeysCovered(b) && Coherent(Linked(Added(RemovedWithEdges(b, 1), 1), 1, 0))
  {
    var e := Maps(map[], map[]);
    var a := Linked(e, 1, 0);
    LinkKeepsWellFormed(e, 1, 0);
    var b := Linked(a, 0, 1);
    LinkKeepsWellFormed(a, 0, 1);
    var c := RemovedWithEdges(b, 1);
    RemovedWithEdgesKeepsWellFormed(b, 1);
    var d := Added(c, 1);
    AddKeepsWellFormed(c, 1);
    WellFormedIsCoherent(d);
    LinkKeepsCoherent(d, 1, 0);
  }

  /** With the corrected Remove, Remove(1) then Add(1) on the cycle: 1 comes
      back with no edges, and 0 no longer points at it. */
  lemma CorrectedReAdded(b: Maps) returns (d: Maps)
    requires b.outs.Keys == {0, 1} && Succ(b.outs, 0) == {1} && Succ(b.outs, 1) == {0}
    requires Succ(b.ins, 0) == {1} && Succ(b.ins, 1) == {0} && KeysCovered(b)
    ensures d == Added(RemovedWithEdges(b, 1), 1)
    ensures d.outs.Keys == {0, 1} && Succ(d.outs, 0) == {} && Succ(d.outs, 1) == {} && KeysCovered(d)
  {
    var c := RemovedWithEdges(b, 1);
    assert c.outs.Keys == {0} && Succ(c.outs, 0) == {};
    d := Added(c, 1);
  }

  /** The five edits with the corrected Remove leave the single edge 1 -> 0. */
  lemma CorrectedSequence() returns (c: Maps)
    ensures c == Linked(Added(RemovedWithEdges(Linked(Linked(Maps(map[], map[]), 1, 0), 0, 1), 1), 1), 1, 0)
    ensures c.outs.Keys == {0, 1} && Succ(c.outs, 0) == {} && Succ(c.outs, 1) == {0}
  {
    var b := TwoCycle();
    var d := CorrectedReAdded(b);
    c := CorrectedRelinked(d);
  }

  /** The last Link(1, 0) adds the one edge. */
  lemma CorrectedRelinked(d: Maps) returns (c: Maps)
    requires d.outs.Keys == {0, 1} && Succ(d.outs, 0) == {} && Succ(d.outs, 1) == {} && KeysCovered(d)
    ensures c == Linked(d, 1, 0)
    ensures c.outs.Keys == {0, 1} && Succ(c.outs, 0) == {} && Succ(c.outs, 1) == {0}
  {
    c := Linked(d, 1, 0);
  }
}

/** Directed graphs as finite sets of edges: cycles, and the two finite witnesses for and against one. */
module Graphs {
  import opened Sets

  type Graph = set<(int, int)>

  predicate IsWalk(g: Graph, w: seq<int>) {
    forall i | 0 <= i < |w| - 1 :: (w[i], w[i + 1]) in g
  }

  predicate IsCycle(g: Graph, w: seq<int>) {
    |w| >= 2 && IsWalk(g, w) && w[0] == w[|w| - 1]
  }

  ghost predicate HasCycle(g: Graph) {
    exists w :: IsCycle(g, w)
  }

  function Preds(g: Graph, v: int): set<int> {
    set e | e in g && e.1 == v :: e.0
  }

  lemma PredsIff(g: Graph, u: int, v: int)
    ensures u in Preds(g, v) <==> (u, v) in g
  {
    if u in Preds(g, v) {
      var e :| e in g && e.1 == v && e.0 == u;
      assert e == (u, v);
    }
    if (u, v) in g {
      assert (u, v).0 in Preds(g, v);
    }
  }

  lemma PredsAdd(g: Graph, u: int, v: int, x: int)
    ensures Preds(g + {(u, v)}, x) == if x == v then Preds(g, x) + {u} else Preds(g, x)
  {
    forall p ensures p in Preds(g + {(u, v)}, x) <==> p in if x == v then Preds(g, x) + {u} else Preds(g, x) {
      PredsIff(g, p, x);
      PredsIff(g + {(u, v)}, p, x);
    }
  }

  lemma PredsRemove(g: Graph, u: int, v: int, x: int)
    ensures Preds(g - {(u, v)}, x) == if x == v then Preds(g, x) - {u} else Preds(g, x)
  {
    forall p ensures p in Preds(g - {(u, v)}, x) <==> p in if x == v then Preds(g, x) - {u} else Preds(g, x) {
      PredsIff(g, p, x);
      PredsIff(g - {(u, v)}, p, x);
    }
  }

  /** Without any edge at x. */
  function WithoutNode(g: Graph, x: int): Graph {
    set e | e in g && e.0 != x && e.1 != x
  }

  lemma PredsWithoutNode(g: Graph, x: int, v: int)
    requires v != x
    ensures Preds(WithoutNode(g, x), v) == Preds(g, v) - {x}
  {
    forall p ensures p in Preds(WithoutNode(g, x), v) <==> p in Preds(g, v) - {x} {
      PredsIff(g, p, v);
      PredsIff(WithoutNode(g, x), p, v);
    }
  }

  // ---- Acyclicity is kept -----------------------------------------------------------------

  lemma FewerEdges(g: Graph, h: Graph)
    requires h <= g && HasCycle(h)
    ensures HasCycle(g)
  {
    var w :| IsCycle(h, w);
    assert IsCycle(g, w);
  }

  /** An edge into a node without successors closes no cycle. */
  lemma EdgeToSink(g: Graph, u: int, v: int)
    requires !HasCycle(g) && u != v
    requires forall e | e in g :: e.0 != v
    ensures !HasCycle(g + {(u, v)})
  {
    if w :| IsCycle(g + {(u, v)}, w) {
      forall i | 0 <= i < |w| - 1 ensures w[i] != v {
        assert (w[i], w[i + 1]) in g + {(u, v)};
      }
      forall i | 0 <= i < |w| - 1 ensures (w[i], w[i + 1]) in g {
        assert (w[i], w[i + 1]) in g + {(u, v)};
        assert w[i + 1] != v;
      }
      assert IsCycle(g, w);
    }
  }

  // ---- A rank excludes cycles ---------------------------------------------------------------

  lemma {:induction false} RankRises(g: Graph, rank: map<int, int>, w: seq<int>)
    requires |w| >= 2 && IsWalk(g, w)
    requires forall e | e in g :: e.0 in rank && e.1 in rank && rank[e.0] < rank[e.1]
    ensures w[0] in rank && w[|w| - 1] in rank && rank[w[0]] < rank[w[|w| - 1]]
  {
    assert (w[0], w[1]) in g;
    if |w| > 2 {
      forall i | 0 <= i < |w[1..]| - 1 ensures (w[1..][i], w[1..][i + 1]) in g {
        assert (w[i + 1], w[i + 2]) in g;
      }
      RankRises(g, rank, w[1..]);
    }
  }

  lemma RankedIsAcyclic(g: Graph, rank: map<int, int>)
    requires forall e | e in g :: e.0 in rank && e.1 in rank && rank[e.0] < rank[e.1]
    ensures !HasCycle(g)
  {
    if w :| IsCycle(g, w) {
      RankRises(g, rank, w);
    }
  }

  // ---- Following edges forever in a finite set finds a cycle -----------------------------------

  /** Every node of r has a predecessor in r. */
  ghost predicate ClosedBackward(g: Graph, r: set<int>) {
    forall v | v in r :: Preds(g, v) * r != {}
  }

  lemma {:induction false} WalkBack(g: Graph, r: set<int>, w: seq<int>, seen: set<int>)
    requires ClosedBackward(g, r)
    requires |w| >= 1 && IsWalk(g, w) && w[0] in seen && seen <= r
    requires forall x | x in seen :: x in w
    ensures HasCycle(g)
    decreases r - seen
  {
    assert w[0] in r && Preds(g, w[0]) * r != {};
    NonEmpty(Preds(g, w[0]) * r);
    var u :| u in Preds(g, w[0]) * r;
    PredsIff(g, u, w[0]);
    var w' := [u] + w;
    assert IsWalk(g, w') by {
      forall i | 0 <= i < |w'| - 1 ensures (w'[i], w'[i + 1]) in g {
        assert i > 0 ==> (w[i - 1], w[i]) in g;
      }
    }
    if u in seen {
      var k :| 0 <= k < |w| && w[k] == u;
      assert IsCycle(g, w'[..k + 2]);
    } else {
      WalkBack(g, r, w', seen + {u});
    }
  }

  lemma PredecessorsCycle(g: Graph, r: set<int>, v: int)
    requires v in r && ClosedBackward(g, r)
    ensures HasCycle(g)
  {
    WalkBack(g, r, [v], {v});
  }

  function Reverse(g: Graph): Graph {
    set e | e in g :: (e.1, e.0)
  }

  lemma ReverseIff(g: Graph, u: int, v: int)
    ensures (u, v) in Reverse(g) <==> (v, u) in g
  {
    if (v, u) in g {
      assert ((v, u).1, (v, u).0) in Reverse(g);
    }
  }

  lemma ReverseCycle(g: Graph)
    requires HasCycle(Reverse(g))
    ensures HasCycle(g)
  {
    var w :| IsCycle(Reverse(g), w);
    var back := seq(|w|, i requires 0 <= i < |w| => w[|w| - 1 - i]);
    forall i | 0 <= i < |back| - 1 ensures (back[i], back[i + 1]) in g {
      var j := |w| - 2 - i;
      assert (w[j], w[j + 1]) in Reverse(g);
      ReverseIff(g, w[j], w[j + 1]);
    }
    assert IsCycle(g, back);
  }

  ghost predicate HasNext(g: Graph, r: set<int>, u: int) {
    exists w :: w in r && (u, w) in g
  }

  /** Every node of a finite set has a successor in it. */
  lemma SuccessorsCycle(g: Graph, r: set<int>, v: int)
    requires v in r && forall u | u in r :: HasNext(g, r, u)
    ensures HasCycle(g)
  {
    forall u | u in r ensures Preds(Reverse(g), u) * r != {} {
      assert HasNext(g, r, u);
      var w :| w in r && (u, w) in g;
      ReverseIff(g, w, u);
      PredsIff(Reverse(g), w, u);
      assert w in Preds(Reverse(g), u) * r;
    }
    PredecessorsCycle(Reverse(g), r, v);
    ReverseCycle(g);
  }
}

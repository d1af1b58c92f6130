/** Degree queries: `get_node_degree`, `high_connectivity_nodes` and
    `get_isolated_nodes`. */
module Degrees {
  import opened Seqs
  import opened Words
  import opened Graphs

  function Neighbors(g: Graph, w: Word): set<Word>
  {
    set v | v in g.nodes && Adjacent(g, w, v)
  }

  /** The edges that have `w` as an end. */
  function IncidentEdges(g: Graph, w: Word): set<set<Word>>
  {
    set e | e in g.edges && w in e
  }

  /** networkx's degree of a vertex: the size of its neighbourhood. */
  function Degree(g: Graph, w: Word): nat
  {
    |Neighbors(g, w)|
  }

  /** Pairing a fixed word with each member of a set that avoids it loses nothing. */
  lemma {:induction false} PairImageCard(w: Word, n: set<Word>)
    requires w !in n
    ensures |set v | v in n :: {w, v}| == |n|
    decreases n
  {
    if n != {} {
      var x :| x in n;
      var rest := n - {x};
      PairImageCard(w, rest);
      var img := set v | v in n :: {w, v};
      var img' := set v | v in rest :: {w, v};
      assert img == img' + {{w, x}};
    }
  }

  /** An edge through `w` is `{w, v}` for the one other end `v`. */
  lemma OtherEnd(e: set<Word>, w: Word) returns (v: Word)
    requires |e| == 2 && w in e
    ensures v != w && e == {w, v}
  {
    var rest := e - {w};
    assert |rest| == 1;
    v :| v in rest;
    assert |rest - {v}| == 0;
    assert e == {w, v};
  }

  /** In a valid graph the incident edges are exactly the pairs with the neighbours. */
  lemma IncidentEdgesArePairs(g: Graph, w: Word)
    requires Valid(g)
    ensures IncidentEdges(g, w) == set v | v in Neighbors(g, w) :: {w, v}
    ensures w !in Neighbors(g, w)
  {
    NoSelfLoop(g, w);
    var img := set v | v in Neighbors(g, w) :: {w, v};
    forall e | e in IncidentEdges(g, w) ensures e in img {
      var v := OtherEnd(e, w);
      assert v in e;
      assert v in Neighbors(g, w);
    }
  }

  /** In a valid graph the degree is the number of edges that touch the vertex. */
  lemma DegreeCountsIncidentEdges(g: Graph, w: Word)
    ensures Valid(g) ==> Degree(g, w) == |IncidentEdges(g, w)|
  {
    if Valid(g) {
      IncidentEdgesArePairs(g, w);
      PairImageCard(w, Neighbors(g, w));
    }
  }

  /** `get_node_degree(word)`: 0 for a word that is not a vertex, otherwise
      the number of edges touching it. */
  function NodeDegree(g: Graph, w: Word): (d: nat)
    ensures w !in g.nodes ==> d == 0
    ensures Valid(g) ==> d == |IncidentEdges(g, w)|
  {
    DegreeCountsIncidentEdges(g, w);
    if w in g.nodes then Degree(g, w) else 0
  }

  /** `high_connectivity_nodes(threshold)`: the vertices, in node order, whose
      degree reaches the threshold. */
  function HighConnectivityNodes(g: Graph, threshold: int): (r: seq<Word>)
    ensures forall w :: w in r <==> w in g.nodes && NodeDegree(g, w) >= threshold
    ensures Valid(g) ==> Distinct(r)
  {
    Filter(g.nodes, w => Degree(g, w) >= threshold)
  }

  /** `get_isolated_nodes()`: the vertices, in node order, that no edge touches. */
  function IsolatedNodes(g: Graph): (r: seq<Word>)
    ensures Valid(g) ==> Distinct(r)
    ensures Valid(g) ==> forall w :: w in r <==> w in g.nodes && forall e :: e in g.edges ==> w !in e
  {
    UntouchedIffDegreeZero(g);
    Filter(g.nodes, w => Degree(g, w) == 0)
  }

  /** In a valid graph a vertex has degree 0 exactly when no edge touches it. */
  lemma UntouchedIffDegreeZero(g: Graph)
    ensures Valid(g) ==> forall w :: Degree(g, w) == 0 <==> forall e :: e in g.edges ==> w !in e
  {
    if Valid(g) {
      forall w ensures Degree(g, w) == 0 <==> forall e :: e in g.edges ==> w !in e {
        DegreeCountsIncidentEdges(g, w);
        if Degree(g, w) == 0 {
          assert IncidentEdges(g, w) == {};
          forall e | e in g.edges ensures w !in e {
            assert w in e ==> e in IncidentEdges(g, w);
          }
        }
        if forall e :: e in g.edges ==> w !in e {
          assert IncidentEdges(g, w) == {};
        }
      }
    }
  }

  /** A threshold of zero or less keeps every vertex. */
  lemma LowThresholdKeepsAll(g: Graph, threshold: int)
    requires threshold <= 0
    ensures HighConnectivityNodes(g, threshold) == g.nodes
  {
  }

  /** Raising the threshold can only drop vertices. */
  lemma ThresholdMonotone(g: Graph, low: int, high: int)
    requires low <= high
    ensures forall w :: w in HighConnectivityNodes(g, high) ==> w in HighConnectivityNodes(g, low)
  {
  }

  /** The isolated vertices are the vertices left out at threshold one, and a
      vertex is isolated exactly when its reported degree is 0. */
  lemma IsolatedAreBelowOne(g: Graph, w: Word)
    requires Valid(g)
    ensures w in IsolatedNodes(g) <==> w in g.nodes && w !in HighConnectivityNodes(g, 1)
    ensures w in IsolatedNodes(g) <==> w in g.nodes && NodeDegree(g, w) == 0
  {
    DegreeCountsIncidentEdges(g, w);
    if w in g.nodes && NodeDegree(g, w) == 0 {
      assert IncidentEdges(g, w) == {};
    }
  }
}

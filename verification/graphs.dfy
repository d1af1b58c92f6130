/** The graph value and its two mutations (`Graph.add_node`, `Graph.add_edge`). */
module Graphs {
  import opened Seqs
  import opened Words

  /** An undirected simple graph: the vertices in insertion order (the order
      networkx reports them in) and each edge as the set of its two ends. */
  datatype Graph = Graph(nodes: seq<Word>, edges: set<set<Word>>)

  const EmptyGraph: Graph := Graph([], {})

  /** The shape every graph built here keeps: each vertex once, and each edge
      a pair of two distinct vertices. Vertices are never repeated because
      `AddNode` skips a present word; an edge never joins a word to itself
      because only words one letter apart are joined, and that relation is
      irreflexive (`OneLetterApartIrreflexive`, `AddEdgePreservesWordLadder`). */
  ghost predicate Valid(g: Graph)
  {
    && Distinct(g.nodes)
    && forall e :: e in g.edges ==> |e| == 2 && forall w :: w in e ==> w in g.nodes
  }

  /** `graph.has_edge(w1, w2)`. */
  predicate Adjacent(g: Graph, u: Word, v: Word)
  {
    {u, v} in g.edges
  }

  /** Every edge of a word-ladder graph joins two words one letter apart. */
  ghost predicate WordLadder(g: Graph)
  {
    Valid(g) && forall u, v :: Adjacent(g, u, v) ==> OneLetterApart(u, v)
  }

  lemma AdjacentSymmetric(g: Graph, u: Word, v: Word)
    ensures Adjacent(g, u, v) <==> Adjacent(g, v, u)
  {
    assert {u, v} == {v, u};
  }

  /** A valid graph has no self-loops. */
  lemma NoSelfLoop(g: Graph, w: Word)
    requires Valid(g)
    ensures !Adjacent(g, w, w)
  {
    assert |{w, w}| == 1 by { assert {w, w} == {w}; }
  }

  /** `add_node(word)`: inserting a present word changes nothing; otherwise
      the word is appended and no edge changes. */
  function AddNode(g: Graph, w: Word): (r: Graph)
    ensures r.edges == g.edges
    ensures forall x :: x in r.nodes <==> x in g.nodes || x == w
    ensures w in g.nodes ==> r == g
    ensures w !in g.nodes ==> r.nodes == g.nodes + [w]
  {
    if w in g.nodes then g else Graph(g.nodes + [w], g.edges)
  }

  lemma AddNodePreservesValid(g: Graph, w: Word)
    requires Valid(g)
    ensures Valid(AddNode(g, w))
  {
  }

  /** The outcome of `add_edge`: the updated graph and the returned flag. */
  datatype Insertion = Insertion(graph: Graph, added: bool)

  /** `add_edge(w1, w2)`: both words become vertices; the edge is inserted, and
      True returned, exactly when the words are one letter apart and not yet
      joined. Nothing else changes. */
  function AddEdge(g: Graph, w1: Word, w2: Word): (r: Insertion)
    ensures forall x :: x in r.graph.nodes <==> x in g.nodes || x == w1 || x == w2
    ensures r.added <==> OneLetterApart(w1, w2) && !Adjacent(g, w1, w2)
    ensures r.added ==> r.graph.edges == g.edges + {{w1, w2}}
    ensures !r.added ==> r.graph.edges == g.edges
  {
    var g1 := AddNode(AddNode(g, w1), w2);
    if OneLetterApart(w1, w2) && !Adjacent(g1, w1, w2) then
      Insertion(Graph(g1.nodes, g1.edges + {{w1, w2}}), true)
    else
      Insertion(g1, false)
  }

  /** Inserting an edge keeps the graph simple and every edge a ladder step. */
  lemma AddEdgePreservesWordLadder(g: Graph, w1: Word, w2: Word)
    requires WordLadder(g)
    ensures WordLadder(AddEdge(g, w1, w2).graph)
  {
    var r := AddEdge(g, w1, w2);
    AddNodePreservesValid(g, w1);
    AddNodePreservesValid(AddNode(g, w1), w2);
    if r.added {
      OneLetterApartIrreflexive(w1);
      assert |{w1, w2}| == 2;
      forall u, v | Adjacent(r.graph, u, v) ensures OneLetterApart(u, v) {
        if {u, v} == {w1, w2} {
          if u == w1 {
            assert v == w2 by { assert v in {w1, w2}; }
          } else {
            assert u == w2 && v == w1 by { assert u in {w1, w2}; assert v in {w1, w2}; }
            OneLetterApartSymmetric(w1, w2);
          }
        } else {
          assert Adjacent(g, u, v);
        }
      }
    }
  }

  /** Repeating an `add_edge` call is a no-op that returns False. */
  lemma AddEdgeIdempotent(g: Graph, w1: Word, w2: Word)
    ensures var r := AddEdge(g, w1, w2);
            AddEdge(r.graph, w1, w2) == Insertion(r.graph, false)
  {
  }
}

/** Building the word-ladder graph from a vocabulary by repeated `add_node`
    and `add_edge` calls over every pair of words. */
module Build {
  import opened Seqs
  import opened Words
  import opened Graphs

  /** `add_node` for each word, in order. */
  function AddNodes(g: Graph, ws: seq<Word>): Graph
    decreases |ws|
  {
    if ws == [] then g else AddNodes(AddNode(g, ws[0]), ws[1..])
  }

  /** `add_edge(w, x)` for each `x` of `rest`, in order. */
  function ConnectTo(g: Graph, w: Word, rest: seq<Word>): Graph
    decreases |rest|
  {
    if rest == [] then g else ConnectTo(AddEdge(g, w, rest[0]).graph, w, rest[1..])
  }

  /** `add_edge(ws[i], ws[j])` for every `i < j`. */
  function ConnectAll(g: Graph, ws: seq<Word>): Graph
    decreases |ws|
  {
    if ws == [] then g else ConnectAll(ConnectTo(g, ws[0], ws[1..]), ws[1..])
  }

  function BuildGraph(ws: seq<Word>): Graph
  {
    ConnectAll(AddNodes(EmptyGraph, ws), ws)
  }

  /** Reference edge set: every pair of vocabulary words one letter apart. */
  ghost function LadderPairs(ws: seq<Word>): set<set<Word>>
  {
    set u, v | u in ws && v in ws && OneLetterApart(u, v) :: {u, v}
  }

  /** The ladder pairs of `w` with the words of `rest`. */
  ghost function Star(w: Word, rest: seq<Word>): set<set<Word>>
  {
    set x | x in rest && OneLetterApart(w, x) :: {w, x}
  }

  lemma {:induction false} AddNodesSpec(g: Graph, ws: seq<Word>)
    requires Valid(g)
    ensures var r := AddNodes(g, ws);
      Valid(r) && r.edges == g.edges && Elems(r.nodes) == Elems(g.nodes) + Elems(ws)
    decreases |ws|
  {
    if ws != [] {
      AddNodePreservesValid(g, ws[0]);
      AddNodesSpec(AddNode(g, ws[0]), ws[1..]);
      assert Elems(ws) == {ws[0]} + Elems(ws[1..]);
    }
  }

  lemma {:induction false} ConnectToSpec(g: Graph, w: Word, rest: seq<Word>)
    requires WordLadder(g)
    requires w in g.nodes && forall x :: x in rest ==> x in g.nodes
    ensures var r := ConnectTo(g, w, rest);
      WordLadder(r) && r.nodes == g.nodes && r.edges == g.edges + Star(w, rest)
    decreases |rest|
  {
    if rest != [] {
      var step := AddEdge(g, w, rest[0]);
      AddEdgePreservesWordLadder(g, w, rest[0]);
      ConnectToSpec(step.graph, w, rest[1..]);
      assert Star(w, rest) == (if OneLetterApart(w, rest[0]) then {{w, rest[0]}} else {}) + Star(w, rest[1..]);
    }
  }

  /** The ladder pairs of a vocabulary split into those of its first word and those of the rest. */
  lemma LadderPairsSplit(ws: seq<Word>)
    requires ws != []
    ensures LadderPairs(ws) == Star(ws[0], ws[1..]) + LadderPairs(ws[1..])
  {
    var w, rest := ws[0], ws[1..];
    forall e | e in LadderPairs(ws) ensures e in Star(w, rest) + LadderPairs(rest) {
      var u, v :| u in ws && v in ws && OneLetterApart(u, v) && e == {u, v};
      OneLetterApartIrreflexive(u);
      if u == w {
        assert v in rest;
      } else if v == w {
        assert u in rest;
        OneLetterApartSymmetric(u, v);
        assert e == {w, u};
      } else {
        assert u in rest && v in rest;
      }
    }
    forall e | e in Star(w, rest) ensures e in LadderPairs(ws) {
      var x :| x in rest && OneLetterApart(w, x) && e == {w, x};
      assert w in ws && x in ws;
    }
    forall e | e in LadderPairs(rest) ensures e in LadderPairs(ws) {
      var u, v :| u in rest && v in rest && OneLetterApart(u, v) && e == {u, v};
      assert u in ws && v in ws;
    }
  }

  lemma {:induction false} ConnectAllSpec(g: Graph, ws: seq<Word>)
    requires WordLadder(g)
    requires forall x :: x in ws ==> x in g.nodes
    ensures var r := ConnectAll(g, ws);
      WordLadder(r) && r.nodes == g.nodes && r.edges == g.edges + LadderPairs(ws)
    decreases |ws|
  {
    if ws != [] {
      ConnectToSpec(g, ws[0], ws[1..]);
      ConnectAllSpec(ConnectTo(g, ws[0], ws[1..]), ws[1..]);
      LadderPairsSplit(ws);
    }
  }

  /** The built graph is a word-ladder graph whose vertices are the vocabulary
      and whose edges are exactly the pairs of words one letter apart. */
  lemma BuildSpec(ws: seq<Word>)
    ensures var g := BuildGraph(ws);
      WordLadder(g) && Elems(g.nodes) == Elems(ws) && g.edges == LadderPairs(ws)
  {
    AddNodesSpec(EmptyGraph, ws);
    var g0 := AddNodes(EmptyGraph, ws);
    assert Elems(EmptyGraph.nodes) == {};
    assert forall x :: x in ws ==> x in g0.nodes by {
      forall x | x in ws ensures x in g0.nodes {
        assert x in Elems(g0.nodes);
      }
    }
    ConnectAllSpec(g0, ws);
  }

  /** The vertex set and edge set do not depend on the order or repetition of the vocabulary. */
  lemma BuildIgnoresOrder(ws1: seq<Word>, ws2: seq<Word>)
    requires Elems(ws1) == Elems(ws2)
    ensures Elems(BuildGraph(ws1).nodes) == Elems(BuildGraph(ws2).nodes)
    ensures BuildGraph(ws1).edges == BuildGraph(ws2).edges
  {
    BuildSpec(ws1);
    BuildSpec(ws2);
    assert forall x :: x in ws1 <==> x in ws2 by {
      forall x ensures x in ws1 <==> x in ws2 {
        assert x in ws1 <==> x in Elems(ws1);
        assert x in ws2 <==> x in Elems(ws2);
      }
    }
  }
}

/** A worked vocabulary: the ladder cat - cot - cog - dog. */
module BuildExample {
  import opened Words
  import opened Graphs
  import opened Build

  const Vocabulary: seq<Word> := ["cat", "cot", "cog", "dog"]

  /** The three pairs of the vocabulary that are one letter apart. */
  lemma ApartPairs()
    ensures OneLetterApart("cat", "cot") && OneLetterApart("cot", "cog") && OneLetterApart("cog", "dog")
  {
    assert Mismatches("cat", "cot") == 1;
    assert Mismatches("cot", "cog") == 1;
    assert Mismatches("cog", "dog") == 1;
  }

  /** The other three pairs of different words differ in more than one letter. */
  lemma DistantPairs()
    ensures !OneLetterApart("cat", "cog") && !OneLetterApart("cat", "dog") && !OneLetterApart("cot", "dog")
  {
    assert Mismatches("cat", "cog") == 2;
    assert Mismatches("cat", "dog") == 3;
    assert Mismatches("cot", "dog") == 2;
  }

  /** A ladder pair of the vocabulary is one of the three expected edges. */
  lemma OnlyExpectedPairs(u: Word, v: Word)
    requires u in Vocabulary && v in Vocabulary && OneLetterApart(u, v)
    ensures {u, v} in {{"cat", "cot"}, {"cot", "cog"}, {"cog", "dog"}}
  {
    assert u == "cat" || u == "cot" || u == "cog" || u == "dog";
    assert v == "cat" || v == "cot" || v == "cog" || v == "dog";
    OneLetterApartIrreflexive(u);
    OneLetterApartSymmetric(u, v);
    DistantPairs();
    if (u == "cat" && v == "cot") || (u == "cot" && v == "cat") {
      assert {u, v} == {"cat", "cot"};
    } else if (u == "cot" && v == "cog") || (u == "cog" && v == "cot") {
      assert {u, v} == {"cot", "cog"};
    } else {
      assert (u == "cog" && v == "dog") || (u == "dog" && v == "cog");
      assert {u, v} == {"cog", "dog"};
    }
  }

  /** The ladder pairs of the vocabulary are exactly the three expected edges. */
  lemma VocabularyPairs()
    ensures LadderPairs(Vocabulary) == {{"cat", "cot"}, {"cot", "cog"}, {"cog", "dog"}}
  {
    ApartPairs();
    forall e | e in LadderPairs(Vocabulary) ensures e in {{"cat", "cot"}, {"cot", "cog"}, {"cog", "dog"}} {
      var u, v :| u in Vocabulary && v in Vocabulary && OneLetterApart(u, v) && e == {u, v};
      OnlyExpectedPairs(u, v);
    }
    assert {"cat", "cot"} in LadderPairs(Vocabulary);
    assert {"cot", "cog"} in LadderPairs(Vocabulary);
    assert {"cog", "dog"} in LadderPairs(Vocabulary);
  }

  /** Building the graph of the vocabulary joins exactly cat-cot, cot-cog and cog-dog. */
  lemma LadderOfFourWords()
    ensures BuildGraph(Vocabulary).edges == {{"cat", "cot"}, {"cot", "cog"}, {"cog", "dog"}}
  {
    BuildSpec(Vocabulary);
    VocabularyPairs();
  }
}

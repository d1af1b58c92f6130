/** `Graph.shortest_path` and `Graph.clusters`: breadth-first search over the
    word graph, standing in for networkx's `shortest_path` and
    `connected_components`. */
module Search {
  import opened Wrappers
  import opened Seqs
  import opened Words
  import opened Graphs
  import opened Paths

  datatype PathError = NodeNotFound | NoPathFound

  /** One shortest walk from `w1` to `w2`, found layer by layer. */
  method ShortestPath(g: Graph, w1: Word, w2: Word) returns (r: Result<seq<Word>, PathError>)
    ensures r == Failure(NodeNotFound) <==> w1 !in g.nodes || w2 !in g.nodes
    ensures r == Failure(NoPathFound) <==> w1 in g.nodes && w2 in g.nodes && !Connected(g, w1, w2)
    ensures r.Success? ==> PathFromTo(g, r.value, w1, w2) && Distinct(r.value)
    ensures r.Success? ==> forall q :: PathFromTo(g, q, w1, w2) ==> |r.value| <= |q|
  {
    if w1 !in g.nodes || w2 !in g.nodes {
      return Failure(NodeNotFound);
    }
    var seen := {w1};
    var k := 0;
    while w2 !in seen
      invariant seen == Layers(g, {w1}, k)
      invariant seen <= NodeSet(g)
      invariant k > 0 ==> w2 !in Layers(g, {w1}, k - 1)
      decreases |NodeSet(g) - seen|
    {
      var next := Expand(g, seen);
      if next == seen {
        NoWalkLeavesClosedSet(g, seen, w1, w2);
        return Failure(NoPathFound);
      }
      ProperSubsetCard(NodeSet(g) - next, NodeSet(g) - seen);
      seen := next;
      k := k + 1;
    }
    var p := Trace(g, w1, w2, k);
    FirstLayerIsDistance(g, w1, w2, k);
    ghost var simple := ShortcutToSimple(g, p);
    return Success(p);
  }

  /** Nothing outside a set closed under `Expand` is reachable from inside it. */
  lemma NoWalkLeavesClosedSet(g: Graph, S: set<Word>, u: Word, v: Word)
    requires Expand(g, S) == S
    requires u in S && v !in S
    ensures !Connected(g, u, v)
  {
    forall p | PathFromTo(g, p, u, v) ensures false {
      ClosedHoldsPaths(g, S, p);
    }
  }

  /** A vertex first met in layer `k` has no walk from the start shorter than `k` edges. */
  lemma FirstLayerIsDistance(g: Graph, s: Word, t: Word, k: nat)
    requires k > 0 ==> t !in Layers(g, {s}, k - 1)
    ensures forall q :: PathFromTo(g, q, s, t) ==> k + 1 <= |q|
  {
    forall q | PathFromTo(g, q, s, t) ensures k + 1 <= |q| {
      LayersHoldPathEnd(g, {s}, q);
      assert t in Layers(g, {s}, |q| - 1);
      if |q| - 1 < k {
        LayersMonotone(g, {s}, |q| - 1, k - 1);
        assert false;
      }
    }
  }

  /** The vertices sharing a component with `s`: expand from `s` until nothing new appears. */
  method Component(g: Graph, s: Word) returns (c: set<Word>)
    requires s in g.nodes
    ensures forall x :: x in c <==> Connected(g, s, x)
  {
    c := {s};
    ghost var k := 0;
    while Expand(g, c) != c
      invariant c == Layers(g, {s}, k)
      invariant c <= NodeSet(g)
      decreases |NodeSet(g) - c|
    {
      ProperSubsetCard(NodeSet(g) - Expand(g, c), NodeSet(g) - c);
      c := Expand(g, c);
      k := k + 1;
    }
    forall x ensures x in c <==> Connected(g, s, x) {
      if x in c {
        assert PathFromTo(g, Trace(g, s, x, k), s, x);
      }
      if Connected(g, s, x) {
        var p :| PathFromTo(g, p, s, x);
        ClosedHoldsPaths(g, c, p);
      }
    }
  }

  /** `c` is the whole component of `root`. */
  ghost predicate ComponentOf(g: Graph, c: set<Word>, root: Word)
  {
    forall x :: x in c <==> Connected(g, root, x)
  }

  /** A component is the component of each of its members. */
  lemma ComponentOfMember(g: Graph, c: set<Word>, root: Word, u: Word)
    requires ComponentOf(g, c, root) && u in c
    ensures ComponentOf(g, c, u)
  {
    forall x ensures x in c <==> Connected(g, u, x) {
      ConnectedSymmetric(g, root, u);
      if x in c {
        ConnectedTransitive(g, u, root, x);
      }
      if Connected(g, u, x) {
        ConnectedSymmetric(g, u, root);
        ConnectedTransitive(g, root, u, x);
      }
    }
  }

  /** A component of a vertex outside `d` shares nothing with the component `d`. */
  lemma ComponentsDisjoint(g: Graph, d: set<Word>, root: Word, c: set<Word>, v: Word)
    requires ComponentOf(g, d, root) && ComponentOf(g, c, v)
    requires v !in d
    ensures d !! c
  {
    if x :| x in d && x in c {
      ComponentOfMember(g, d, root, x);
      ConnectedSymmetric(g, v, x);
    }
  }

  /** `cs` lists disjoint components, `roots[i]` is a member of `cs[i]` whose
      component it is, and `seen` is everything listed. */
  ghost predicate Partition(g: Graph, cs: seq<set<Word>>, roots: seq<Word>, seen: set<Word>)
  {
    && |roots| == |cs|
    && (forall i :: 0 <= i < |cs| ==> ComponentOf(g, cs[i], roots[i]) && roots[i] in cs[i])
    && (forall i, j :: 0 <= i < j < |cs| ==> cs[i] !! cs[j])
    && (forall x :: x in seen <==> exists i :: 0 <= i < |cs| && x in cs[i])
  }

  /** Appending the component of a vertex not yet seen keeps the listed
      components a partition of what has been seen, within the vertex set. */
  lemma AddComponent(g: Graph, cs: seq<set<Word>>, roots: seq<Word>, seen: set<Word>, c: set<Word>, v: Word)
    requires Partition(g, cs, roots, seen) && seen <= NodeSet(g)
    requires ComponentOf(g, c, v) && v in g.nodes && v !in seen
    ensures Partition(g, cs + [c], roots + [v], seen + c)
    ensures seen + c <= NodeSet(g) && v in c
  {
    ConnectedReflexive(g, v);
    forall i | 0 <= i < |cs| ensures cs[i] !! c {
      ComponentsDisjoint(g, cs[i], roots[i], c, v);
    }
    forall x | x in c ensures x in NodeSet(g) {
      var p :| PathFromTo(g, p, v, x);
    }
    var cs', seen' := cs + [c], seen + c;
    forall x | x in seen' ensures exists i :: 0 <= i < |cs'| && x in cs'[i] {
      if x in c {
        assert x in cs'[|cs'| - 1];
      } else {
        var i :| 0 <= i < |cs| && x in cs[i];
        assert x in cs'[i];
      }
    }
  }

  /** `clusters()`: the connected components, one per first-met vertex in
      node order. They are non-empty, pairwise disjoint, cover the vertex set,
      and two vertices share one exactly when a walk joins them. */
  method Clusters(g: Graph) returns (cs: seq<set<Word>>)
    ensures forall i :: 0 <= i < |cs| ==> cs[i] != {}
    ensures forall i, j :: 0 <= i < j < |cs| ==> cs[i] !! cs[j]
    ensures forall x :: x in g.nodes <==> exists i :: 0 <= i < |cs| && x in cs[i]
    ensures forall i, u, v :: 0 <= i < |cs| && u in cs[i] ==> (v in cs[i] <==> Connected(g, u, v))
  {
    cs := [];
    var seen: set<Word> := {};
    ghost var roots: seq<Word> := [];
    for n := 0 to |g.nodes|
      invariant Partition(g, cs, roots, seen)
      invariant Elems(g.nodes[..n]) <= seen
      invariant seen <= NodeSet(g)
    {
      var v := g.nodes[n];
      if v !in seen {
        var c := Component(g, v);
        AddComponent(g, cs, roots, seen, c, v);
        cs := cs + [c];
        roots := roots + [v];
        seen := seen + c;
      }
      assert g.nodes[..n + 1] == g.nodes[..n] + [v];
    }
    assert g.nodes[..|g.nodes|] == g.nodes;
    PartitionIsClustering(g, cs, roots, seen);
  }

  /** A partition of the whole vertex set into components is what `clusters()`
      promises: non-empty disjoint parts covering the vertices, two vertices
      sharing a part exactly when a walk joins them. */
  lemma PartitionIsClustering(g: Graph, cs: seq<set<Word>>, roots: seq<Word>, seen: set<Word>)
    requires Partition(g, cs, roots, seen)
    requires seen == NodeSet(g)
    ensures forall i :: 0 <= i < |cs| ==> cs[i] != {}
    ensures forall i, j :: 0 <= i < j < |cs| ==> cs[i] !! cs[j]
    ensures forall x :: x in g.nodes <==> exists i :: 0 <= i < |cs| && x in cs[i]
    ensures forall i, u, v :: 0 <= i < |cs| && u in cs[i] ==> (v in cs[i] <==> Connected(g, u, v))
  {
    assert forall x :: x in g.nodes <==> x in seen;
    forall i, u, v | 0 <= i < |cs| && u in cs[i] ensures v in cs[i] <==> Connected(g, u, v) {
      ComponentOfMember(g, cs[i], roots[i], u);
    }
  }
}

/** `Graph.all_paths` and `Graph.max_distance_path`: enumeration of simple
    paths, standing in for networkx's `all_simple_paths`. */
module SimplePaths {
  import opened Wrappers
  import opened Seqs
  import opened Words
  import opened Graphs
  import opened Paths

  /** `q` continues the simple walk `path` to `target` with at most `budget`
      more edges, never revisiting a word. */
  ghost predicate SimpleExtension(g: Graph, q: seq<Word>, path: seq<Word>, target: Word, budget: nat)
  {
    && IsPath(g, q)
    && Distinct(q)
    && |path| < |q| <= |path| + budget
    && q[..|path|] == path
    && Last(q) == target
  }

  /** Depth-first enumeration of the simple continuations of `path` that
      reach `target` within `budget` more edges, trying the next word in
      the order of `cands`. */
  function Extensions(g: Graph, path: seq<Word>, target: Word, budget: nat, cands: seq<Word>): (r: seq<seq<Word>>)
    requires IsPath(g, path) && Distinct(path) && target !in path
    requires forall i :: 0 <= i < |cands| ==> cands[i] in g.nodes
    ensures forall q :: q in r ==> SimpleExtension(g, q, path, target, budget) && q[|path|] in cands
    decreases budget, |cands|
  {
    if budget == 0 || cands == [] then []
    else Through(g, path, target, budget, cands[0]) + Extensions(g, path, target, budget, cands[1..])
  }

  /** The continuations whose next word is `v`: none when `v` is not a fresh
      neighbour, the one-step path when `v` is the target (a branch stops
      there), and otherwise everything found beyond `v`. */
  function Through(g: Graph, path: seq<Word>, target: Word, budget: nat, v: Word): (r: seq<seq<Word>>)
    requires IsPath(g, path) && Distinct(path) && target !in path
    requires budget > 0 && v in g.nodes
    ensures forall q :: q in r ==> SimpleExtension(g, q, path, target, budget) && q[|path|] == v
    decreases budget, 0
  {
    if !Adjacent(g, Last(path), v) || v in path then []
    else if v == target then
      ExtendPath(g, path, v);
      [path + [v]]
    else
      ExtendPath(g, path, v);
      var deeper := Extensions(g, path + [v], target, budget - 1, g.nodes);
      deeper
  }

  /** Every simple continuation within the budget whose next word is among
      `cands` is enumerated. */
  lemma {:induction false} ExtensionsComplete(g: Graph, path: seq<Word>, target: Word, budget: nat, cands: seq<Word>, q: seq<Word>)
    requires IsPath(g, path) && Distinct(path) && target !in path
    requires forall i :: 0 <= i < |cands| ==> cands[i] in g.nodes
    requires SimpleExtension(g, q, path, target, budget)
    requires q[|path|] in cands
    ensures q in Extensions(g, path, target, budget, cands)
    decreases budget, |cands|
  {
    var v := cands[0];
    var n := |path|;
    if v == q[n] {
      assert q[n - 1] == path[n - 1];
      assert Adjacent(g, Last(path), v);
      assert v !in path by {
        forall i | 0 <= i < n ensures path[i] != v {
          assert path[i] == q[i];
        }
      }
      if v == target {
        assert q == path + [v];
        assert q in Through(g, path, target, budget, v);
      } else {
        assert |q| > n + 1;
        assert q[..n + 1] == path + [v];
        ExtendPath(g, path, v);
        ExtensionsComplete(g, path + [v], target, budget - 1, g.nodes, q);
        assert q in Through(g, path, target, budget, v);
      }
    } else {
      ExtensionsComplete(g, path, target, budget, cands[1..], q);
    }
  }

  /** No continuation is enumerated twice. */
  lemma {:induction false} ExtensionsDistinct(g: Graph, path: seq<Word>, target: Word, budget: nat, cands: seq<Word>)
    requires IsPath(g, path) && Distinct(path) && target !in path
    requires forall i :: 0 <= i < |cands| ==> cands[i] in g.nodes
    requires Distinct(g.nodes) && Distinct(cands)
    ensures Distinct(Extensions(g, path, target, budget, cands))
    decreases budget, |cands|
  {
    if budget > 0 && cands != [] {
      var v := cands[0];
      var here := Through(g, path, target, budget, v);
      var rest := Extensions(g, path, target, budget, cands[1..]);
      ExtensionsDistinct(g, path, target, budget, cands[1..]);
      if Adjacent(g, Last(path), v) && v !in path && v != target {
        ExtendPath(g, path, v);
        ExtensionsDistinct(g, path + [v], target, budget - 1, g.nodes);
      }
      assert forall i :: 0 < i < |cands| ==> cands[i] != v;
      DistinctConcat(here, rest);
    }
  }

  /** `all_paths(w1, w2, cutoff)`: no paths when either word is not a vertex;
      otherwise networkx's `all_simple_paths`, whose default cutoff is one less
      than the number of vertices, which yields nothing for a cutoff below 1
      and nothing when the two ends are the same word. */
  function AllPaths(g: Graph, w1: Word, w2: Word, cutoff: Option<int>): (r: seq<seq<Word>>)
    ensures w1 !in g.nodes || w2 !in g.nodes ==> r == []
    ensures forall q :: q in r ==> PathFromTo(g, q, w1, w2) && Distinct(q) && |q| >= 2
    ensures forall q :: q in r && cutoff.Some? ==> |q| - 1 <= cutoff.value
  {
    if w1 !in g.nodes || w2 !in g.nodes || w1 == w2 then []
    else
      var limit := if cutoff.Some? then cutoff.value else |g.nodes| - 1;
      if limit < 1 then []
      else
        assert IsPath(g, [w1]);
        Extensions(g, [w1], w2, limit, g.nodes)
  }

  /** Every simple path between two different vertices within the cutoff is listed. */
  lemma AllPathsComplete(g: Graph, w1: Word, w2: Word, cutoff: Option<int>, q: seq<Word>)
    requires PathFromTo(g, q, w1, w2) && Distinct(q) && w1 != w2
    requires cutoff.Some? ==> |q| - 1 <= cutoff.value
    ensures q in AllPaths(g, w1, w2, cutoff)
  {
    DistinctWithin(q, g.nodes);
    assert |q| >= 2;
    assert q[..1] == [w1];
    assert IsPath(g, [w1]);
    ExtensionsComplete(g, [w1], w2, if cutoff.Some? then cutoff.value else |g.nodes| - 1, g.nodes, q);
  }

  /** In a valid graph no path is listed twice. */
  lemma AllPathsDistinct(g: Graph, w1: Word, w2: Word, cutoff: Option<int>)
    requires Valid(g)
    ensures Distinct(AllPaths(g, w1, w2, cutoff))
  {
    if w1 in g.nodes && w2 in g.nodes && w1 != w2 {
      var limit := if cutoff.Some? then cutoff.value else |g.nodes| - 1;
      if limit >= 1 {
        assert IsPath(g, [w1]);
        ExtensionsDistinct(g, [w1], w2, limit, g.nodes);
      }
    }
  }

  /** The simple paths from `source` to each word of `targets`, in order. */
  function RowPaths(g: Graph, source: Word, targets: seq<Word>): (r: seq<seq<Word>>)
    ensures forall q :: q in r ==> IsPath(g, q) && Distinct(q) && |q| >= 2
  {
    if targets == [] then []
    else AllPaths(g, source, targets[0], None) + RowPaths(g, source, targets[1..])
  }

  /** The candidates `max_distance_path` inspects, in its order: for each
      word of `ns`, the simple paths to every later word of `ns`. */
  function PairPaths(g: Graph, ns: seq<Word>): (r: seq<seq<Word>>)
    ensures forall q :: q in r ==> IsPath(g, q) && Distinct(q) && |q| >= 2
  {
    if ns == [] then []
    else RowPaths(g, ns[0], ns[1..]) + PairPaths(g, ns[1..])
  }

  /** A simple path from `ns[a]` to a later `ns[b]` is a candidate. */
  lemma {:induction false} PairPathsComplete(g: Graph, ns: seq<Word>, a: nat, b: nat, q: seq<Word>)
    requires a < b < |ns|
    requires PathFromTo(g, q, ns[a], ns[b]) && Distinct(q) && |q| >= 2
    ensures q in PairPaths(g, ns)
  {
    if a == 0 {
      RowPathsComplete(g, ns[0], ns[1..], b - 1, q);
    } else {
      PairPathsComplete(g, ns[1..], a - 1, b - 1, q);
    }
  }

  /** A simple path from `source` to `targets[b]` is among the paths of the row. */
  lemma {:induction false} RowPathsComplete(g: Graph, source: Word, targets: seq<Word>, b: nat, q: seq<Word>)
    requires b < |targets|
    requires PathFromTo(g, q, source, targets[b]) && Distinct(q) && |q| >= 2
    ensures q in RowPaths(g, source, targets)
  {
    if b == 0 {
      assert q[0] != Last(q);
      AllPathsComplete(g, source, targets[0], None, q);
    } else {
      RowPathsComplete(g, source, targets[1..], b - 1, q);
    }
  }

  /** Every simple path of at least one edge is a candidate, read in one
      direction or the other. */
  lemma CandidateEitherWay(g: Graph, q: seq<Word>)
    requires IsPath(g, q) && Distinct(q) && |q| >= 2
    ensures q in PairPaths(g, g.nodes) || Reverse(q) in PairPaths(g, g.nodes)
  {
    assert q[0] in g.nodes && Last(q) in g.nodes;
    var a :| 0 <= a < |g.nodes| && g.nodes[a] == q[0];
    var b :| 0 <= b < |g.nodes| && g.nodes[b] == Last(q);
    assert q[0] != Last(q);
    if a < b {
      PairPathsComplete(g, g.nodes, a, b, q);
    } else {
      ReversePath(g, q);
      ReverseDistinct(q);
      PairPathsComplete(g, g.nodes, b, a, Reverse(q));
    }
  }

  /** The first sequence, in order, with the most elements, replacing the
      best so far only on a strictly longer one; empty when there is none. */
  method FirstLongest(candidates: seq<seq<Word>>) returns (longest: seq<Word>)
    requires forall q :: q in candidates ==> q != []
    ensures longest == [] <==> candidates == []
    ensures forall q :: q in candidates ==> |q| <= |longest|
    ensures longest != [] ==>
      exists k :: 0 <= k < |candidates| && candidates[k] == longest &&
        forall j :: 0 <= j < k ==> |candidates[j]| < |longest|
  {
    longest := [];
    var maxLength := 0;
    ghost var at := 0;
    for k := 0 to |candidates|
      invariant maxLength == |longest|
      invariant forall j :: 0 <= j < k ==> |candidates[j]| <= maxLength
      invariant longest == [] <==> k == 0
      invariant longest != [] ==> 0 <= at < k && candidates[at] == longest
      invariant longest != [] ==> forall j :: 0 <= j < at ==> |candidates[j]| < maxLength
    {
      var path := candidates[k];
      assert path in candidates;
      if |path| > maxLength {
        maxLength := |path|;
        longest := path;
        at := k;
      }
    }
  }

  /** There are candidates exactly when two different words are connected. */
  lemma CandidatesIffConnectedPair(g: Graph)
    ensures PairPaths(g, g.nodes) == [] <==> forall u, v :: u != v ==> !Connected(g, u, v)
  {
    if PairPaths(g, g.nodes) != [] {
      var q := PairPaths(g, g.nodes)[0];
      assert q in PairPaths(g, g.nodes);
      assert PathFromTo(g, q, q[0], Last(q));
      assert q[0] != Last(q);
      assert Connected(g, q[0], Last(q));
    } else {
      forall u, v | u != v ensures !Connected(g, u, v) {
        if Connected(g, u, v) {
          var p :| PathFromTo(g, p, u, v);
          var q := ShortcutToSimple(g, p);
          CandidateEitherWay(g, q);
        }
      }
    }
  }

  /** A length that bounds every candidate bounds every simple path. */
  lemma CandidatesBoundSimplePaths(g: Graph, n: nat)
    requires forall q :: q in PairPaths(g, g.nodes) ==> |q| <= n
    ensures forall q :: IsPath(g, q) && Distinct(q) && |q| >= 2 ==> |q| <= n
  {
    forall q | IsPath(g, q) && Distinct(q) && |q| >= 2 ensures |q| <= n {
      CandidateEitherWay(g, q);
    }
  }

  /** What the scan's result means for the graph: a result that is empty
      exactly when there are no candidates, bounds every candidate, and is
      itself a candidate is a longest simple path, and is empty exactly when
      no two different words are connected. */
  lemma LongestCandidateIsLongestPath(g: Graph, longest: seq<Word>)
    requires longest == [] <==> PairPaths(g, g.nodes) == []
    requires forall q :: q in PairPaths(g, g.nodes) ==> |q| <= |longest|
    requires longest != [] ==> longest in PairPaths(g, g.nodes)
    ensures longest == [] <==> forall u, v :: u != v ==> !Connected(g, u, v)
    ensures longest != [] ==> IsPath(g, longest) && Distinct(longest) && |longest| >= 2
    ensures forall q :: IsPath(g, q) && Distinct(q) && |q| >= 2 ==> |q| <= |longest|
  {
    CandidatesIffConnectedPair(g);
    CandidatesBoundSimplePaths(g, |longest|);
  }

  /** `max_distance_path()`: the first candidate, in pair order, with the most
      words; empty when no two different words are connected. Which of
      several equally long paths is returned is `FirstLongest`'s rule applied
      to `PairPaths(g, g.nodes)`. */
  method MaxDistancePath(g: Graph) returns (longest: seq<Word>)
    ensures longest == [] <==> forall u, v :: u != v ==> !Connected(g, u, v)
    ensures longest != [] ==> IsPath(g, longest) && Distinct(longest) && |longest| >= 2
    ensures forall q :: IsPath(g, q) && Distinct(q) && |q| >= 2 ==> |q| <= |longest|
  {
    longest := FirstLongest(PairPaths(g, g.nodes));
    LongestCandidateIsLongestPath(g, longest);
  }
}

/** Walks through a graph, connectivity, and breadth-first layers. */
module Paths {
  import opened Seqs
  import opened Words
  import opened Graphs

  /** A non-empty walk through vertices in which consecutive words are joined by an edge. */
  predicate IsPath(g: Graph, p: seq<Word>)
  {
    && |p| > 0
    && (forall i :: 0 <= i < |p| ==> p[i] in g.nodes)
    && (forall i :: 0 <= i < |p| - 1 ==> Adjacent(g, p[i], p[i + 1]))
  }

  predicate PathFromTo(g: Graph, p: seq<Word>, u: Word, v: Word)
  {
    IsPath(g, p) && p[0] == u && Last(p) == v
  }

  ghost predicate Connected(g: Graph, u: Word, v: Word)
  {
    exists p :: PathFromTo(g, p, u, v)
  }

  function NodeSet(g: Graph): set<Word>
  {
    Elems(g.nodes)
  }

  /** One breadth-first step: `S` together with every vertex adjacent to a member of `S`. */
  function Expand(g: Graph, S: set<Word>): (r: set<Word>)
    ensures S <= r <= S + NodeSet(g)
  {
    S + set v | v in g.nodes && exists u :: u in S && Adjacent(g, u, v)
  }

  /** The vertices reachable from `S` in at most `k` steps. */
  function Layers(g: Graph, S: set<Word>, k: nat): (r: set<Word>)
    ensures S <= r <= S + NodeSet(g)
  {
    if k == 0 then S else Expand(g, Layers(g, S, k - 1))
  }

  /** The first word of `cands` in `S` that is adjacent to `x`. */
  function Predecessor(g: Graph, S: set<Word>, x: Word, cands: seq<Word>): (u: Word)
    requires exists i :: 0 <= i < |cands| && cands[i] in S && Adjacent(g, cands[i], x)
    ensures u in S && Adjacent(g, u, x)
  {
    if cands[0] in S && Adjacent(g, cands[0], x) then cands[0]
    else Predecessor(g, S, x, cands[1..])
  }

  /** Follows the layers back from `x` to `s`, producing a walk of at most `k` edges. */
  function Trace(g: Graph, s: Word, x: Word, k: nat): (p: seq<Word>)
    requires s in g.nodes
    requires x in Layers(g, {s}, k)
    ensures PathFromTo(g, p, s, x)
    ensures |p| <= k + 1
    decreases k
  {
    if k == 0 then [s]
    else if x in Layers(g, {s}, k - 1) then Trace(g, s, x, k - 1)
    else
      var prev := Layers(g, {s}, k - 1);
      var u :| u in prev && Adjacent(g, u, x);
      assert u in g.nodes;
      var w := Predecessor(g, prev, x, g.nodes);
      var p := Trace(g, s, w, k - 1);
      ExtendPath(g, p, x);
      p + [x]
  }

  /** A walk followed by one more edge is a walk. */
  lemma ExtendPath(g: Graph, p: seq<Word>, x: Word)
    requires IsPath(g, p)
    requires x in g.nodes && Adjacent(g, Last(p), x)
    ensures IsPath(g, p + [x]) && (p + [x])[0] == p[0] && Last(p + [x]) == x
  {
  }

  /** A walk read backwards is a walk between the same ends, swapped. */
  lemma ReversePath(g: Graph, p: seq<Word>)
    requires IsPath(g, p)
    ensures PathFromTo(g, Reverse(p), Last(p), p[0])
  {
    var q := Reverse(p);
    forall i | 0 <= i < |q| - 1 ensures Adjacent(g, q[i], q[i + 1]) {
      AdjacentSymmetric(g, p[|p| - 2 - i], p[|p| - 1 - i]);
    }
  }

  /** Connectivity is symmetric: walk back the reversed path. */
  lemma ConnectedSymmetric(g: Graph, u: Word, v: Word)
    requires Connected(g, u, v)
    ensures Connected(g, v, u)
  {
    var p :| PathFromTo(g, p, u, v);
    ReversePath(g, p);
  }

  /** Connectivity is transitive: glue the two walks at the shared vertex. */
  lemma ConnectedTransitive(g: Graph, u: Word, v: Word, w: Word)
    requires Connected(g, u, v) && Connected(g, v, w)
    ensures Connected(g, u, w)
  {
    var p :| PathFromTo(g, p, u, v);
    var q :| PathFromTo(g, q, v, w);
    var r := p + q[1..];
    forall i | 0 <= i < |r| - 1 ensures Adjacent(g, r[i], r[i + 1]) {
      if i < |p| - 1 {
        assert r[i] == p[i] && r[i + 1] == p[i + 1];
      } else {
        assert r[i] == q[i - |p| + 1] && r[i + 1] == q[i - |p| + 2];
      }
    }
    assert PathFromTo(g, r, u, w);
  }

  /** Every vertex is connected to itself by the one-word walk. */
  lemma ConnectedReflexive(g: Graph, u: Word)
    requires u in g.nodes
    ensures Connected(g, u, u)
  {
    assert PathFromTo(g, [u], u, u);
  }

  /** A set closed under `Expand` contains every walk that starts in it. */
  lemma {:induction false} ClosedHoldsPaths(g: Graph, S: set<Word>, p: seq<Word>)
    requires Expand(g, S) == S
    requires IsPath(g, p) && p[0] in S
    ensures Last(p) in S
  {
    if |p| > 1 {
      var p' := p[..|p| - 1];
      assert IsPath(g, p');
      ClosedHoldsPaths(g, S, p');
      assert Adjacent(g, Last(p'), Last(p));
      assert Last(p) in Expand(g, S);
    }
  }

  /** A walk of `|p| - 1` edges from a vertex of `S` ends inside that many layers. */
  lemma {:induction false} LayersHoldPathEnd(g: Graph, S: set<Word>, p: seq<Word>)
    requires IsPath(g, p) && p[0] in S
    ensures Last(p) in Layers(g, S, |p| - 1)
  {
    if |p| > 1 {
      var p' := p[..|p| - 1];
      assert IsPath(g, p');
      LayersHoldPathEnd(g, S, p');
      assert Adjacent(g, Last(p'), Last(p));
    }
  }

  /** Layers only grow. */
  lemma {:induction false} LayersMonotone(g: Graph, S: set<Word>, j: nat, k: nat)
    requires j <= k
    ensures Layers(g, S, j) <= Layers(g, S, k)
  {
    if j < k {
      LayersMonotone(g, S, j, k - 1);
    }
  }

  /** Any walk can be shortened to a repetition-free walk between the same ends. */
  lemma ShortcutToSimple(g: Graph, p: seq<Word>) returns (q: seq<Word>)
    requires IsPath(g, p)
    ensures PathFromTo(g, q, p[0], Last(p))
    ensures Distinct(q) && |q| <= |p|
    ensures !Distinct(p) ==> |q| < |p|
    decreases |p|
  {
    if Distinct(p) {
      q := p;
    } else {
      var i, j :| 0 <= i < j < |p| && p[i] == p[j];
      var r := p[..i] + p[j..];
      assert |r| == |p| - (j - i);
      forall t | 0 <= t < |r| ensures r[t] in g.nodes {
        if t < i { assert r[t] == p[t]; } else { assert r[t] == p[t + j - i]; }
      }
      forall t | 0 <= t < |r| - 1 ensures Adjacent(g, r[t], r[t + 1]) {
        if t + 1 < i {
          assert r[t] == p[t] && r[t + 1] == p[t + 1];
        } else if t + 1 == i {
          assert r[t] == p[t] && r[t + 1] == p[j] == p[t + 1];
        } else {
          assert r[t] == p[t + j - i] && r[t + 1] == p[t + 1 + j - i];
        }
      }
      assert r[0] == p[0];
      assert Last(r) == Last(p);
      q := ShortcutToSimple(g, r);
    }
  }
}

# Word-ladder graph engine — Dafny model

This project models the graph engine of a word-ladder service. Each word of
a vocabulary is a vertex. Two words are joined when they have the same length
and differ at exactly one position. The engine answers structural queries
over that undirected simple graph: shortest path, all simple paths under a
cutoff, connected components ("clusters"), vertices above a degree threshold,
isolated vertices, the degree of one word, and the longest simple path.

The original is a Python class wrapping a networkx graph whose vertices are
`Node` objects with value identity. The model is functional:

- `Graph(nodes, edges)` is an immutable value. `nodes` is the vertex list in
  insertion order, which is the order networkx reports. `edges` is a set of
  two-element word sets, so an edge is unordered by construction.
- Vertices are words. `Nodes` proves that two `Node` wrappers are equal
  exactly when their words are equal, and that equal nodes hash equally.
  Keying by word is therefore the same graph.
- The networkx calls (`shortest_path`, `connected_components`,
  `all_simple_paths`, `isolates`, `degree`) are not imitated internally.
  Each is replaced by a definition of its own, proved to meet the
  graph-theoretic contract the engine relies on. Shortest paths and
  components use a breadth-first expansion, simple paths a depth-first
  enumeration, the degree the number of neighbours, and the isolated words a
  filter of the vertex list.
- `Valid(g)` says no vertex appears twice and each edge is a pair of two
  distinct vertices. A networkx graph would accept a self-loop. This engine
  never adds one, because it joins only words one letter apart, and no word
  is one letter apart from itself (`Words.OneLetterApartIrreflexive`).
  `WordLadder(g)` adds that every edge satisfies the adjacency rule.
  `Graphs.AddEdgePreservesWordLadder` proves that `add_edge` keeps it.

Modules, one per concern: `Words` (adjacency rule), `Nodes` (vertex
wrapper), `Graphs` (graph value, `add_node`, `add_edge`), `Build` (the
all-pairs build), `BuildExample` (a worked four-word vocabulary), `Paths`
(walks, connectivity, breadth-first layers), `Search` (shortest path,
clusters), `Degrees` (degree queries), `SimplePaths` (all simple paths,
longest path), plus `Seqs` and `Wrappers` helpers.

Edge cases the model follows from the code:

- `Node` checks only that its value is a string (app/graph/node.py:9-12).
  The empty word is therefore accepted, and `NewNode` accepts every string.
- `max_distance_path` returns an empty list exactly when no two different
  words are connected. In a valid graph this is the same as having no
  edges.
- Over the words cat, cot, cog and dog, cog and dog differ only in the
  first letter, so they are joined. `BuildExample.LadderOfFourWords` proves
  that the build gives exactly the edges cat–cot, cot–cog and cog–dog.

## Model

| member | source | states |
|---|---|---|
| Words.OneLetterApartIff | app/graph/graph.py:28-31 | two words are adjacent iff they have equal length and there is exactly one index at which their characters differ; unequal lengths are never adjacent |
| Words.OneLetterApartSymmetric | app/graph/graph.py:28-31 | the rule gives the same answer with the arguments swapped |
| Words.OneLetterApartIrreflexive | app/graph/graph.py:28-31 | no word is adjacent to itself, so no self-loop can ever be added |
| Nodes.NewNode | app/graph/node.py:8-12 | construction succeeds exactly for a string argument, any string including the empty one, and stores it unchanged as the word; any other value gives the "word must be a string" error |
| Nodes.EqualsIsValueIdentity | app/graph/node.py:18-22 | two nodes compare equal iff they wrap the same word, and the comparison is symmetric |
| Nodes.NeverEqualsNonNode | app/graph/node.py:23-24 | a node never compares equal to a value that is not a node |
| Nodes.HashAgreesWithEquals | app/graph/node.py:26-30 | equal nodes have equal hashes, whatever the string hash function is |
| Nodes.NodesCollapseByWord | app/graph/node.py:8-30 | nodes made from two strings are the same vertex iff the strings are equal |
| Graphs.AddNode | app/graph/graph.py:11-13 | the word becomes a vertex, no other vertex appears, edges are unchanged, and adding a present word changes nothing |
| Graphs.AddEdge | app/graph/graph.py:15-26 | both words end up as vertices and no other vertex appears; the edge {w1, w2} is added and True returned exactly when the words are one letter apart and not yet joined; otherwise False is returned and the edge set is unchanged |
| Graphs.AddEdgePreservesWordLadder | app/graph/graph.py:15-26 | after `add_edge` the graph is still simple and every edge still joins two words one letter apart |
| Graphs.AddEdgeIdempotent | app/graph/graph.py:15-26 | repeating the same `add_edge` call returns False and leaves the graph as it was |
| Build.BuildSpec | app/graph/graph.py:11-26 | adding every word and then calling `add_edge` on every pair gives a word-ladder graph whose vertex set is the vocabulary and whose edges are exactly the pairs of vocabulary words one letter apart |
| Build.BuildIgnoresOrder | app/graph/graph.py:11-26 | two vocabularies with the same words, in any order and with any repetition, build the same vertex set and the same edge set |
| BuildExample.LadderOfFourWords | app/graph/graph.py:15-31 | building the vocabulary cat, cot, cog, dog joins exactly cat–cot, cot–cog and cog–dog, and no other pair |
| Search.ShortestPath | app/graph/graph.py:33-37 | NodeNotFound iff either word is not a vertex; NoPathFound iff both are vertices but no walk joins them; otherwise a repetition-free walk from w1 to w2, no longer than any walk between them (a single word when w1 == w2) |
| Search.Component | app/graph/graph.py:39-43 | the set found from a vertex holds exactly the words a walk from it reaches |
| Search.Clusters | app/graph/graph.py:39-43 | the components are non-empty and pairwise disjoint; a word is in one of them iff it is a vertex; for a member u of a component, v is in the same component iff a walk joins u and v |
| Search.AddComponent | app/graph/graph.py:39-43 | appending the component of a not-yet-seen vertex keeps the listed components disjoint, each the component of its root, covering exactly the words seen so far, all of them vertices |
| Degrees.NodeDegree | app/graph/graph.py:114-127 | 0 for a word that is not a vertex; in a valid graph, the number of edges that have the word as an end |
| Degrees.HighConnectivityNodes | app/graph/graph.py:45-49 | a word is listed iff it is a vertex whose degree is at least the threshold; in a valid graph none is listed twice |
| Degrees.LowThresholdKeepsAll | app/graph/graph.py:45-49 | a threshold of 0 or less lists every vertex, in node order |
| Degrees.ThresholdMonotone | app/graph/graph.py:45-49 | raising the threshold can only remove vertices from the list |
| Degrees.IsolatedNodes | app/graph/graph.py:105-112 | in a valid graph a word is listed iff it is a vertex that no edge touches, and none is listed twice |
| Degrees.IsolatedAreBelowOne | app/graph/graph.py:105-112 | the isolated vertices are the vertices of degree 0, which are the vertices missing from the threshold-1 list |
| SimplePaths.AllPaths | app/graph/graph.py:63-67 | empty when either word is not a vertex; every listed path runs from w1 to w2 along edges, repeats no word, has at least one edge, and has at most `cutoff` edges when a cutoff is given |
| SimplePaths.AllPathsComplete | app/graph/graph.py:63-67 | every repetition-free walk between two different words with at most `cutoff` edges is listed; without a cutoff every such walk is listed |
| SimplePaths.AllPathsDistinct | app/graph/graph.py:63-67 | in a valid graph no path is listed twice |
| SimplePaths.FirstLongest | app/graph/graph.py:84-92 | the scan keeps the first candidate of maximal length: it is at least as long as every candidate and strictly longer than every earlier one; it is empty iff there are no candidates |
| SimplePaths.MaxDistancePath | app/graph/graph.py:77-103 | empty iff no two different words are connected; otherwise a repetition-free walk of at least two words that has at least as many words as every repetition-free walk between different words |
| SimplePaths.LongestCandidateIsLongestPath | app/graph/graph.py:77-103 | a candidate that bounds all candidates found by the pair-by-pair search is a longest repetition-free walk between different words, and the search finds none only when no two different words are connected |

## Left out

- `get_graph_density` (app/graph/graph.py:129-136): its result is a floating-point ratio computed by networkx.
- `get_node_connectivity` (app/graph/graph.py:138-148): a minimum vertex cut computed inside networkx behind a catch-all that returns 0; its contract is not visible in the code.
- `__repr__` strings, logging calls and the `print` in the longest-path loop: formatting and side effects only.
- The `except` branches of `max_distance_path`: `all_simple_paths` raises nothing for two existing vertices, so the model has no error path there.
- The HTTP layer, the readiness flag, the pickle loading of a saved graph and the path configuration: transport and file I/O, not graph logic.
- Running time: `all_paths` and `max_distance_path` are exponential in the worst case; the model keeps the brute-force enumeration but says nothing about cost.
- Python's string hash is salted per process, so `Nodes.Hash` takes it as a parameter.
- SimplePaths.AllPaths: when both words are the same vertex the model lists no path, as networkx 2.x does; networkx 3.3 and later list the one-word path instead. The enumeration tries neighbours in node order, while networkx uses the order in which edges were inserted, so the list order is not claimed.
- SimplePaths.MaxDistancePath: the contract does not say which of several equally long paths is returned. The body hands the candidates, listed pair by pair by `PairPaths`, to `FirstLongest`, whose contract states the first-found rule. Between the paths of one pair, networkx's adjacency order may also pick a different path of the same maximal length.
- Search.ShortestPath: among several shortest paths the model picks one by breadth-first layers and node order; networkx may return a different one of the same length.

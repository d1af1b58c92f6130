/** The vertex wrapper of app/graph/node.py: a node is identified by its word
    alone, so two wrappers of the same word are one vertex. */
module Nodes {
  import opened Wrappers

  datatype Node = Node(word: string)

  /** The dynamically typed values a caller may hand to the constructor or
      compare a node against. */
  datatype Value =
    | StrValue(s: string)
    | IntValue(i: int)
    | NoneValue
    | NodeValue(node: Node)

  datatype NodeError = WordMustBeString

  /** `Node(word)`: only a string is accepted, and it is kept unchanged. */
  function NewNode(v: Value): (r: Result<Node, NodeError>)
    ensures r.Success? <==> v.StrValue?
    ensures r.Success? ==> r.value.word == v.s
    ensures r.Failure? ==> r.error == WordMustBeString
  {
    match v
    case StrValue(s) => Success(Node(s))
    case _ => Failure(WordMustBeString)
  }

  /** `Node.__eq__`: equal to another node with the same word, and never equal
      to a value that is not a node. */
  predicate Equals(n: Node, other: Value)
  {
    match other
    case NodeValue(m) => n.word == m.word
    case _ => false
  }

  /** `Node.__hash__`: the hash of the word. Python's string hash is salted per
      process, so it is a parameter here. */
  function Hash(strHash: string -> int, n: Node): int
  {
    strHash(n.word)
  }

  /** Node equality is exactly value identity of the wrapped word. */
  lemma EqualsIsValueIdentity(n: Node, m: Node)
    ensures Equals(n, NodeValue(m)) <==> n == m
    ensures Equals(n, NodeValue(m)) <==> Equals(m, NodeValue(n))
  {
  }

  /** A node is never equal to a value that is not a node. */
  lemma NeverEqualsNonNode(n: Node, other: Value)
    requires !other.NodeValue?
    ensures !Equals(n, other)
  {
  }

  /** Equal nodes hash equally, whatever the string hash is, so a hash-keyed
      container holds at most one of them. */
  lemma HashAgreesWithEquals(strHash: string -> int, n: Node, m: Node)
    requires Equals(n, NodeValue(m))
    ensures Hash(strHash, n) == Hash(strHash, m)
  {
  }

  /** Constructing nodes from two strings yields the same vertex exactly when
      the strings are equal; this is why the graph model keys vertices by word. */
  lemma NodesCollapseByWord(w1: string, w2: string)
    ensures NewNode(StrValue(w1)) == NewNode(StrValue(w2)) <==> w1 == w2
    ensures Equals(NewNode(StrValue(w1)).value, NodeValue(NewNode(StrValue(w2)).value)) <==> w1 == w2
  {
  }
}

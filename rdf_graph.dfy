/**
 * RDF terms, triples and the read-only graph the checks run against.
 *
 * A graph is held as the store's subject-predicate index: for each
 * (subject, predicate) pair, the objects of the matching triples in the
 * order a triple-pattern lookup enumerates them. The order matters because
 * the list materialiser keeps whichever matching triple it is handed last.
 */
module RdfGraph {
  import opened Results

  /** A graph node: a blank node, a named node (IRI) or a literal. */
  datatype Node = BNode(id: string) | IRI(iri: string) | Lit(lexical: string)

  datatype Triple = Triple(subj: Node, pred: Node, obj: Node)

  /** A subject-predicate pair: the key of a triple-pattern lookup. */
  datatype Key = Key(subj: Node, pred: Node)

  type Graph = map<Key, seq<Node>>

  const Nil := IRI("http://www.w3.org/1999/02/22-rdf-syntax-ns#nil")
  const First := IRI("http://www.w3.org/1999/02/22-rdf-syntax-ns#first")
  const Rest := IRI("http://www.w3.org/1999/02/22-rdf-syntax-ns#rest")
  const ShProperty := IRI("http://www.w3.org/ns/shacl#property")
  const ShDatatype := IRI("http://www.w3.org/ns/shacl#datatype")
  const ShPath := IRI("http://www.w3.org/ns/shacl#path")

  /** The graph contains the triple (s, p, o). */
  predicate HasTriple(g: Graph, s: Node, p: Node, o: Node) {
    Key(s, p) in g && o in g[Key(s, p)]
  }

  /** The graph as a set of triples. */
  function Triples(g: Graph): (ts: set<Triple>)
    ensures forall s, p, o :: Triple(s, p, o) in ts <==> HasTriple(g, s, p, o)
  {
    set k, o | k in g && o in g[k] :: Triple(k.subj, k.pred, o)
  }

  /** A node that can be the subject of a triple: a blank node or an IRI. */
  predicate IsIdentified(n: Node) {
    n.BNode? || n.IRI?
  }

  /**
   * The objects of the triples matching (s, p, _), in enumeration order:
   * what a triple-pattern lookup on the store yields.
   */
  function Objects(g: Graph, s: Node, p: Node): (r: seq<Node>)
    ensures forall o :: o in r <==> HasTriple(g, s, p, o)
  {
    if Key(s, p) in g then g[Key(s, p)] else []
  }

  /** The object of the last triple matching (s, p, _), if there is one. */
  function LastObject(g: Graph, s: Node, p: Node): (r: Option<Node>)
    ensures r.None? <==> forall o :: !HasTriple(g, s, p, o)
    ensures r.Some? ==> HasTriple(g, s, p, r.value)
  {
    var os := Objects(g, s, p);
    if os == [] then None
    else
      assert os[0] in os;
      Some(os[|os| - 1])
  }

  /** Each node has at most one object for predicate p. */
  ghost predicate Functional(g: Graph, p: Node) {
    forall s, o1, o2 :: HasTriple(g, s, p, o1) && HasTriple(g, s, p, o2) ==> o1 == o2
  }

  /**
   * When p is functional, the last matching triple is the only one, so
   * the choice does not depend on the enumeration order.
   */
  lemma {:induction false} LastObjectFunctional(g: Graph, s: Node, p: Node, o: Node)
    requires Functional(g, p)
    requires HasTriple(g, s, p, o)
    ensures LastObject(g, s, p) == Some(o)
  {
    var r := LastObject(g, s, p);
    assert HasTriple(g, s, p, r.value);
  }
}

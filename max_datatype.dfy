/**
 * The "at most one sh:datatype" check of section 4.1.2 of the W3C SHACL
 * Recommendation, as the grouped query states it: for each class and
 * property path reached through the class's sh:property shapes, count the
 * distinct sh:datatype values; every pair with more than one is reported
 * with its tally, and the check passes when nothing is reported.
 */
module MaxDatatype {
  import opened RdfGraph

  /** One reported group: class, property path and datatype tally. */
  datatype Tally = Tally(cls: Node, path: Node, count: nat)

  /** Shape ps is a property shape of cls whose sh:path is path. */
  predicate ShapeOn(g: Graph, cls: Node, path: Node, ps: Node) {
    HasTriple(g, cls, ShProperty, ps) && HasTriple(g, ps, ShPath, path)
  }

  /**
   * The distinct sh:datatype values over the shapes of (cls, path): d is
   * counted exactly when one of the shapes declares it.
   */
  function DatatypesFor(g: Graph, cls: Node, path: Node): (ds: set<Node>)
    ensures forall d :: d in ds ==> exists ps :: ShapeOn(g, cls, path, ps) && HasTriple(g, ps, ShDatatype, d)
    ensures forall ps, d :: ShapeOn(g, cls, path, ps) && HasTriple(g, ps, ShDatatype, d) ==> d in ds
  {
    var ds := set t | t in Triples(g) && t.pred == ShDatatype && ShapeOn(g, cls, path, t.subj) :: t.obj;
    assert forall ps, d :: ShapeOn(g, cls, path, ps) && HasTriple(g, ps, ShDatatype, d) ==>
      Triple(ps, ShDatatype, d) in Triples(g) && Triple(ps, ShDatatype, d).obj in ds;
    ds
  }

  /** The rows of the grouped query that survive its FILTER (tally > 1). */
  function Violations(g: Graph): (vs: set<Tally>)
    ensures forall t :: t in vs ==> t.count == |DatatypesFor(g, t.cls, t.path)| && t.count > 1
  {
    set t1, t2 | t1 in Triples(g) && t2 in Triples(g) &&
      t1.pred == ShProperty && t2.subj == t1.obj && t2.pred == ShPath &&
      |DatatypesFor(g, t1.subj, t2.obj)| > 1
      :: Tally(t1.subj, t2.obj, |DatatypesFor(g, t1.subj, t2.obj)|)
  }

  /**
   * A (class, path) pair is reported, with its tally, exactly when it has
   * more than one distinct datatype.
   */
  lemma ViolationsExactly(g: Graph, cls: Node, path: Node, n: nat)
    ensures Tally(cls, path, n) in Violations(g) <==>
      n == |DatatypesFor(g, cls, path)| && n > 1
  {
    var ds := DatatypesFor(g, cls, path);
    if n == |ds| && n > 1 {
      var d :| d in ds;
      var ps :| ShapeOn(g, cls, path, ps) && HasTriple(g, ps, ShDatatype, d);
      var t1, t2 := Triple(cls, ShProperty, ps), Triple(ps, ShPath, path);
      assert t1 in Triples(g) && t2 in Triples(g);
    }
  }

  /** The check passes exactly when no pair has two distinct datatypes. */
  lemma PassesIffAtMostOne(g: Graph)
    ensures Violations(g) == {} <==> forall cls, path :: |DatatypesFor(g, cls, path)| <= 1
  {
    if !forall cls, path :: |DatatypesFor(g, cls, path)| <= 1 {
      var cls, path :| |DatatypesFor(g, cls, path)| > 1;
      ViolationsExactly(g, cls, path, |DatatypesFor(g, cls, path)|);
    }
  }

  /**
   * A property shape with a path and two different sh:datatype values
   * breaks the SHACL rule itself, and its class is reported for that path.
   */
  lemma ShapeWithTwoDatatypesReported(g: Graph, cls: Node, ps: Node, path: Node, d1: Node, d2: Node)
    requires ShapeOn(g, cls, path, ps)
    requires HasTriple(g, ps, ShDatatype, d1) && HasTriple(g, ps, ShDatatype, d2) && d1 != d2
    ensures exists n :: Tally(cls, path, n) in Violations(g) && n >= 2
  {
    var ds := DatatypesFor(g, cls, path);
    assert {d1, d2} <= ds;
    assert |{d1, d2}| == 2;
    SubsetSize({d1, d2}, ds);
    ViolationsExactly(g, cls, path, |ds|);
  }

  lemma {:induction false} SubsetSize(a: set<Node>, b: set<Node>)
    requires a <= b
    ensures |a| <= |b|
  {
    if a != {} {
      var x :| x in a;
      SubsetSize(a - {x}, b - {x});
    }
  }

  /**
   * The test body: every query row goes into the computed set, and the
   * test passes when that set equals the (empty) expected set.
   */
  method CollectTallies(results: seq<Tally>) returns (computed: set<Tally>, passed: bool)
    ensures forall t :: t in computed <==> t in results
    ensures passed <==> results == []
  {
    computed := {};
    for i := 0 to |results|
      invariant forall t :: t in computed <==> t in results[..i]
    {
      computed := computed + {results[i]};
      assert results[..i + 1] == results[..i] + [results[i]];
    }
    assert results[..|results|] == results;
    passed := computed == {};
    if results != [] {
      assert results[0] in computed;
    }
  }

  /**
   * Given the rows the grouped query returns for g, the test passes
   * exactly when no (class, path) pair has two distinct datatypes.
   */
  method MaxDatatypeCheck(g: Graph, results: seq<Tally>) returns (passed: bool)
    requires forall t :: t in results <==> t in Violations(g)
    ensures passed <==> forall cls, path :: |DatatypesFor(g, cls, path)| <= 1
  {
    var computed;
    computed, passed := CollectTallies(results);
    PassesIffAtMostOne(g);
    if results != [] {
      assert results[0] in Violations(g);
    }
  }
}

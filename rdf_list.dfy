/**
 * The ordered-list materialiser: turns an RDF collection (the rdf:first /
 * rdf:rest / rdf:nil encoding of section 5.2 of RDF Schema 1.1) into the
 * sequence of its members, head to tail.
 */
module RdfList {
  import opened Results
  import opened RdfGraph

  /** Why materialising a list failed. */
  datatype ListError =
    | RestNotANode(cell: Node)    // an rdf:rest object is a literal
    | MissingRest(cell: Node)     // rdf:first present, rdf:rest absent
    | Unbounded(cell: Node)       // the recursion never reaches an end (a cyclic chain)

  /** What one list node looks like from the graph. */
  datatype Cell =
    | End                            // rdf:nil, or no rdf:first triple
    | Cons(first: Node, rest: Node)  // the last rdf:first and rdf:rest objects
    | Broken(error: ListError)

  /** All objects are blank nodes or IRIs. */
  predicate AllIdentified(os: seq<Node>) {
    forall i :: 0 <= i < |os| ==> IsIdentified(os[i])
  }

  /**
   * The cell at node n: nil and nodes without rdf:first end the list; a
   * literal rdf:rest object, or no rdf:rest at all, is a failed assertion.
   */
  function CellOf(g: Graph, n: Node): (c: Cell)
    ensures c.Cons? ==>
      && HasTriple(g, n, First, c.first) && HasTriple(g, n, Rest, c.rest)
      && IsIdentified(c.rest) && n != Nil
    ensures c.Broken? ==> c.error.cell == n && !c.error.Unbounded?
  {
    if n == Nil then End
    else match LastObject(g, n, First)
      case None => End
      case Some(first) =>
        var rests := Objects(g, n, Rest);
        if !AllIdentified(rests) then Broken(RestNotANode(n))
        else match LastObject(g, n, Rest)
          case None => Broken(MissingRest(n))
          case Some(rest) => Cons(first, rest)
  }

  /**
   * The member list of the collection headed by `head`, recursing at most
   * `fuel` times; running out of fuel stands for a recursion without end.
   */
  function Materialise(g: Graph, head: Node, fuel: nat): (r: Result<seq<Node>, ListError>)
    ensures r.Ok? ==> |r.value| <= fuel
    decreases fuel
  {
    match CellOf(g, head)
    case End => Ok([])
    case Broken(e) => Err(e)
    case Cons(first, rest) =>
      if fuel == 0 then Err(Unbounded(head))
      else
        match Materialise(g, rest, fuel - 1)
        case Err(e) => Err(e)
        case Ok(tail) => Ok([first] + tail)
  }

  /** The rdf:rest object of a cons cell; None at an end or a broken cell. */
  function Successor(g: Graph, n: Node): (m: Option<Node>) {
    match CellOf(g, n)
    case Cons(_, rest) => Some(rest)
    case _ => None
  }

  /** The successor relation of the graph's list cells, as a function value. */
  function Next(g: Graph): (next: Node -> Option<Node>) {
    n => Successor(g, n)
  }

  /**
   * The node reached from n after k steps of `next`, or None when a step
   * before that has no successor.
   */
  function Walk(next: Node -> Option<Node>, n: Node, k: nat): (m: Option<Node>)
    decreases k
  {
    if k == 0 then Some(n)
    else match next(n)
      case Some(m) => Walk(next, m, k - 1)
      case None => None
  }

  /** The walk from head comes back to a node it has already visited. */
  ghost predicate CyclicWalk(next: Node -> Option<Node>, head: Node) {
    exists i: nat, j: nat :: i < j && Walk(next, head, j).Some? && Walk(next, head, i) == Walk(next, head, j)
  }

  /** The rdf:rest chain from head is cyclic. */
  ghost predicate Cyclic(g: Graph, head: Node) {
    CyclicWalk(Next(g), head)
  }

  /**
   * The materialiser as the checks call it. The graph's size is enough
   * fuel: see MemberListUnboundedIffCyclic.
   */
  function MemberList(g: Graph, head: Node): (r: Result<seq<Node>, ListError>)
    ensures r.Ok? ==> forall i :: 0 <= i < |r.value| ==> IsFirstObject(g, r.value[i])
  {
    var members := Materialise(g, head, |g|);
    if members.Ok? then
      MaterialiseFollowsChain(g, head, |g|);
      assert forall i :: 0 <= i < |members.value| ==>
        HasTriple(g, Walk(Next(g), head, i).value, First, members.value[i]);
      members
    else members
  }

  /** o is the rdf:first object of some node. */
  ghost predicate IsFirstObject(g: Graph, o: Node) {
    exists n :: HasTriple(g, n, First, o)
  }

  /**
   * Which cell a node is, in terms of the triples about it: each of the
   * four outcomes exactly characterised, and a cons cell holds the last
   * rdf:first and rdf:rest objects the lookup yields.
   */
  lemma CellOfCases(g: Graph, n: Node)
    ensures CellOf(g, n).End? <==> n == Nil || forall o :: !HasTriple(g, n, First, o)
    ensures CellOf(g, n).Cons? <==>
      && n != Nil && (exists o :: HasTriple(g, n, First, o))
      && (exists o :: HasTriple(g, n, Rest, o))
      && forall o :: HasTriple(g, n, Rest, o) ==> IsIdentified(o)
    ensures CellOf(g, n).Cons? ==>
      && Some(CellOf(g, n).first) == LastObject(g, n, First)
      && Some(CellOf(g, n).rest) == LastObject(g, n, Rest)
    ensures CellOf(g, n) == Broken(MissingRest(n)) <==>
      && n != Nil && (exists o :: HasTriple(g, n, First, o))
      && (forall o :: !HasTriple(g, n, Rest, o))
    ensures CellOf(g, n) == Broken(RestNotANode(n)) <==>
      && n != Nil && (exists o :: HasTriple(g, n, First, o))
      && (exists o :: HasTriple(g, n, Rest, o) && !IsIdentified(o))
  {
    var rests := Objects(g, n, Rest);
    if rests != [] {
      assert HasTriple(g, n, Rest, rests[0]);
    }
    RestsIdentified(g, n);
  }

  /** The named edge cases of the materialiser. */
  lemma MaterialiseCases(g: Graph, head: Node, fuel: nat)
    ensures head == Nil ==> Materialise(g, head, fuel) == Ok([])
    ensures (forall o :: !HasTriple(g, head, First, o)) ==> Materialise(g, head, fuel) == Ok([])
    ensures
      && head != Nil && (exists o :: HasTriple(g, head, First, o))
      && (forall o :: !HasTriple(g, head, Rest, o))
      ==> Materialise(g, head, fuel) == Err(MissingRest(head))
    ensures
      && head != Nil && (exists o :: HasTriple(g, head, First, o))
      && (exists o :: HasTriple(g, head, Rest, o) && !IsIdentified(o))
      ==> Materialise(g, head, fuel) == Err(RestNotANode(head))
  {
    CellOfCases(g, head);
  }

  /**
   * A node other than rdf:nil whose kept rdf:first object is f and kept
   * rdf:rest object is r, all of whose rdf:rest objects are nodes,
   * contributes f in front of the members of r; when r fails, the head
   * fails with the same error.
   */
  lemma MaterialiseCons(g: Graph, head: Node, fuel: nat, f: Node, r: Node)
    requires head != Nil && fuel > 0
    requires LastObject(g, head, First) == Some(f) && LastObject(g, head, Rest) == Some(r)
    requires forall o :: HasTriple(g, head, Rest, o) ==> IsIdentified(o)
    ensures Materialise(g, r, fuel - 1).Ok? ==>
      Materialise(g, head, fuel) == Ok([f] + Materialise(g, r, fuel - 1).value)
    ensures Materialise(g, r, fuel - 1).Err? ==>
      Materialise(g, head, fuel) == Materialise(g, r, fuel - 1)
  {
    RestsIdentified(g, head);
  }

  /** Walking a + b steps is walking a steps and then b more. */
  lemma {:induction false} WalkAdd(next: Node -> Option<Node>, n: Node, a: nat, b: nat)
    ensures Walk(next, n, a + b) ==
      (if Walk(next, n, a).Some? then Walk(next, Walk(next, n, a).value, b) else None)
    decreases a
  {
    if a > 0 && next(n).Some? {
      WalkAdd(next, next(n).value, a - 1, b);
    }
  }

  /** A walk that reaches step k has reached every earlier step. */
  lemma WalkPrefix(next: Node -> Option<Node>, n: Node, i: nat, k: nat)
    requires i <= k && Walk(next, n, k).Some?
    ensures Walk(next, n, i).Some?
  {
    WalkAdd(next, n, i, k - i);
  }

  /** A walk that comes back to a visited node goes on for ever. */
  lemma {:induction false} CyclicWalkEndless(next: Node -> Option<Node>, head: Node, k: nat)
    requires CyclicWalk(next, head)
    ensures Walk(next, head, k).Some?
    decreases k
  {
    var i: nat, j: nat :| i < j && Walk(next, head, j).Some? && Walk(next, head, i) == Walk(next, head, j);
    if k <= j {
      WalkPrefix(next, head, k, j);
    } else {
      WalkAdd(next, head, j, k - j);
      WalkAdd(next, head, i, k - j);
      CyclicWalkEndless(next, head, i + (k - j));
    }
  }

  /**
   * A materialisation that finishes lists the rdf:first objects of the
   * chain from head in order: element i belongs to the node i steps along,
   * and the node right after the last element is an end cell.
   */
  lemma {:induction false} MaterialiseFollowsChain(g: Graph, head: Node, fuel: nat)
    requires Materialise(g, head, fuel).Ok?
    ensures var members := Materialise(g, head, fuel).value;
      && Walk(Next(g), head, |members|).Some?
      && CellOf(g, Walk(Next(g), head, |members|).value).End?
      && forall i :: 0 <= i < |members| ==>
        && Walk(Next(g), head, i).Some?
        && HasTriple(g, Walk(Next(g), head, i).value, First, members[i])
    decreases fuel
  {
    var members := Materialise(g, head, fuel).value;
    match CellOf(g, head)
    case End =>
    case Cons(first, rest) =>
      MaterialiseFollowsChain(g, rest, fuel - 1);
      var tail := Materialise(g, rest, fuel - 1).value;
      assert members == [first] + tail;
      assert Next(g)(head) == Some(rest);
      forall i | 0 <= i <= |tail|
        ensures Walk(Next(g), head, i + 1) == Walk(Next(g), rest, i)
      {
      }
      assert Walk(Next(g), head, |members|) == Walk(Next(g), rest, |tail|);
      forall i | 0 <= i < |members|
        ensures Walk(Next(g), head, i).Some?
        ensures HasTriple(g, Walk(Next(g), head, i).value, First, members[i])
      {
        if i > 0 {
          assert Walk(Next(g), head, i) == Walk(Next(g), rest, i - 1);
          assert members[i] == tail[i - 1];
        }
      }
  }

  /** One step of the chain from a cons cell lands on its rdf:rest object. */
  lemma WalkCons(g: Graph, n: Node, k: nat)
    requires CellOf(g, n).Cons?
    ensures Walk(Next(g), n, k + 1) == Walk(Next(g), CellOf(g, n).rest, k)
  {
    assert Next(g)(n) == Some(CellOf(g, n).rest);
  }

  /** A walk that goes on past `fuel` steps exhausts the fuel. */
  lemma {:induction false} EndlessWalkUnbounded(g: Graph, head: Node, fuel: nat)
    requires forall k: nat :: k <= fuel + 1 ==> Walk(Next(g), head, k).Some?
    ensures Materialise(g, head, fuel).Err? && Materialise(g, head, fuel).error.Unbounded?
    decreases fuel
  {
    assert Walk(Next(g), head, 1).Some?;
    assert Next(g)(head).Some?;
    var rest := CellOf(g, head).rest;
    if fuel > 0 {
      forall k: nat | k <= fuel
        ensures Walk(Next(g), rest, k).Some?
      {
        WalkCons(g, head, k);
      }
      EndlessWalkUnbounded(g, rest, fuel - 1);
    }
  }

  /** Running out of fuel means fuel + 1 cons cells were walked. */
  lemma {:induction false} UnboundedWalk(g: Graph, head: Node, fuel: nat, k: nat)
    requires Materialise(g, head, fuel).Err? && Materialise(g, head, fuel).error.Unbounded?
    requires k <= fuel
    ensures Walk(Next(g), head, k).Some? && CellOf(g, Walk(Next(g), head, k).value).Cons?
    decreases fuel
  {
    assert CellOf(g, head).Cons?;
    if k > 0 {
      WalkCons(g, head, k - 1);
      UnboundedWalk(g, CellOf(g, head).rest, fuel - 1, k - 1);
    }
  }

  /** More elements than the set they are drawn from means a repeat. */
  lemma {:induction false} Pigeonhole<T>(s: seq<T>, pool: set<T>)
    requires forall i :: 0 <= i < |s| ==> s[i] in pool
    requires |pool| < |s|
    ensures exists i, j :: 0 <= i < j < |s| && s[i] == s[j]
  {
    var last := s[|s| - 1];
    var init := s[..|s| - 1];
    if last in init {
      var i :| 0 <= i < |init| && init[i] == last;
      assert s[i] == s[|s| - 1];
    } else {
      forall i | 0 <= i < |init| ensures init[i] in pool - {last} {
        assert init[i] == s[i];
      }
      Pigeonhole(init, pool - {last});
      var i, j :| 0 <= i < j < |init| && init[i] == init[j];
      assert s[i] == s[j];
    }
  }

  /**
   * Fuel equal to the graph's size runs out exactly when the rdf:rest
   * chain is cyclic, that is, when the unbounded recursion of the source
   * would never return.
   */
  lemma MemberListUnboundedIffCyclic(g: Graph, head: Node)
    ensures (MemberList(g, head).Err? && MemberList(g, head).error.Unbounded?) <==> Cyclic(g, head)
  {
    if Cyclic(g, head) {
      forall k: nat | k <= |g| + 1 ensures Walk(Next(g), head, k).Some? {
        CyclicWalkEndless(Next(g), head, k);
      }
      EndlessWalkUnbounded(g, head, |g|);
    }
    if MemberList(g, head).Err? && MemberList(g, head).error.Unbounded? {
      var visited := seq(|g| + 1, k requires 0 <= k <= |g| =>
        UnboundedWalk(g, head, |g|, k); Walk(Next(g), head, k).value);
      var keys := seq(|visited|, k requires 0 <= k < |visited| => Key(visited[k], Rest));
      forall k | 0 <= k < |keys| ensures keys[k] in g.Keys {
        UnboundedWalk(g, head, |g|, k);
        var c := CellOf(g, visited[k]);
        assert HasTriple(g, visited[k], Rest, c.rest);
      }
      Pigeonhole(keys, g.Keys);
      var i, j :| 0 <= i < j < |keys| && keys[i] == keys[j];
      assert visited[i] == visited[j];
      UnboundedWalk(g, head, |g|, i);
      UnboundedWalk(g, head, |g|, j);
      assert Walk(Next(g), head, i) == Walk(Next(g), head, j);
    }
  }

  /** Fuel beyond what a finished materialisation used changes nothing. */
  lemma {:induction false} MaterialiseMoreFuel(g: Graph, head: Node, fuel: nat, more: nat)
    requires fuel <= more
    requires !(Materialise(g, head, fuel).Err? && Materialise(g, head, fuel).error.Unbounded?)
    ensures Materialise(g, head, more) == Materialise(g, head, fuel)
    decreases fuel
  {
    match CellOf(g, head)
    case End =>
    case Broken(_) =>
    case Cons(_, rest) =>
      MaterialiseMoreFuel(g, rest, fuel - 1, more - 1);
  }

  /**
   * With at most one rdf:first and one rdf:rest per node, the members do
   * not depend on the order in which the store enumerates its triples.
   */
  lemma {:induction false} MaterialiseOrderIndependent(g1: Graph, g2: Graph, head: Node, fuel: nat)
    requires Triples(g1) == Triples(g2)
    requires Functional(g1, First) && Functional(g1, Rest)
    ensures Materialise(g1, head, fuel) == Materialise(g2, head, fuel)
    decreases fuel
  {
    CellOrderIndependent(g1, g2, head);
    match CellOf(g1, head)
    case End =>
    case Broken(_) =>
    case Cons(_, rest) =>
      if fuel > 0 {
        MaterialiseOrderIndependent(g1, g2, rest, fuel - 1);
      }
  }

  /** Whether a node's rdf:rest objects are all nodes depends only on the triples. */
  lemma RestsIdentified(g: Graph, n: Node)
    ensures AllIdentified(Objects(g, n, Rest)) <==> forall o :: HasTriple(g, n, Rest, o) ==> IsIdentified(o)
  {
    var rests := Objects(g, n, Rest);
    if !AllIdentified(rests) {
      var i :| 0 <= i < |rests| && !IsIdentified(rests[i]);
      assert HasTriple(g, n, Rest, rests[i]);
    }
  }

  /** With at most one rdf:first and rdf:rest per node, a cell depends only on the triples. */
  lemma CellOrderIndependent(g1: Graph, g2: Graph, n: Node)
    requires Triples(g1) == Triples(g2)
    requires Functional(g1, First) && Functional(g1, Rest)
    ensures CellOf(g1, n) == CellOf(g2, n)
  {
    forall s, p, o ensures HasTriple(g1, s, p, o) <==> HasTriple(g2, s, p, o) {
      assert Triple(s, p, o) in Triples(g1) <==> Triple(s, p, o) in Triples(g2);
    }
    RestsIdentified(g1, n);
    RestsIdentified(g2, n);
    LastObjectOrder(g1, g2, n, First);
    LastObjectOrder(g1, g2, n, Rest);
  }

  lemma LastObjectOrder(g1: Graph, g2: Graph, n: Node, p: Node)
    requires forall s, p, o :: HasTriple(g1, s, p, o) <==> HasTriple(g2, s, p, o)
    requires Functional(g1, p)
    ensures LastObject(g1, n, p) == LastObject(g2, n, p)
  {
    if LastObject(g1, n, p).Some? {
      var o := LastObject(g1, n, p).value;
      LastObjectFunctional(g2, n, p, o);
    }
  }

  /**
   * Two cells: the first holds "a" and points to the second, which holds
   * "b" and points to rdf:nil. The members are "a" then "b".
   */
  lemma TwoCellExample()
    ensures
      var l1, l2 := BNode("l1"), BNode("l2");
      var g := map[Key(l1, First) := [Lit("a")], Key(l1, Rest) := [l2],
                   Key(l2, First) := [Lit("b")], Key(l2, Rest) := [Nil]];
      MemberList(g, l1) == Ok([Lit("a"), Lit("b")])
  {
    var l1, l2 := BNode("l1"), BNode("l2");
    var g := map[Key(l1, First) := [Lit("a")], Key(l1, Rest) := [l2],
                 Key(l2, First) := [Lit("b")], Key(l2, Rest) := [Nil]];
    assert CellOf(g, l2) == Cons(Lit("b"), Nil);
    assert CellOf(g, l1) == Cons(Lit("a"), l2);
    assert |g| == 4;
    assert Materialise(g, Nil, 2) == Ok([]);
    MaterialiseCons(g, l2, 3, Lit("b"), Nil);
    assert Materialise(g, l2, 3).value == [Lit("b")] + [];
    assert [Lit("b")] + [] == [Lit("b")];
    MaterialiseCons(g, l1, 4, Lit("a"), l2);
    assert [Lit("a")] + [Lit("b")] == [Lit("a"), Lit("b")];
    assert MemberList(g, l1) == Ok([Lit("a"), Lit("b")]);
  }
}

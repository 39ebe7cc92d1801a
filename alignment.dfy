/**
 * The semi-open vocabulary alignment check: for every class whose SHACL
 * shape restricts a property to a datatype's values with sh:in, the SHACL
 * list and the datatype's owl:oneOf list must hold the same members in the
 * same order. Query rows are given; the query that produces them is not
 * part of this model.
 */
module Alignment {
  import opened Results
  import opened RdfGraph
  import opened RdfList

  /** One query row: class, datatype, SHACL list head, OWL list head. */
  datatype Row = Row(cls: Node, dtype: Node, shaclList: Node, rdfsList: Node)

  /** A recorded disagreement: class, datatype and the two member lists. */
  datatype Mismatch = Mismatch(cls: Node, dtype: Node, shaclMembers: seq<Node>, rdfsMembers: seq<Node>)

  /** Which screening assertion a row fails, checked in this order. */
  datatype RowFault =
    | ClassNotIri
    | DatatypeNotIri
    | DistinctIriHeads     // both list heads IRIs, but different ones
    | HeadNotANode         // a list head is a literal

  datatype AlignmentError =
    | NoRows                                  // the query matched nothing
    | BadRow(index: nat, fault: RowFault)     // a row failed screening
    | BadList(listError: ListError)             // a list could not be materialised

  /** The first screening assertion the row fails, if any. */
  function FaultOf(row: Row): (fault: Option<RowFault>)
    ensures fault == Some(ClassNotIri) <==> !row.cls.IRI?
    ensures fault == Some(DatatypeNotIri) <==> row.cls.IRI? && !row.dtype.IRI?
    ensures fault == Some(DistinctIriHeads) <==>
      && row.cls.IRI? && row.dtype.IRI?
      && row.shaclList.IRI? && row.rdfsList.IRI? && row.shaclList != row.rdfsList
    ensures fault == Some(HeadNotANode) <==>
      row.cls.IRI? && row.dtype.IRI? && (row.shaclList.Lit? || row.rdfsList.Lit?)
  {
    if !row.cls.IRI? then Some(ClassNotIri)
    else if !row.dtype.IRI? then Some(DatatypeNotIri)
    else if row.shaclList.IRI? && row.rdfsList.IRI? then
      if row.shaclList == row.rdfsList then None else Some(DistinctIriHeads)
    else if !IsIdentified(row.shaclList) || !IsIdentified(row.rdfsList) then Some(HeadNotANode)
    else None
  }

  /**
   * A row passes screening exactly when class and datatype are IRIs, both
   * heads are blank nodes or IRIs, and two IRI heads are the same IRI: so
   * two different heads always include a blank node.
   */
  lemma AdmissibleRows(r: Row)
    ensures FaultOf(r).None? <==>
      && r.cls.IRI? && r.dtype.IRI?
      && IsIdentified(r.shaclList) && IsIdentified(r.rdfsList)
      && (r.shaclList != r.rdfsList ==> r.shaclList.BNode? || r.rdfsList.BNode?)
  {
  }

  /** Both heads are the same node: nothing to compare. */
  predicate Skipped(r: Row) {
    r.shaclList == r.rdfsList
  }

  /** A row that is compared and whose two lists both materialise. */
  predicate Materialises(g: Graph, r: Row) {
    MemberList(g, r.shaclList).Ok? && MemberList(g, r.rdfsList).Ok?
  }

  /** A compared row whose two member lists differ. */
  predicate Differs(g: Graph, r: Row) {
    !Skipped(r) && Materialises(g, r) &&
    MemberList(g, r.shaclList).value != MemberList(g, r.rdfsList).value
  }

  function MismatchOf(g: Graph, r: Row): (m: Mismatch)
    requires Materialises(g, r)
  {
    Mismatch(r.cls, r.dtype, MemberList(g, r.shaclList).value, MemberList(g, r.rdfsList).value)
  }

  /** The disagreements the comparison records for a set of test cases. */
  ghost function Mismatches(g: Graph, cases: set<Row>): (ms: set<Mismatch>)
    ensures forall m :: m in ms ==> m.shaclMembers != m.rdfsMembers
    ensures forall c :: c in cases && Differs(g, c) ==> MismatchOf(g, c) in ms
    ensures ms == {} <==> forall c :: c in cases ==> !Differs(g, c)
  {
    set r | r in cases && Differs(g, r) :: MismatchOf(g, r)
  }

  /** The materialisation error of a compared row, SHACL list first. */
  function ListErrorOf(g: Graph, r: Row): (e: Option<ListError>)
    ensures e.None? <==> Materialises(g, r)
    ensures MemberList(g, r.shaclList).Err? ==> e == Some(MemberList(g, r.shaclList).error)
  {
    if MemberList(g, r.shaclList).Err? then Some(MemberList(g, r.shaclList).error)
    else if MemberList(g, r.rdfsList).Err? then Some(MemberList(g, r.rdfsList).error)
    else None
  }

  /**
   * Screens the query rows in order, collecting them as test cases: stops
   * at the first row that fails an assertion, and fails when there are no
   * rows at all.
   */
  method ScreenRows(rows: seq<Row>) returns (r: Result<set<Row>, AlignmentError>)
    ensures r.Ok? <==> |rows| > 0 && forall i :: 0 <= i < |rows| ==> FaultOf(rows[i]).None?
    ensures r.Ok? ==> forall x :: x in r.value <==> x in rows
    ensures r.Err? && r.error.BadRow? ==>
      && r.error.index < |rows|
      && FaultOf(rows[r.error.index]) == Some(r.error.fault)
      && forall i :: 0 <= i < r.error.index ==> FaultOf(rows[i]).None?
    ensures r.Err? ==> r.error.BadRow? || (r.error == NoRows && rows == [])
  {
    var tally := 0;
    var cases: set<Row> := {};
    for i := 0 to |rows|
      invariant tally == i
      invariant forall j :: 0 <= j < i ==> FaultOf(rows[j]).None?
      invariant forall x :: x in cases <==> x in rows[..i]
    {
      tally := i + 1;
      var fault := FaultOf(rows[i]);
      if fault.Some? {
        return Err(BadRow(i, fault.value));
      }
      cases := cases + {rows[i]};
      assert rows[..i + 1] == rows[..i] + [rows[i]];
    }
    if tally == 0 {
      return Err(NoRows);
    }
    assert rows[..|rows|] == rows;
    return Ok(cases);
  }

  /**
   * Compares the two member lists of every test case whose heads differ,
   * recording a mismatch for each pair of unequal lists. A list that cannot
   * be materialised aborts the comparison.
   */
  method CompareCases(g: Graph, cases: set<Row>) returns (r: Result<set<Mismatch>, AlignmentError>)
    ensures r.Ok? <==> forall c :: c in cases && !Skipped(c) ==> Materialises(g, c)
    ensures r.Ok? ==> r.value == Mismatches(g, cases)
    ensures r.Err? ==>
      && r.error.BadList?
      && exists c :: c in cases && !Skipped(c) && ListErrorOf(g, c) == Some(r.error.listError)
  {
    var remaining := cases;
    var computed: set<Mismatch> := {};
    while remaining != {}
      invariant remaining <= cases
      invariant forall c :: c in cases - remaining && !Skipped(c) ==> Materialises(g, c)
      invariant computed == Mismatches(g, cases - remaining)
      decreases remaining
    {
      var c :| c in remaining;
      MismatchesAdd(g, cases - remaining, c);
      remaining := remaining - {c};
      assert cases - remaining == (cases - (remaining + {c})) + {c};
      if c.shaclList == c.rdfsList {
        continue;
      }
      var shacl := MemberList(g, c.shaclList);
      if shacl.Err? {
        return Err(BadList(shacl.error));
      }
      var rdfs := MemberList(g, c.rdfsList);
      if rdfs.Err? {
        return Err(BadList(rdfs.error));
      }
      if rdfs.value != shacl.value {
        computed := computed + {Mismatch(c.cls, c.dtype, shacl.value, rdfs.value)};
      }
    }
    return Ok(computed);
  }

  /** Adding one case adds its mismatch, if it has one, and nothing else. */
  lemma MismatchesAdd(g: Graph, done: set<Row>, c: Row)
    ensures Mismatches(g, done + {c}) ==
      Mismatches(g, done) + (if Differs(g, c) then {MismatchOf(g, c)} else {})
  {
    var after := Mismatches(g, done + {c});
    var before := Mismatches(g, done);
    forall m | m in after
      ensures m in before || (Differs(g, c) && m == MismatchOf(g, c))
    {
      var x :| x in done + {c} && Differs(g, x) && m == MismatchOf(g, x);
      if x != c {
        assert x in done;
      }
    }
  }

  /** The outcome of a check: passed, failed with its violations, or aborted. */
  datatype Outcome<V> = Passed | Violated(found: set<V>) | Aborted(error: AlignmentError)

  /**
   * The whole alignment test: screen the rows, compare every test case,
   * and pass only when no mismatch was recorded.
   */
  method AlignmentCheck(g: Graph, rows: seq<Row>) returns (outcome: Outcome<Mismatch>)
    ensures outcome.Passed? <==>
      && |rows| > 0
      && (forall i :: 0 <= i < |rows| ==> FaultOf(rows[i]).None?)
      && (forall i :: 0 <= i < |rows| && !Skipped(rows[i]) ==>
            Materialises(g, rows[i]) &&
            MemberList(g, rows[i].shaclList).value == MemberList(g, rows[i].rdfsList).value)
    ensures outcome.Violated? <==>
      && |rows| > 0
      && (forall i :: 0 <= i < |rows| ==> FaultOf(rows[i]).None?)
      && (forall i :: 0 <= i < |rows| && !Skipped(rows[i]) ==> Materialises(g, rows[i]))
      && Mismatches(g, set i | 0 <= i < |rows| :: rows[i]) != {}
    ensures outcome.Violated? ==> outcome.found == Mismatches(g, set i | 0 <= i < |rows| :: rows[i])
    ensures outcome == Aborted(NoRows) <==> rows == []
    ensures outcome.Aborted? && outcome.error.BadRow? ==>
      && outcome.error.index < |rows|
      && FaultOf(rows[outcome.error.index]) == Some(outcome.error.fault)
      && forall i :: 0 <= i < outcome.error.index ==> FaultOf(rows[i]).None?
    ensures outcome.Aborted? && outcome.error.BadList? <==>
      && |rows| > 0
      && (forall i :: 0 <= i < |rows| ==> FaultOf(rows[i]).None?)
      && (exists i :: 0 <= i < |rows| && !Skipped(rows[i]) && !Materialises(g, rows[i]))
    ensures outcome.Aborted? && outcome.error.BadList? ==>
      exists i :: 0 <= i < |rows| && !Skipped(rows[i]) && ListErrorOf(g, rows[i]) == Some(outcome.error.listError)
  {
    var screened := ScreenRows(rows);
    if screened.Err? {
      return Aborted(screened.error);
    }
    var cases := screened.value;
    var compared := CompareCases(g, cases);
    if compared.Err? {
      return Aborted(compared.error);
    }
    assert cases == set i | 0 <= i < |rows| :: rows[i];
    if compared.value == {} {
      NoMismatches(g, cases);
      outcome := Passed;
    } else {
      outcome := Violated(compared.value);
    }
  }

  /**
   * No mismatch is recorded exactly when every compared case has equal
   * member lists (given that all of them materialise).
   */
  lemma NoMismatches(g: Graph, cases: set<Row>)
    requires forall c :: c in cases && !Skipped(c) ==> Materialises(g, c)
    ensures Mismatches(g, cases) == {} <==>
      forall c :: c in cases && !Skipped(c) ==>
        Materialises(g, c) && MemberList(g, c.shaclList).value == MemberList(g, c.rdfsList).value
  {
    if exists c :: c in cases && Differs(g, c) {
      var c :| c in cases && Differs(g, c);
      assert MismatchOf(g, c) in Mismatches(g, cases);
    }
  }

  /** A case whose two heads are the same node is never reported. */
  lemma SkippedNeverReported(g: Graph, cases: set<Row>, m: Mismatch)
    requires m in Mismatches(g, cases)
    ensures exists c :: c in cases && !Skipped(c) && Materialises(g, c) && m == MismatchOf(g, c)
    ensures m.shaclMembers != m.rdfsMembers
  {
  }
}

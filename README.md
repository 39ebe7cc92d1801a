# UCO monolithic ontology checks, modelled in Dafny

This project models the consistency checks that the UCO archive runs over
its monolithic ontology graph (`tests/test_uco_monolithic.py`):

- **The RDF list materialiser** (`rdf_list_to_member_list`). It turns an RDF
  collection into the ordered sequence of its members. An RDF collection is
  the `rdf:first` / `rdf:rest` / `rdf:nil` encoding of section 5.2 of RDF
  Schema 1.1.
- **The semi-open vocabulary alignment test.** It screens the query rows and
  then compares the SHACL `sh:in` list with the datatype's `owl:oneOf` list
  for each class and datatype. Every pair of lists that differs is recorded.
- **The "at most one `sh:datatype`" test.** Section 4.1.2 of the W3C SHACL
  Recommendation says a shape has at most one `sh:datatype` value. The test
  groups property shapes by (class, path) and reports every group with more
  than one distinct datatype.

Files:

- `results.dfy` (module `Results`): `Option` and `Result`.
- `rdf_graph.dfy` (module `RdfGraph`): nodes (blank node, IRI, literal),
  triples, the vocabulary IRIs, and the graph. The graph is held as the
  store's subject-predicate index: for each (subject, predicate) key, the
  objects of the matching triples in the order a lookup enumerates them.
  The order matters because the materialiser keeps the last matching
  triple it sees.
- `rdf_list.dfy` (module `RdfList`): the materialiser and its properties.
- `alignment.dfy` (module `Alignment`): row screening, list comparison and
  the whole alignment test.
- `max_datatype.dfy` (module `MaxDatatype`): the grouping rule over triples
  and the test body.

### How the materialiser is modelled

`CellOf` classifies one node:

- `End`: the node is `rdf:nil`, or it has no `rdf:first` triple.
- `Broken`: an `rdf:rest` object is a literal, or there is no `rdf:rest`
  triple. Both are assertion failures in the source.
- `Cons`: the node has a first and a rest. The cell holds the last
  `rdf:first` object and the last `rdf:rest` object.

`Materialise` recurses through the cells with a `fuel` bound. When it runs
out of fuel it returns `Unbounded`, which stands for a recursion that never
ends. `MemberList` uses the number of index entries as fuel.
`MemberListUnboundedIffCyclic` proves that this bound runs out exactly when
the `rdf:rest` chain from the head is cyclic. Those are exactly the inputs
on which the source recursion would not return.

The graph is only read. All the operations on it are functions, so
materialising the same head twice gives the same result.

### Choices the code makes that the model keeps

- A well-formed collection cell has one `rdf:first` and one `rdf:rest`.
  Section 5.2 of RDF Schema 1.1 defines this vocabulary but does not forbid
  a node from having several of either. The code loops over all matching triples
  and keeps the last one it is handed
  (`tests/test_uco_monolithic.py:86-87`, `91-93`). The model keeps the last
  one in enumeration order (`CellOfCases` states this through
  `LastObject`). `MaterialiseOrderIndependent` proves that the order does
  not matter when each node has at most one first and one rest.
- Members are compared with plain node equality
  (`tests/test_uco_monolithic.py:151`). Two lists whose members are
  different blank nodes with the same content count as different, in the
  code and in the model.
- The code checks every `rdf:rest` object, and rejects a literal one, before
  it checks that some `rdf:rest` exists (`tests/test_uco_monolithic.py:91-94`).
  The model keeps that order: a literal rest is `RestNotANode`, a missing
  rest is `MissingRest`.

## Model

| member | source | states |
|---|---|---|
| `RdfGraph.LastObject` | tests/test_uco_monolithic.py:86-88 | The kept object is absent exactly when no triple matches. When present, it is the object of a matching triple. |
| `RdfGraph.LastObjectFunctional` | tests/test_uco_monolithic.py:86-87 | When a node has only one object for the predicate, the kept object is that one, whatever the order. |
| `RdfList.CellOf` | tests/test_uco_monolithic.py:80-94 | A cons cell's first and rest are objects of that node's `rdf:first` and `rdf:rest` triples. The node is not `rdf:nil` and the rest is a blank node or IRI. A broken cell names the node, and it is never `Unbounded`. |
| `RdfList.CellOfCases` | tests/test_uco_monolithic.py:80-94 | A node is an end iff it is `rdf:nil` or has no `rdf:first`. It is a cons cell iff it is not `rdf:nil`, has a first, has a rest, and all its rests are blank nodes or IRIs; the cell then holds the last first and last rest yielded. It has `MissingRest` iff it has a first and no rest. It has `RestNotANode` iff it has a first and a literal rest. |
| `RdfList.Materialise` | tests/test_uco_monolithic.py:75-98 | A list materialised within a fuel bound has at most that many members. Its other properties are stated by the lemma rows below (`MaterialiseCases`, `MaterialiseCons`, `MaterialiseFollowsChain`, `MaterialiseMoreFuel`, `MaterialiseOrderIndependent`). |
| `RdfList.MemberList` | tests/test_uco_monolithic.py:75-98 | Every member of a materialised list is the `rdf:first` object of some node. `MemberListUnboundedIffCyclic` states when it fails for lack of fuel. |
| `RdfList.MaterialiseCases` | tests/test_uco_monolithic.py:79-94 | Materialising `rdf:nil` gives `[]`. A node without `rdf:first` gives `[]`, whatever rest triples it has. A first with no rest is a `MissingRest` failure. A literal rest object is a `RestNotANode` failure. |
| `RdfList.MaterialiseCons` | tests/test_uco_monolithic.py:86-98 | For a node other than `rdf:nil` whose last `rdf:first` object is f, whose last `rdf:rest` object is r, and whose rests are all blank nodes or IRIs: when r materialises, the members are f followed by the members of r; when r fails, the head fails with the same error. |
| `RdfList.MaterialiseFollowsChain` | tests/test_uco_monolithic.py:86-98 | Member i is an `rdf:first` object of the node i steps along the `rdf:rest` chain. The node just after the last member is an end cell. |
| `RdfList.MemberListUnboundedIffCyclic` | tests/test_uco_monolithic.py:96 | With fuel equal to the graph's size, materialising runs out of fuel iff the `rdf:rest` chain from the head comes back to a node it already visited. |
| `RdfList.MaterialiseMoreFuel` | tests/test_uco_monolithic.py:96 | A result that did not run out of fuel stays the same with any larger fuel. |
| `RdfList.MaterialiseOrderIndependent` | tests/test_uco_monolithic.py:86-93 | When each node has at most one `rdf:first` and one `rdf:rest`, two graphs with the same triples give the same members, whatever their enumeration order. |
| `RdfList.TwoCellExample` | tests/test_uco_monolithic.py:75-98 | A two-cell list holding "a" then "b" and ending at `rdf:nil` materialises to `["a", "b"]`. |
| `Alignment.FaultOf` | tests/test_uco_monolithic.py:131-137 | The assertions are checked in order: a non-IRI class fails first, then a non-IRI datatype, then two different IRI heads, then a literal head. Each fault is reported exactly when its condition holds and the earlier ones pass. |
| `Alignment.AdmissibleRows` | tests/test_uco_monolithic.py:131-137 | A row passes screening iff class and datatype are IRIs, both heads are blank nodes or IRIs, and two different heads include a blank node. |
| `Alignment.Mismatches` | tests/test_uco_monolithic.py:145-158 | Every recorded mismatch has two different member lists. Every compared case with different lists is recorded. Nothing is recorded iff no compared case has different lists. |
| `Alignment.ListErrorOf` | tests/test_uco_monolithic.py:149-150 | A case has no list error iff both of its lists materialise. When the SHACL list fails, its error is the one reported, since it is materialised first. |
| `Alignment.ScreenRows` | tests/test_uco_monolithic.py:127-139 | It succeeds iff there is at least one row and every row passes screening. On success the cases are exactly the rows. Otherwise it names the first failing row and its fault, or it reports that there were no rows. |
| `Alignment.CompareCases` | tests/test_uco_monolithic.py:141-158 | It succeeds iff every case with two different heads materialises both lists. The recorded set is then exactly the mismatches. On failure the error is the list error of some compared case. |
| `Alignment.AlignmentCheck` | tests/test_uco_monolithic.py:127-160 | The test passes iff there are rows, all pass screening, and every row with different heads has two equal member lists. It fails with mismatches iff the rows pass screening, every compared list materialises, and some compared pair differs; the reported set is exactly the mismatches. It aborts with "no rows" iff there are none, with a bad row only at the first row that fails screening and with its fault, and with a list error iff screening passes and some compared list does not materialise, the error being that list's. |
| `Alignment.NoMismatches` | tests/test_uco_monolithic.py:141-160 | When every compared case materialises, nothing is recorded iff every compared case's two lists are equal. |
| `Alignment.SkippedNeverReported` | tests/test_uco_monolithic.py:145-158 | Every recorded mismatch comes from a case with two different heads, and its two member lists differ. |
| `MaxDatatype.DatatypesFor` | tests/test_uco_monolithic.py:54-64 | A datatype is counted for (class, path) iff some `sh:property` shape of the class with that `sh:path` declares it with `sh:datatype`. |
| `MaxDatatype.Violations` | tests/test_uco_monolithic.py:50-68 | Every reported (class, path, n) has n equal to the number of distinct datatypes of the pair, and n > 1. |
| `MaxDatatype.ViolationsExactly` | tests/test_uco_monolithic.py:50-68 | (class, path, n) is reported iff n is the number of distinct datatypes for the pair and n > 1. |
| `MaxDatatype.PassesIffAtMostOne` | tests/test_uco_monolithic.py:50-72 | Nothing is reported iff every (class, path) pair has at most one distinct datatype. |
| `MaxDatatype.ShapeWithTwoDatatypesReported` | tests/test_uco_monolithic.py:54-67 | A property shape with a path and two different `sh:datatype` values is reported for its class and path, with a tally of at least 2. |
| `MaxDatatype.CollectTallies` | tests/test_uco_monolithic.py:70-72 | The computed set holds exactly the query rows. The test passes iff there are none. |
| `MaxDatatype.MaxDatatypeCheck` | tests/test_uco_monolithic.py:43-72 | Given the grouped query's rows for the graph, the test passes iff no (class, path) pair has two distinct datatypes. |

## Left out

- Loading the Turtle fixture and the check that it is non-empty (`tests/test_uco_monolithic.py:26-31`). This is file I/O and a foreign parser. The graph is a parameter.
- SPARQL evaluation (`tests/test_uco_monolithic.py:50-69`, `111-126`). This is an external query engine. The alignment query's rows are a given input. For the max-datatype test, the grouped query is restated over triples (`Violations`). `MaxDatatypeCheck` takes as given that the engine's rows are exactly those.
- `tests/examples/test_validation.py` is not part of this model. It only loads SHACL validation-report fixtures and compares sets of query rows.
- The debug logging calls (`tests/test_uco_monolithic.py:152-155`) and the pytest fixture machinery. They have no effect on the outcome. The `xfail` markers are in `tests/examples/test_validation.py` (lines 179, 203, 241), which is not part of this model.
- The `is` test at `tests/test_uco_monolithic.py:145` is modelled as node equality.
- Python's recursion depth limit. Running out of fuel (`Unbounded`) stands for the recursion that never ends on a cyclic chain. A long acyclic list that would exceed Python's stack is materialised in full.
- Literals carry only their lexical form. rdflib also compares a literal's datatype and language tag.
- CompareCases: Python iterates the set of test cases in an unspecified order, so the model picks cases nondeterministically. When several cases fail, the contract only says the error comes from one of them, not which one.
- The order in which the store enumerates triples is the order of each index entry. Real stores do not specify this order. The model fixes some order, and `MaterialiseOrderIndependent` shows that it matters only when a node has several `rdf:first` or `rdf:rest` triples.

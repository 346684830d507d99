/**
 * What the deleted-relationship builder promises about the statement it
 * builds: the no-op case, one row per edge, the contents of each row, the
 * two parameters, the shape of the query and the locking expectation, with
 * the first edge standing for the whole batch.
 */
module DeletedRelationshipProperties {
  import opened Wrappers
  import opened Model
  import opened Request
  import opened DeletedRelationships

  /** The edges of a batch are pairwise different, as the members of a set are. */
  predicate Distinct(edges: seq<Edge>) {
    forall i, j :: 0 <= i < j < |edges| ==> edges[i] != edges[j]
  }

  ghost function EdgeSet(edges: seq<Edge>): set<Edge> {
    set e | e in edges
  }

  /** How many edges of a batch carry a version property. */
  function VersionedEdgeCount(edges: seq<Edge>): nat {
    if edges == [] then 0
    else VersionedEdgeCount(edges[..|edges| - 1]) + (if edges[|edges| - 1].HasVersionProperty() then 1 else 0)
  }

  /** Every edge of the batch is versioned exactly when the first one is. */
  predicate UniformVersioning(edges: seq<Edge>)
    requires |edges| > 0
  {
    forall i :: 0 <= i < |edges| ==> edges[i].HasVersionProperty() == edges[0].HasVersionProperty()
  }

  // ---------------------------------------------------------------------
  // Rows

  lemma {:induction false} RowsOfAt(edges: seq<Edge>, k: nat)
    requires k < |edges|
    ensures RowsOf(edges)[k] == RowOf(edges[k])
  {
    var n := |edges|;
    if k < n - 1 {
      RowsOfAt(edges[..n - 1], k);
    }
  }

  lemma {:induction false} DistinctCardinality(edges: seq<Edge>)
    requires Distinct(edges)
    ensures |EdgeSet(edges)| == |edges|
  {
    if edges != [] {
      var n := |edges|;
      var prefix := edges[..n - 1];
      assert Distinct(prefix);
      DistinctCardinality(prefix);
      assert EdgeSet(edges) == EdgeSet(prefix) + {edges[n - 1]};
      assert edges[n - 1] !in EdgeSet(prefix);
    }
  }

  /** A null or empty edge set gives an empty query, no parameters and no locking expectation. */
  lemma EmptyInputIsNoOp(deletedEdges: Option<seq<Edge>>, check: VersionCheck)
    requires deletedEdges.None? || deletedEdges.value == []
    ensures BuildStatement(deletedEdges, check).query == ""
    ensures BuildStatement(deletedEdges, check).parameters == map[]
    ensures BuildStatement(deletedEdges, check).lockingConfig.None?
  {
  }

  /** The `rows` parameter lists one row per edge, in iteration order. */
  lemma OneRowPerEdge(edges: seq<Edge>, check: VersionCheck, k: nat)
    requires k < |edges|
    ensures var s := BuildStatement(Some(edges), check);
      && RowsKey in s.parameters
      && s.parameters[RowsKey] == RowList(s.parameters[RowsKey].rows)
      && |s.parameters[RowsKey].rows| == |edges|
      && s.parameters[RowsKey].rows[k] == RowOf(edges[k])
  {
    RowsOfAt(edges, k);
  }

  /** For a batch of pairwise different edges, the number of rows is the size of the edge set. */
  lemma RowCountIsSetSize(edges: seq<Edge>, check: VersionCheck)
    requires |edges| > 0 && Distinct(edges)
    ensures var s := BuildStatement(Some(edges), check);
      RowsKey in s.parameters && |s.parameters[RowsKey].rows| == |EdgeSet(edges)|
  {
    DistinctCardinality(edges);
  }

  /**
   * Row k maps `relId` to the id of edge k, carries the version pair exactly
   * when edge k is versioned, and holds nothing else. The version key is
   * assumed not to be `relId` itself (see VersionKeyRelIdReplacesId).
   */
  lemma RowContents(edges: seq<Edge>, check: VersionCheck, k: nat)
    requires k < |edges|
    requires edges[k].HasVersionProperty() ==> edges[k].version.value.key != RelIdKey
    ensures var row := BuildStatement(Some(edges), check).parameters[RowsKey].rows[k];
      var e := edges[k];
      && RelIdKey in row && row[RelIdKey] == Num(e.id)
      && (row.Keys != {RelIdKey} <==> e.HasVersionProperty())
      && (e.HasVersionProperty() ==>
            row.Keys == {RelIdKey, e.version.value.key} && row[e.version.value.key] == e.version.value.value)
  {
    OneRowPerEdge(edges, check, k);
    var e := edges[k];
    if e.HasVersionProperty() {
      assert e.version.value.key in RowOf(e).Keys;
    }
  }

  /** The row of an edge whose version property is named `relId` loses the id: the version value replaces it. */
  lemma VersionKeyRelIdReplacesId(e: Edge)
    requires e.HasVersionProperty() && e.version.value.key == RelIdKey
    ensures RowOf(e) == map[RelIdKey := e.version.value.value]
  {
  }

  // ---------------------------------------------------------------------
  // Parameters and query

  /** A non-empty batch binds exactly the two parameters `rows` and `type`, the latter to "rel". */
  lemma ParametersAreRowsAndType(edges: seq<Edge>, check: VersionCheck)
    requires |edges| > 0
    ensures var s := BuildStatement(Some(edges), check);
      && s.parameters.Keys == {RowsKey, TypeKey}
      && s.parameters[TypeKey] == Scalar(Text(RelDiscriminator))
      && s.parameters[RowsKey] == RowList(RowsOf(edges))
  {
  }

  /**
   * The query of a non-empty batch is the match clause, then the version
   * check of the first edge if it is versioned, then the delete clause.
   */
  lemma QueryShape(edges: seq<Edge>, check: VersionCheck)
    requires |edges| > 0
    ensures var q := BuildStatement(Some(edges), check).query;
      && (edges[0].HasVersionProperty() ==> q == MatchClause + check(edges[0], RelVariable) + DeleteClause)
      && (!edges[0].HasVersionProperty() ==> q == MatchClause + DeleteClause)
  {
  }

  /** The query text depends on the first edge only, never on the rest of the batch. */
  lemma QueryDependsOnFirstEdgeOnly(edges: seq<Edge>, others: seq<Edge>, check: VersionCheck)
    requires |edges| > 0 && |others| > 0 && edges[0] == others[0]
    ensures BuildStatement(Some(edges), check).query == BuildStatement(Some(others), check).query
  {
  }

  // ---------------------------------------------------------------------
  // Optimistic locking

  /**
   * When the first edge is versioned, the statement expects one result per
   * row, names the first edge's type only and checks its version key.
   */
  lemma LockingConfigOfVersionedBatch(edges: seq<Edge>, check: VersionCheck)
    requires |edges| > 0 && edges[0].HasVersionProperty()
    ensures var s := BuildStatement(Some(edges), check);
      && s.lockingConfig == Some(OptimisticLockingConfig(|edges|, [edges[0].relType], edges[0].version.value.key))
      && s.lockingConfig.value.expectedResultsCount == |s.parameters[RowsKey].rows|
  {
  }

  /** When the first edge is not versioned there is no locking expectation, whatever the other edges carry. */
  lemma NoLockingUnlessFirstVersioned(edges: seq<Edge>, check: VersionCheck)
    requires |edges| > 0 && !edges[0].HasVersionProperty()
    ensures BuildStatement(Some(edges), check).lockingConfig.None?
  {
  }

  /** Any locking expectation the builder attaches counts exactly the rows of the statement. */
  lemma LockingCountIsRowCount(deletedEdges: Option<seq<Edge>>, check: VersionCheck)
    ensures var s := BuildStatement(deletedEdges, check);
      s.lockingConfig.Some? ==>
        && RowsKey in s.parameters
        && s.lockingConfig.value.expectedResultsCount == |s.parameters[RowsKey].rows|
  {
  }

  lemma {:induction false} UniformCount(edges: seq<Edge>, versioned: bool)
    requires forall i :: 0 <= i < |edges| ==> edges[i].HasVersionProperty() == versioned
    ensures VersionedEdgeCount(edges) == if versioned then |edges| else 0
  {
    if edges != [] {
      UniformCount(edges[..|edges| - 1], versioned);
    }
  }

  /**
   * When versioning is uniform across the batch, a locking expectation is
   * attached exactly when some row carries a version, and its count is the
   * number of versioned rows.
   */
  lemma {:induction false} UniformVersioningLockingCount(edges: seq<Edge>, check: VersionCheck)
    requires |edges| > 0 && UniformVersioning(edges)
    ensures var s := BuildStatement(Some(edges), check);
      && (s.lockingConfig.Some? <==> VersionedEdgeCount(edges) > 0)
      && (s.lockingConfig.Some? ==> s.lockingConfig.value.expectedResultsCount == VersionedEdgeCount(edges))
  {
    UniformCount(edges, edges[0].HasVersionProperty());
  }

  /**
   * A mixed batch whose first edge is unversioned: a later versioned edge
   * still sends its version in its row, but the query never checks it and
   * no locking expectation is attached.
   */
  lemma MixedBatchIsUnchecked(edges: seq<Edge>, check: VersionCheck, k: nat)
    requires 0 < k < |edges|
    requires !edges[0].HasVersionProperty() && edges[k].HasVersionProperty()
    requires edges[k].version.value.key != RelIdKey
    ensures var s := BuildStatement(Some(edges), check);
      var version := edges[k].version.value;
      && s.lockingConfig.None?
      && s.query == MatchClause + DeleteClause
      && version.key in s.parameters[RowsKey].rows[k]
      && s.parameters[RowsKey].rows[k][version.key] == version.value
  {
    RowContents(edges, check, k);
  }

  /** Two versioned KNOWS edges give two rows with their versions and a locking expectation of two. */
  lemma TwoVersionedEdges(check: VersionCheck)
    ensures var edges := [Edge(10, "KNOWS", Some(Property("v", Num(3)))), Edge(11, "KNOWS", Some(Property("v", Num(1))))];
      var s := BuildStatement(Some(edges), check);
      && s.parameters[RowsKey] == RowList([map[RelIdKey := Num(10), "v" := Num(3)], map[RelIdKey := Num(11), "v" := Num(1)]])
      && s.lockingConfig == Some(OptimisticLockingConfig(2, ["KNOWS"], "v"))
  {
  }
}

/**
 * The statement builder for relationships deleted in a unit of work. It
 * compiles the whole set of deleted edges into one batched statement that
 * unwinds a list of rows, matches each relationship by its id, optionally
 * checks its version, and deletes it.
 */
module DeletedRelationships {
  import opened Wrappers
  import opened Model
  import opened Request

  /** Name of the row column that carries the relationship id. */
  const RelIdKey := "relId"
  /** Name of the parameter holding the list of rows. */
  const RowsKey := "rows"
  /** Name of the parameter holding the result discriminator. */
  const TypeKey := "type"
  /** The discriminator value that marks result rows as relationships. */
  const RelDiscriminator := "rel"
  /** The query variable bound to the matched relationship. */
  const RelVariable := "r"

  const MatchClause := "UNWIND {rows} AS row MATCH ()-[r]-() WHERE ID(r) = row.relId "
  const DeleteClause := "DELETE r RETURN ID(r) as ref, ID(r) as id, {type} as type"

  /**
   * The version-check fragment appended for a versioned edge and a query
   * variable. Its text is produced by the builders' shared base class, which
   * is not part of this model, so the builder receives it as a parameter.
   */
  type VersionCheck = (Edge, string) -> string

  /** The parameter row of one deleted edge: its id, then its version pair if it has one. */
  function RowOf(e: Edge): Row {
    var row := map[RelIdKey := Num(e.id)];
    if e.HasVersionProperty() then row[e.version.value.key := e.version.value.value] else row
  }

  /** The rows of a sequence of edges, built in iteration order. */
  function RowsOf(edges: seq<Edge>): (rows: seq<Row>)
    ensures |rows| == |edges|
  {
    if edges == [] then [] else RowsOf(edges[..|edges| - 1]) + [RowOf(edges[|edges| - 1])]
  }

  /** The query text for a non-empty batch whose first edge is `first`. */
  function DeleteQuery(first: Edge, check: VersionCheck): string {
    MatchClause + (if first.HasVersionProperty() then check(first, RelVariable) else "") + DeleteClause
  }

  /**
   * The statement the builder produces. A null or empty edge set gives an
   * empty statement; otherwise the first edge alone decides whether the
   * version check and the locking expectation apply to the whole batch.
   */
  function BuildStatement(deletedEdges: Option<seq<Edge>>, check: VersionCheck): Statement {
    if deletedEdges.None? || |deletedEdges.value| == 0 then
      Statement("", map[], None)
    else
      var edges := deletedEdges.value;
      var first := edges[0];
      var rows := RowsOf(edges);
      var parameters := map[RowsKey := RowList(rows), TypeKey := Scalar(Text(RelDiscriminator))];
      var config :=
        if first.HasVersionProperty()
        then Some(OptimisticLockingConfig(|rows|, [first.relType], first.version.value.key))
        else None;
      Statement(DeleteQuery(first, check), parameters, config)
  }

  /**
   * A builder constructed for one set of deleted edges. `deletedEdges` is
   * None when the caller passes no set; the sequence lists the set's edges in
   * its iteration order.
   */
  class DeletedRelationshipEntityStatementBuilder {
    const deletedEdges: Option<seq<Edge>>
    const versionCheck: VersionCheck

    constructor (deletedEdges: Option<seq<Edge>>, versionCheck: VersionCheck)
      ensures this.deletedEdges == deletedEdges && this.versionCheck == versionCheck
    {
      this.deletedEdges := deletedEdges;
      this.versionCheck := versionCheck;
    }

    /** Assembles the query, fills one row per edge and attaches the locking expectation. */
    method Build() returns (s: Statement)
      ensures s == BuildStatement(deletedEdges, versionCheck)
    {
      var parameters: map<string, Param> := map[];
      var queryBuilder: string := "";

      if deletedEdges.Some? && |deletedEdges.value| > 0 {
        var edges := deletedEdges.value;
        var firstEdge := edges[0];

        queryBuilder := queryBuilder + MatchClause;
        if firstEdge.HasVersionProperty() {
          queryBuilder := queryBuilder + versionCheck(firstEdge, RelVariable);
        }
        queryBuilder := queryBuilder + DeleteClause;

        var rows: seq<Row> := [];
        var i := 0;
        while i < |edges|
          invariant 0 <= i <= |edges|
          invariant rows == RowsOf(edges[..i])
        {
          var edge := edges[i];
          var rowMap: Row := map[];
          rowMap := rowMap[RelIdKey := Num(edge.id)];
          if edge.HasVersionProperty() {
            var version := edge.version.value;
            rowMap := rowMap[version.key := version.value];
          }
          assert edges[..i + 1][..i] == edges[..i];
          rows := rows + [rowMap];
          i := i + 1;
        }
        assert edges[..i] == edges;
        parameters := parameters[RowsKey := RowList(rows)];
        parameters := parameters[TypeKey := Scalar(Text(RelDiscriminator))];

        if firstEdge.HasVersionProperty() {
          var olConfig := OptimisticLockingConfig(|rows|, [firstEdge.relType], firstEdge.version.value.key);
          return Statement(queryBuilder, parameters, Some(olConfig));
        }
      }

      return Statement(queryBuilder, parameters, None);
    }
  }
}

# Deleted-relationship statement builder

A Dafny model of the part of the object-graph mapper's Cypher statement compiler that turns a set of deleted relationships (edges) into a single batched, parameterised delete statement, together with proofs of what that statement contains.

The builder receives the deleted edges and a statement factory. If the set is null or empty, it returns a statement with an empty query and no parameters. Otherwise it does five things:

- It writes a query that unwinds a `rows` list, matches each relationship by `ID(r) = row.relId`, and deletes it. The result projects `ref`, `id` and a `{type}` discriminator.
- It builds one row per edge. Each row holds `relId` and, if that edge is versioned, the edge's version key/value pair.
- It binds the rows to `rows` and the string `"rel"` to `type`.
- It looks only at the **first** edge to decide whether to append a version check to the query.
- It makes the same first-edge decision about attaching an optimistic-locking expectation. That expectation holds the row count, the first edge's relationship type and its version key.

Files:

- `wrappers.dfy`: `Option`, which stands in for Java's nullable references.
- `model.dfy`: property values, `Property` and `Edge`. An edge has an id, a relationship type and an optional version property.
- `request.dfy`: parameter rows, `Param`, `OptimisticLockingConfig` and `Statement`.
- `deleted_relationship_builder.dfy`: the specification function `BuildStatement` and the class `DeletedRelationshipEntityStatementBuilder`. The class's `Build` method has the source's imperative shape. It appends to a query string, fills a row per edge in a loop, and puts the two parameters into a map. It is proved to return exactly `BuildStatement` of its inputs.
- `deleted_relationship_properties.dfy`: lemmas about `BuildStatement`.

Modelling choices:

- The Java `Set<Edge>` is an `Option<seq<Edge>>`. `None` stands for a null set. The sequence lists the set's members in iteration order, so "the first edge" is the first element. The only lemma that needs the members to be pairwise different is the one relating the row count to the set's size.
- The version-check fragment comes from a base-class method whose text is not part of this model. It is passed to the builder as a function value `(Edge, string) -> string` and left uninterpreted.
- The statement factory is modelled as the `Statement` record constructor. Its `lockingConfig` is `None` for the two-argument factory call and `Some` for the three-argument one.
- The rows are built in the source's order: `relId` is put first, then the version pair. So a version property named `relId` replaces the id in its row. `VersionKeyRelIdReplacesId` states this, and `RowContents` assumes the version key is something else.
- The query uses the code's `{rows}`/`{type}` parameter syntax and leaves the version predicate to the base class.
- The builder applies the first-edge rule without checking that the batch is uniform, and the model does the same. `UniformVersioningLockingCount` proves what holds when versioning is uniform. `MixedBatchIsUnchecked` shows what happens to a mixed batch: a later edge's version is sent in its row but is never checked.

## Model

| member | source | states |
|---|---|---|
| `DeletedRelationships.DeletedRelationshipEntityStatementBuilder.constructor` | core/src/main/java/org/neo4j/ogm/cypher/compiler/builders/statement/DeletedRelationshipEntityStatementBuilder.java:39-42 | the builder keeps the edge set and the version-check fragment it was given |
| `DeletedRelationships.DeletedRelationshipEntityStatementBuilder.Build` | core/src/main/java/org/neo4j/ogm/cypher/compiler/builders/statement/DeletedRelationshipEntityStatementBuilder.java:45-81 | the statement assembled by the query appends, the row loop and the parameter puts is exactly the specified statement `BuildStatement` of the builder's edges |
| `DeletedRelationships.RowsOf` | core/src/main/java/org/neo4j/ogm/cypher/compiler/builders/statement/DeletedRelationshipEntityStatementBuilder.java:60-69 | the row list has as many rows as there are edges |
| `DeletedRelationshipProperties.RowsOfAt` | core/src/main/java/org/neo4j/ogm/cypher/compiler/builders/statement/DeletedRelationshipEntityStatementBuilder.java:60-69 | row k of the list is the row of edge k, so the rows follow iteration order |
| `DeletedRelationshipProperties.DistinctCardinality` | core/src/main/java/org/neo4j/ogm/cypher/compiler/builders/statement/DeletedRelationshipEntityStatementBuilder.java:37 | a duplicate-free edge sequence has as many elements as the set it lists |
| `DeletedRelationshipProperties.EmptyInputIsNoOp` | core/src/main/java/org/neo4j/ogm/cypher/compiler/builders/statement/DeletedRelationshipEntityStatementBuilder.java:47-50 | a null or empty edge set yields an empty query, an empty parameter map and no locking config |
| `DeletedRelationshipProperties.OneRowPerEdge` | core/src/main/java/org/neo4j/ogm/cypher/compiler/builders/statement/DeletedRelationshipEntityStatementBuilder.java:60-70 | for a non-empty batch, `rows` is a row list with one row per edge, row k being edge k's row |
| `DeletedRelationshipProperties.RowCountIsSetSize` | core/src/main/java/org/neo4j/ogm/cypher/compiler/builders/statement/DeletedRelationshipEntityStatementBuilder.java:60-70 | for a non-empty set, the number of rows equals the set's size |
| `DeletedRelationshipProperties.RowContents` | core/src/main/java/org/neo4j/ogm/cypher/compiler/builders/statement/DeletedRelationshipEntityStatementBuilder.java:62-67 | each row maps `relId` to its edge's id; it has a key besides `relId` if and only if its own edge is versioned, and then exactly the version key bound to the version value |
| `DeletedRelationshipProperties.VersionKeyRelIdReplacesId` | core/src/main/java/org/neo4j/ogm/cypher/compiler/builders/statement/DeletedRelationshipEntityStatementBuilder.java:62-66 | a version property named `relId` overwrites the id in its row, because it is put second |
| `DeletedRelationshipProperties.ParametersAreRowsAndType` | core/src/main/java/org/neo4j/ogm/cypher/compiler/builders/statement/DeletedRelationshipEntityStatementBuilder.java:70-71 | a non-empty batch binds exactly `rows` (to the row list) and `type` (to "rel") |
| `DeletedRelationshipProperties.QueryShape` | core/src/main/java/org/neo4j/ogm/cypher/compiler/builders/statement/DeletedRelationshipEntityStatementBuilder.java:53-58 | the query is the UNWIND/MATCH prefix, then the first edge's version check only if it is versioned, then the DELETE/RETURN suffix |
| `DeletedRelationshipProperties.QueryDependsOnFirstEdgeOnly` | core/src/main/java/org/neo4j/ogm/cypher/compiler/builders/statement/DeletedRelationshipEntityStatementBuilder.java:51-57 | two non-empty batches with the same first edge get the same query text |
| `DeletedRelationshipProperties.LockingConfigOfVersionedBatch` | core/src/main/java/org/neo4j/ogm/cypher/compiler/builders/statement/DeletedRelationshipEntityStatementBuilder.java:73-76 | a versioned first edge attaches a locking config whose count is the number of rows, whose types are exactly the first edge's type and whose key is its version key |
| `DeletedRelationshipProperties.NoLockingUnlessFirstVersioned` | core/src/main/java/org/neo4j/ogm/cypher/compiler/builders/statement/DeletedRelationshipEntityStatementBuilder.java:73-80 | an unversioned first edge attaches no locking config, whatever the later edges carry |
| `DeletedRelationshipProperties.LockingCountIsRowCount` | core/src/main/java/org/neo4j/ogm/cypher/compiler/builders/statement/DeletedRelationshipEntityStatementBuilder.java:74-75 | for every input, an attached locking config expects exactly as many results as the statement has rows |
| `DeletedRelationshipProperties.UniformVersioningLockingCount` | core/src/main/java/org/neo4j/ogm/cypher/compiler/builders/statement/DeletedRelationshipEntityStatementBuilder.java:73-76 | when versioning is uniform across the batch, a locking config is attached if and only if some row is versioned, and its count equals the number of versioned rows |
| `DeletedRelationshipProperties.MixedBatchIsUnchecked` | core/src/main/java/org/neo4j/ogm/cypher/compiler/builders/statement/DeletedRelationshipEntityStatementBuilder.java:51-80 | in every batch whose first edge is unversioned, each later versioned edge (its version key not being `relId`) has its version pair in its row, while the query is the plain match-and-delete text and no locking config is attached |
| `DeletedRelationshipProperties.TwoVersionedEdges` | core/src/main/java/org/neo4j/ogm/cypher/compiler/builders/statement/DeletedRelationshipEntityStatementBuilder.java:60-76 | two versioned KNOWS edges with ids 10 and 11 and versions 3 and 1 give rows {relId:10, v:3} and {relId:11, v:1} and a locking config (2, [KNOWS], v) |

## Left out

- The text of the version-check fragment: it comes from the builders' shared base class, which is not part of this model. The builder takes it as an uninterpreted function of the first edge and the variable `r`.
- The statement factory implementations: they are not part of this model. A statement is the record of query, parameters and optional locking config that the factory is given.
- Null edge ids: edge ids are integers here. The source would put a null id into the row unchanged.
- Edge identity: Java set members are distinct objects. Here they are distinct values, so two edge objects with equal id, type and version are one element.
- Hash-map and hash-set internals: parameters and rows are Dafny maps, and the set's iteration order is the order of the sequence.
- The other statement builders, the statement compiler that orders their statements, and post-execution checking of locking expectations against returned row counts are not part of this model.

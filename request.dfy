/**
 * What a statement builder hands to the transport: the statement with its
 * query text, its parameters and an optional optimistic-locking expectation.
 */
module Request {
  import opened Wrappers
  import opened Model

  /** One parameter row: column name to value. */
  type Row = map<string, Value>

  /** A statement parameter: either a list of rows to UNWIND or a single value. */
  datatype Param = RowList(rows: seq<Row>) | Scalar(v: Value)

  /**
   * The number of rows a statement is expected to touch, the relationship or
   * label types involved and the version property checked. The executor
   * compares the expected count with the rows actually returned.
   */
  datatype OptimisticLockingConfig =
    OptimisticLockingConfig(expectedResultsCount: int, types: seq<string>, versionProperty: string)

  /** A parameterised statement, as the statement factory builds it. */
  datatype Statement =
    Statement(query: string, parameters: map<string, Param>, lockingConfig: Option<OptimisticLockingConfig>)
}

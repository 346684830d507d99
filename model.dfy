/**
 * The change model the statement builders consume: property values,
 * properties and relationship (edge) descriptors.
 */
module Model {
  import opened Wrappers

  /** An already-converted property value: a scalar, an array of scalars, or null. */
  datatype Value =
    | Null
    | Num(n: int)
    | Text(s: string)
    | Bool(b: bool)
    | Array(items: seq<Value>)

  /** A key/value pair of a node or relationship. */
  datatype Property = Property(key: string, value: Value)

  /**
   * A relationship that changed during a unit of work: its database id, its
   * relationship type and, when the relationship class is versioned, the
   * version property used for optimistic locking.
   */
  datatype Edge = Edge(id: int, relType: string, version: Option<Property>)
  {
    predicate HasVersionProperty() {
      version.Some?
    }
  }
}

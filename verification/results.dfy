/** Small failure-carrying datatypes shared by the graph model. */
module Results {

  /** A value that may be absent. */
  datatype Option<T> = None | Some(value: T)

  /** Why an entry of a parsed document cannot become a node or an edge. */
  datatype Failure =
      /** the entry lacks a key the load reads or deletes */
    | MissingKey(key: string)
      /** the entry still holds a key the load also passes explicitly to the
          constructor, so the keyword arrives twice */
    | RepeatedKeyword(key: string)

  /** The outcome of converting an entry: the value, or why it failed. */
  datatype Result<T> = Ok(value: T) | Err(failure: Failure)
}

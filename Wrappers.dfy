/** The optional values the buy page receives from its remote queries. */
module Wrappers {

  /** A value that may be absent (a query that has not resolved, or resolved to a non-number). */
  datatype Option<+T> = None | Some(value: T)
}

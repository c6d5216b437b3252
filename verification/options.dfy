/** The optional value returned by a query that may find no row. */
module Options {

  /** `None` stands for Python's `None` (no row fetched, no record found). */
  datatype Option<+T> = None | Some(value: T)
}

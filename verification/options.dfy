/** The optional value returned by the store's lookups (Python's `None` or a record). */
module Options {

  datatype Option<+T> = None | Some(value: T)
}

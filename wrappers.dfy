/** The optional value returned by the page fetcher (Python's `str | None`). */
module Wrappers {

  datatype Option<+T> = None | Some(value: T)
}

/** The `T.Optional[str]` results of the search: a value or Python's `None`. */
module Optional {
  datatype Option<T> = None | Some(value: T)
}

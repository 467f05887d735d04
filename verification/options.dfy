/** The optional value that stands in for Java's `null` returns. */
module Options {

  /** `None` is the model of a `null` reference; `Some(v)` of a real one. */
  datatype Option<+T> = None | Some(value: T)

}

/** Small result types shared by the modules of this model. */
module Wrappers {

  datatype Option<+T> = None | Some(value: T)

  /** How a Python method of the adapters ends: it returns a boolean, or an
      exception escapes it (a name error on an unbound local, an index error
      that no `try` catches, ...). */
  datatype Exit = Return(value: bool) | Raise {
    predicate Succeeded() { this == Return(true) }
  }
}

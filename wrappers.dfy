/** The optional value that stands for a Kotlin nullable result (`String?`) or for a
    library call that either returns a value or throws. */
module Wrappers {

  datatype Option<+T> = None | Some(value: T)
}

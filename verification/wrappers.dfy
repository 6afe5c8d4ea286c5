/** The one failure-carrying datatype the model needs: a value that may be absent
    (a null pointer, a thrown-and-caught exception, a `false` return). */
module Wrappers {

  datatype Option<+T> = None | Some(value: T)
}

/** The failure-compatible Option type used by the parsers of this model:
    `None` stands for a parse that the Rust handler turns into a panic. */
module Wrappers {

  datatype Option<+T> = None | Some(value: T) {

    /** A `:-` step stops at None. */
    predicate IsFailure() {
      None?
    }

    /** The None that a stopped `:-` step hands on, at the caller's type. */
    function PropagateFailure<U>(): Option<U>
      requires None?
    {
      None
    }

    /** The value a successful `:-` step binds. */
    function Extract(): T
      requires Some?
    {
      value
    }
  }
}

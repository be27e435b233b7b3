/** The optional value the ingestion code expresses with Python's `None`. */
module Wrappers {

  /** `None` or a value; usable with `:-` so that a failed step yields `None`. */
  datatype Option<T> = None | Some(value: T) {

    predicate IsFailure() {
      None?
    }

    function PropagateFailure<U>(): Option<U>
      requires None?
    {
      None
    }

    function Extract(): T
      requires Some?
    {
      value
    }
  }
}

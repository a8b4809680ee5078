/** Optional values, fallible results and addresses, shared by every component. */
module Wrappers {
  /** Addresses are totally ordered: the ledger's maps iterate in key order. */
  type Address = nat

  /** Usable with `:-`, which stops at the first missing value. */
  datatype Option<+T> = None | Some(value: T) {
    predicate IsFailure() {
      None?
    }

    function PropagateFailure<U>(): Option<U>
      requires None?
    {
      None
    }

    function Extract(): T
      requires Some?
    {
      value
    }
  }

  datatype Result<+T, +E> = Success(value: T) | Failure(error: E)
}

/** Failure-compatible wrappers shared by the modules of this model. */
module Common {

  datatype Option<+T> = None | Some(value: T)

  /** The outcome of an operation that either produces a value or fails with an error. */
  datatype Result<+T, +E> = Ok(value: T) | Err(error: E) {
    predicate IsFailure() { Err? }

    function PropagateFailure<U>(): Result<U, E>
      requires Err?
    {
      Err(error)
    }

    function Extract(): T
      requires Ok?
    {
      value
    }
  }

  /** An unsigned 64-bit integer (`uint64_t`, `size_t` on 64-bit platforms). */
  newtype uint64 = x: int | 0 <= x < 0x1_0000_0000_0000_0000

  /** A non-empty sequence is its prefix without the last element followed by that element. */
  lemma InitLast<T>(s: seq<T>)
    requires s != []
    ensures s[..|s| - 1] + [s[|s| - 1]] == s
  {
  }
}

/** Optional values, the faults the C# code can raise, and results that carry them. */
module Wrappers {

  datatype Option<+T> = None | Some(value: T)

  /** The exceptions the source can raise.
      KeyNotFound is the one user-facing failure (removing an absent key);
      InvariantViolation stands for the `throw new Exception()` guards of the
      node constructors, Merge, MergeWithRoot and RebuildRoot;
      IndexOutOfRange and NullReference are the runtime exceptions of a list
      index or a `!` dereference that fails;
      NoTermination marks a descent, climb or recursion that would never end. */
  datatype Fault =
    | KeyNotFound
    | InvariantViolation
    | IndexOutOfRange
    | NullReference
    | NoTermination

  datatype Result<+T> = Ok(value: T) | Err(fault: Fault)
}

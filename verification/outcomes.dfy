/** The failures the processing pipeline can raise, and a failure-compatible
    result type so that steps can be chained with `:-`. */
module Outcomes {
  import opened Tables

  datatype Option<+T> = None | Some(value: T)

  datatype Error =
    /** KeyError: a column lookup or a strict drop names columns that are absent. */
    | KeyNotFound(missing: seq<Name>)
    /** ValueError from DataFrame.insert with allow_duplicates=False. */
    | AlreadyExists(name: Name)
    /** IndexError from DataFrame.insert at a position past the last column. */
    | LocOutOfBounds(loc: nat, width: nat)
    /** ValueError from reindex: "cannot reindex on an axis with duplicate labels". */
    | DuplicateAxis
    /** AttributeError: the column lists were never set up. */
    | NotConfigured
    /** FileNotFoundError from the CSV reader. */
    | FileNotFound(path: string)

  datatype Result<+T> = Ok(value: T) | Err(error: Error) {
    predicate IsFailure() {
      Err?
    }

    function PropagateFailure<U>(): Result<U>
      requires Err?
    {
      Err(error)
    }

    function Extract(): T
      requires Ok?
    {
      value
    }
  }
}

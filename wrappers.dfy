/** Failure-compatible result types and the error taxonomy of the bulletin parser. */
module Wrappers {

  datatype Option<+T> = None | Some(value: T)

  /** The ways a bulletin run can fail; each names the exception the Python code raises. */
  datatype Error =
    | SectionMarkerNotFound       // IndexError: a subtotal marker row is absent
    | MalformedRow                // AttributeError: a facility name that is not a string
    | HeaderCellMissing           // IndexError: the sheet has no header row 4
    | HeaderNotText               // TypeError: the header cell is not a string
    | DateNotFound                // AttributeError: no DD/MM/20YY stamp in the header
    | InvalidDateFormat           // ValueError: strptime / fromisoformat rejects the text
    | NonNumericCount             // a summed count cell that is not a number
    | AggregationCardinality      // MergeError: a facility id repeated under validate='1:1'
    | TableNotFound               // KeyError: no table of that name
    | NoExtension                 // AttributeError: output name without a letters-only extension
    | DateHasNoTime               // AttributeError: `.date()` called on a plain date
    | UnsupportedFormat(path: string) // RuntimeError, after the file at `path` was opened
    | InvalidPolicy               // unknown existence policy
    | DuplicateRecord             // ValueError: the record exists and the policy is 'fail'
    | MultipleRowsMatch           // Anvil `get` finds more than one row
    | UpdateMissingFilter         // TypeError: `update_one(record)` without an update document

  datatype Result<+T> = Success(value: T) | Failure(error: Error) {
    predicate IsFailure() { Failure? }

    function PropagateFailure<U>(): Result<U>
      requires Failure?
    {
      Failure(error)
    }

    function Extract(): T
      requires Success?
    {
      value
    }
  }

  /** The result of an operation run only for its effect. */
  datatype Outcome = Pass | Fail(error: Error)
}

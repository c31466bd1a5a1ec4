/** Failure-carrying wrappers shared by the whole model, and the Python
    exceptions the modelled code can raise. */
module Results {

  /** A value that may be missing: SQL NULL, a dict lookup that found nothing. */
  datatype Option<+T> = None | Some(value: T) {
    predicate IsFailure() { None? }

    function PropagateFailure<U>(): Option<U>
      requires None?
    {
      None
    }

    function Extract(): T
      requires Some?
    {
      value
    }
  }

  /** Either a computed value or the exception that replaced it. */
  datatype Result<+T, +E> = Ok(value: T) | Err(error: E) {
    predicate IsFailure() { Err? }

    function PropagateFailure<U>(): Result<U, E>
      requires Err?
    {
      Err(error)
    }

    function Extract(): T
      requires Ok?
    {
      value
    }
  }

  /** The exceptions raised (and never caught) by the modelled code. */
  datatype PyError =
    | ValueError(input: string)             // strptime, datetime or int() rejected `input`
    | TypeError(detail: string)             // strptime was handed a non-string
    | KeyError(key: string)                 // dict or pandas lookup of a missing key
    | OverflowError                         // date arithmetic left years 1..9999
    | ArgumentTypeError(message: string)    // argparse rejected a command-line value
    | FileNotFoundError(path: string)       // blob-store read of a missing key
    | DecodeError(body: string)             // a body that is not a JSON list of objects
    | UnpicklingError(path: string)         // a stored blob that is not a model
}

/** Shared vocabulary: optional values, failure-compatible results, and the
    loosely typed field values that the database returns in EXPLAIN rows and
    configuration maps. */
module Base {

  datatype Option<+T> = None | Some(value: T)

  /** A result that is either a value or the error that aborted the computation
      (the model's stand-in for a Python exception). */
  datatype Result<+T, +E> = Ok(value: T) | Err(error: E) {

    predicate IsFailure() {
      Err?
    }

    function PropagateFailure<U>(): Result<U, E>
      requires Err?
    {
      Err(error)
    }

    function Extract(): T
      requires Ok?
    {
      value
    }
  }

  /** One field value of a database row. Numbers are kept in their textual
      form: the model never does arithmetic on them, it only passes them
      through or hands them to an integer coercion. */
  datatype Value = Null | Text(s: string) | Number(repr: string)

  /** The errors the modelled code can raise. */
  datatype Error =
    | MissingKey(key: string)   // a dictionary lookup `row[key]` on an absent key
}

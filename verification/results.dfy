/** Failures of the LinqToXml operations, modelled as values instead of .NET exceptions. */
module Results {

  /** The exceptions the operations can raise, grouped by cause. */
  datatype Error =
    | MissingElement    // a NullReferenceException: an expected child element or attribute is absent
    | MissingNamespace  // the ArgumentNullException of combining a null XNamespace with a local name
    | EmptyInput        // Aggregate without a seed over an empty sequence
    | MalformedInput    // List.CopyTo asked to read past the end of the token list
    | NotFound          // First found no matching element
    | FormatError       // Convert.ToInt32 could not read the string as a 32-bit integer
    | Overflow          // the checked addition inside Enumerable.Sum overflowed

  datatype Result<+T> = Ok(value: T) | Err(error: Error) {
    predicate IsFailure() { Err? }

    function PropagateFailure<U>(): Result<U>
      requires Err?
    {
      Err(error)
    }

    function Extract(): T
      requires Ok?
    {
      value
    }
  }

  datatype Option<+T> = None | Some(value: T)
}

/** Shared result types of the golink package: Go's `(value, error)` pairs
    become a Result, a nil-able pointer or a missing value becomes an Option,
    and every error the package can produce is one constructor of Error. */
module Errors {

  datatype Option<+T> = None | Some(value: T)

  /** Error values. Each constructor stands for one `fmt.Errorf` or library
      error of the source, carrying the values its message mentions. */
  datatype Error =
    | MissingChild(child: string, parent: string)  // "Unable to find child element ..."
    | IntSyntax(text: string)                       // strconv.ParseInt: invalid syntax
    | IntRange(text: string)                        // strconv.ParseInt: value out of range
    | BadTimestamp(text: string)                    // time.Parse with the layout "2006-01-02 15:04:05"
    | UnknownBool(text: string)                     // "Unknown bool literal value: ..."
    | NoKeyType                                     // "No key type returned from API server."
    | NoCharacterName                               // "Unable to extract a character name."
    | NoCorpName(name: string)                      // "Unable to extract a corp name for ..."
    | NoRowset                                      // "Unable to extract rowset from API response."
    | MissingAttribute(attr: string)                // "Missing attribute: ..."
    | Fetch(message: string)                        // an error reported by the request layer

  /** A value or the error that stopped its computation. */
  datatype Result<+T> = Ok(value: T) | Err(error: Error) {
    predicate IsFailure() { Err? }

    function PropagateFailure<U>(): Result<U>
      requires Err?
    {
      Err(error)
    }

    function Extract(): T
      requires Ok?
    {
      value
    }
  }

  /** A Go pair `(partial value, error)` where the value is still meaningful
      when the error is not nil. */
  datatype Partial<+T> = Partial(value: T, err: Option<Error>)
}

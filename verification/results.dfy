/** Error values and the success-or-error result that every repository operation returns. */
module Results {

  /** The errors the repository reports. Go returns them as `error` values; here they are data. */
  datatype Error =
    | EmptyDirectoryPath          // errors.New("directoryPath is empty")
    | NoSuchDirectory(dir: string) // os.ReadDir on a missing directory
    | NoSuchFile(path: string)     // os.Open on a missing file
    | CannotWrite(path: string)    // os.WriteFile when the parent directory is missing
    | Library(message: string)     // an error from the YAML, front-matter or markdown library

  datatype Option<+T> = None | Some(value: T)

  datatype Result<+T> = Ok(value: T) | Err(error: Error) {

    predicate IsFailure() {
      Err?
    }

    function PropagateFailure<U>(): Result<U>
      requires Err?
    {
      Err(error)
    }

    function Extract(): T
      requires Ok?
    {
      value
    }

    /** Go's `post, err = f()` followed by using `post` whatever `err` is: the zero value on failure. */
    function GetOr(zero: T): T {
      if Ok? then value else zero
    }
  }
}

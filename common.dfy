/** Value types shared by every part of the model: Python's optional values and the
    exceptions the plugin's code can raise, as an explicit result. */
module Common {

  datatype Option<+T> = None | Some(value: T)

  /** The Python exceptions that the modelled code lets escape. */
  datatype PyError =
    | IndexError   // a list index past the end (short MATCH record, empty candidate list)
    | ValueError   // tuple unpacking of a settings line that is not `key=value`
    | GError       // an icon the theme cannot load

  datatype Result<+T> = Ok(value: T) | Err(error: PyError) {
    predicate IsFailure() { Err? }

    function PropagateFailure<U>(): Result<U>
      requires Err?
    {
      Err(error)
    }

    function Extract(): T
      requires Ok?
    {
      value
    }
  }
}

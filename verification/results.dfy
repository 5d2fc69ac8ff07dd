/**
 * The failures the Python program can raise, the value-or-exception result of
 * each step, and the observable outcome of one command-line run.
 */
module Results {

  datatype Option<+T> = None | Some(value: T)

  /** Why an exception was raised; the message text itself is not modelled. */
  datatype Reason =
    | DateFormat       // the target date is not DDDD-DD-DD
    | DateValue        // strptime('%Y-%m-%d') rejects the target date
    | FileFormat       // header or first data row has the wrong shape
    | NoSuchFile       // the path is missing or not a regular file
    | RowShape         // unpacking a row into two fields fails
    | TimestampValue   // strptime('%Y-%m-%dT%H:%M:%S%z') rejects a row

  datatype Exception =
    | ValueError(reason: Reason)
    | RuntimeError(reason: Reason)
    | IndexError   // `line.split(',')[1]` on a line without a comma
    | OSError      // `open` refuses a file that exists, for instance for lack of permission

  datatype Result<+T> = Ok(value: T) | Err(error: Exception) {

    predicate IsFailure() {
      Err?
    }

    function PropagateFailure<U>(): Result<U>
      requires Err?
    {
      Err(error)
    }

    function Extract(): T
      requires Ok?
    {
      value
    }
  }

  datatype Channel = Stdout | Stderr

  /** What one run of `cli` does: print the winning cookies, report a caught
      exception on a channel and exit, or die with an uncaught exception. */
  datatype Outcome =
    | Emitted(cookies: seq<string>)
    | Reported(channel: Channel, error: Exception)
    | Crashed(error: Exception)

  /** `sys.exit(0)` after a report; Python exits with 1 on an uncaught exception. */
  function ExitStatus(o: Outcome): int {
    if o.Crashed? then 1 else 0
  }
}

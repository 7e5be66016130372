/** Result types that stand for the exceptions the priority queue raises. */
module Outcomes {

  /** The ways a queue operation can fail. */
  datatype QueueError =
    | Full        // insert on a queue whose size equals its capacity (IndexError)
    | Empty       // del_min or min on an empty queue (IndexError)
    | KeyAbsent   // change_key on a key the queue does not index (KeyError)
    | IndexOutOfRange  // a lookup past the end of the index (IndexError)

  /** Either a value or the error the operation raised. */
  datatype Result<+T> = Ok(value: T) | Err(error: QueueError)

  /** Success or the error the operation raised, for operations that return nothing. */
  datatype Outcome = Pass | Fail(error: QueueError)

  datatype Option<+T> = None | Some(value: T)
}

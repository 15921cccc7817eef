/** Success/failure values for the calls the autoscaler makes into its
    collaborators (metric source and orchestrator). Every such call in the
    program returns a Go `error` beside its value; here that pair becomes one
    datatype value, so a failing backend is an ordinary input of the model. */
module Outcomes {

  /** Absence of a value, used for "never rescaled". */
  datatype Option<+T> = None | Some(value: T)

  /** A call that yields a value or fails with an error message. */
  datatype Result<+T> = Ok(value: T) | Err(message: string)

  /** A call that yields nothing but may fail. */
  datatype Status = Done | Failed(message: string)
}

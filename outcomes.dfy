/** Result shapes shared by every module of the model.

    Python code in the monitoring adapter reports failure in three ways:
    a function returns a value, it returns a `False` flag (usually as the
    first half of a `(False, [])` pair), or it raises.  The datatypes below
    name those outcomes so that no error path has to be excluded by a
    precondition.
 */
module Outcomes {

  datatype Option<+T> = None | Some(value: T)

  /** What a call into a collaborator (or into Python built-ins such as
      `int()` or `strptime`) gives back: a value, or an exception. */
  datatype Call<+T> = Returns(value: T) | Raises

  /** A step of the worker that answers `(True, value)`, `(False, [])`, or
      raises. */
  datatype Outcome<+T> = Done(value: T) | Fail | Crash
}

/** Failure-carrying values shared by the model. The Python code signals its two
    failure modes with exceptions; here they are values. */
module Outcomes {

  datatype Option<+T> = None | Some(value: T)

  /** The exceptions the modelled code can raise. `IndexError` stands for the
      error `buffer[i]` raises when the scan's cursor runs past the last line
      of the buffer; `ValueError` is raised when `list.index` finds nothing or
      `int()` is given text that is not a number. */
  datatype Error = IndexError | ValueError

  datatype Result<+T> = Ok(value: T) | Err(error: Error)
}

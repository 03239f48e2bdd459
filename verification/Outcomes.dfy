module Outcomes {
  datatype Option<+T> = None | Some(value: T)

  /** How a call can end that panics on illegal arguments. */
  datatype Outcome<+T> = Ok(value: T) | IllegalStart(start: int) | IllegalEnd(stop: int) | NegativeSize
}

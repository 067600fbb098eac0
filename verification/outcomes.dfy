/** Optional values and the outcome of a Python call that may raise. */
module Outcomes {

  datatype Option<+T> = None | Some(value: T)

  /** `Raised` stands for an exception that escapes the call (a ValueError from a
      tuple unpack, `int()` or `strptime`); `Ok` carries the returned value. */
  datatype Result<+T> = Ok(value: T) | Raised
}

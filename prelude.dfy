/** Small values shared by the modules: Python's `None`-or-value and `max(0, x)`. */
module Prelude {

  /** A value that may be absent, as an argument the caller may omit. */
  datatype Option<T> = None | Some(value: T)

  /** `max(0, x)`. */
  function MaxZero(x: int): (r: nat)
    ensures r >= x
    ensures r == 0 || r == x
  {
    if x < 0 then 0 else x
  }
}

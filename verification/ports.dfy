/** `ports::get_free_port`: a wrapper that unwraps the `port_check` crate's
    `free_local_port()`. The crate's answer is an input. */
module Ports {
  import opened Outcomes

  type U16 = x: int | 0 <= x < 0x1_0000
  type U32 = x: int | 0 <= x < 0x1_0000_0000

  const UnwrapNone: string := "called `Option::unwrap()` on a `None` value"

  /** Returns the crate's port, or panics when the crate found none. The port is
      a 16-bit value; the callers widen it to `u32` without change. */
  function GetFreePort(found: Option<U16>): (r: Outcome<U16>)
    ensures !r.Err?
    ensures r.Ok? <==> found.Some?
    ensures r.Ok? ==> r.value == found.value && r.value < 0x1_0000
  {
    match found
    case Some(port) => Ok(port)
    case None => Panic(UnwrapNone)
  }
}

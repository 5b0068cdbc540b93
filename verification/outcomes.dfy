/** Small result types shared by the model: an optional value, and the three
    ways a Rust call can end (a value, a returned error, or a panic). */
module Outcomes {

  datatype Option<+T> = None | Some(value: T)
  {
    function GetOr(default: T): T
    {
      match this
      case Some(v) => v
      case None => default
    }
  }

  /** `Err` is an error handed back to the caller (`io::Result`, `Box<dyn Error>`);
      `Panic` is an `expect`/`unwrap` failure that unwinds instead of returning. */
  datatype Outcome<+T> = Ok(value: T) | Err(message: string) | Panic(message: string)
}

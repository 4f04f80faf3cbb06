/** The engine's error type and its translation to the errno a FUSE reply carries. */
module Errors {

  /**
   * The variants of `PinoqError`. The payloads of `IO` and `Serialization`
   * (an `std::io::Error` and a `bincode::Error`) are reduced to a message.
   */
  datatype PinoqError =
    | NoEntry
    | NoDirectory
    | NoEnoughSpace
    | IO(message: string)
    | Serialization
    | InvalidConfig

  /** A value, or nothing where the source panics (`unwrap`, `assert!`, an out-of-range slice). */
  datatype Option<+T> = None | Some(value: T)

  /** `Result<T>`, the crate's alias for `std::result::Result<T, PinoqError>`. */
  datatype Result<+T> = Ok(value: T) | Err(error: PinoqError)

  // Linux errno values.
  const ENOENT: int := 2
  const EIO: int := 5
  const ENOTDIR: int := 20
  const ENOSPC: int := 28

  /** `PinoqError::to_code`. */
  function ToCode(e: PinoqError): (code: int)
    ensures code == ENOENT <==> e == NoEntry
    ensures code == ENOTDIR <==> e == NoDirectory
    ensures code == ENOSPC <==> e == NoEnoughSpace
    ensures code == EIO <==> e.IO?
    ensures code == -1 <==> (e == Serialization || e == InvalidConfig)
  {
    match e
    case NoEntry => ENOENT
    case NoDirectory => ENOTDIR
    case NoEnoughSpace => ENOSPC
    case IO(_) => EIO
    case _ => -1
  }
}

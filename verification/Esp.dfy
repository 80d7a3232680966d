/** The error codes the modelled functions return. */
module Esp {
  datatype EspErr =
    | OK
    | FAIL
    | INVALID_ARG
    | INVALID_STATE
    | INVALID_SIZE
    | INVALID_RESPONSE
    | INVALID_CRC
    | NOT_FOUND
    | NOT_SUPPORTED
    | TIMEOUT

  datatype Option<+T> = None | Some(value: T)

  datatype Result<+T> = Ok(value: T) | Err(error: EspErr)
}

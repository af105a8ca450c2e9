/** Result types shared by the transport and the chip driver. */
module Outcome {
  datatype Option<+T> = None | Some(value: T)

  /** The transport's error kinds.  `Plain` is an error that carries no kind. */
  datatype ErrorKind =
    | InvalidRequest
    | DeviceMissing
    | PermissionDenied
    | DeviceBusy
    | TimedOut
    | Nack
    | Protocol
    | InputOutput
    | Plain

  datatype Result<+T> = Ok(value: T) | Err(kind: ErrorKind)
}

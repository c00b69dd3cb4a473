/** Scalar types and status codes shared by the IKEv2 message engine and the
    public-key authenticator. The two components share these type
    definitions only; they hold no common state. */
module IkeTypes {

  /** One octet of wire data. */
  newtype Byte = x: int | 0 <= x < 256

  type Bytes = seq<Byte>

  newtype Uint32 = x: int | 0 <= x < 0x1_0000_0000

  newtype Uint64 = x: int | 0 <= x < 0x1_0000_0000_0000_0000

  /** The `status_t` values the modelled code returns or receives from
      its collaborators. */
  datatype Status =
    | Success
    | Failed
    | NotSupported
    | InvalidArg
    | NotFound
    | ParseError
    | VerifyError
    | InvalidState

  /** A status that reports a failure. */
  type ErrorStatus = s: Status | s != Success witness Failed

  datatype Option<+T> = None | Some(value: T)

  /** A value, or the failure status a lookup or collaborator returned
      instead of it. */
  datatype Result<+T> = Ok(value: T) | Err(status: ErrorStatus)
}

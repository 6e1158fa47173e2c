/** Vocabulary shared by every component. */
module Common {
  newtype Byte = b: int | 0 <= b < 256

  datatype Option<+T> = None | Some(value: T)

  /** Errors by kind; their texts are not modelled. */
  datatype Error =
    | InvalidPath | InvalidRange | InvalidArgument | NotFound | AlreadyExists
    | PreconditionFailed | Unsupported | Canceled | Failed

  datatype Outcome<+T> = Ok(value: T) | Err(error: Error)

  const MAX_INT64 := 0x7FFF_FFFF_FFFF_FFFF

  function Min(a: int, b: int): int { if a < b then a else b }
}

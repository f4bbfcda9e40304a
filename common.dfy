/** Values shared by every module of the model: bytes, optional values,
    results, and the errors the store and its collaborators report. */
module Common {

  /** A Go `byte` (`uint8`). */
  type byte = x: int | 0 <= x < 256

  /** A Go `int` on a 64-bit platform. */
  type int64 = x: int | -0x8000_0000_0000_0000 <= x < 0x8000_0000_0000_0000

  datatype Option<T> = None | Some(value: T)

  /** A Go `(T, error)` pair where exactly one side is meaningful. */
  datatype Result<T> = Ok(value: T) | Err(error: Error)

  /** The errors that can come out of the store and of the code it calls. */
  datatype Error =
    | ErrShardExists                       // dagstore.ErrShardExists
    | ErrShardUnknown                      // dagstore.ErrShardUnknown
    | ErrNotFound                          // eds.ErrNotFound
    | ErrNotExist                          // the file system's "no such file or directory"
    | ContextCanceled                      // context.Canceled
    | DeadlineExceeded                     // context.DeadlineExceeded
    | ActiveReferences                     // the dagstore's refusal to destroy a shard in use
    | IntegrityMismatch(root: seq<byte>)   // "content integrity mismatch from CAR for root"
    | InvalidByte(b: byte)                 // hex.InvalidByteError
    | ErrLength                            // hex.ErrLength
    | NamespaceOverflow                    // "namespace overflow"
    | Wrapped(context: string, cause: Error)  // fmt.Errorf("<context>: %w", cause)
    | Fault(name: string)                  // any other error raised by outside code

  /** `ctx.Err()` once the caller's context is done: `DeadlineExceeded` when
      its deadline passed, `ContextCanceled` when it was cancelled. */
  function ContextErr(deadline: bool): (e: Error)
    ensures e == ContextCanceled || e == DeadlineExceeded
    ensures e == DeadlineExceeded <==> deadline
  {
    if deadline then DeadlineExceeded else ContextCanceled
  }

  /** The chain `errors.Unwrap` walks: the error, then what it wraps, and
      so on. */
  function Chain(e: Error): (c: seq<Error>)
    ensures |c| >= 1 && c[0] == e
    decreases e
  {
    if e.Wrapped? then [e] + Chain(e.cause) else [e]
  }

  /** Go's `errors.Is`: `e` is `target` or wraps it, at any depth. */
  predicate Is(e: Error, target: Error)
    ensures Is(e, target) <==> target in Chain(e)
    decreases e
  {
    e == target || (e.Wrapped? && Is(e.cause, target))
  }
}

/** Primitive types shared by the PureSearch persistence layer: bytes, ids,
    timestamps, and the error outcomes that the Rust code reports through
    `anyhow::Result`. */
module Types {

  /** One byte of a file (Rust `u8`). */
  type byte = b: nat | b < 256

  /** Seconds since the Unix epoch (Rust `u64`). */
  type u64 = n: nat | n < 0x1_0000_0000_0000_0000

  /** A 128-bit unique identifier (the `uuid` crate's `Uuid`). */
  newtype Uuid = x: int | 0 <= x < 0x1_0000_0000_0000_0000_0000_0000_0000_0000

  datatype Option<+T> = None | Some(value: T)

  /** The kinds of failure the storage code propagates with `?` or `anyhow!`. */
  datatype Error =
    | IoError           // an open, write, flush, fsync or map call failed
    | SerializeError    // `bincode::serialize` refused the entry
    | ReadBeyondBounds  // "Read beyond segment bounds"
    | EmptySegment      // "Cannot read from empty segment"

  datatype Result<+T> = Ok(value: T) | Err(error: Error)

  /** What the operating system answers to the I/O a call performs.  The
      model does not know why a write fails, only whether it does. */
  datatype IoStatus = IoOk | IoFail
}

/** Value types shared by every module of the posting state machine. */
module Base {

  /** An optional value (Rust's `Option`). */
  datatype Option<T> = None | Some(value: T)

  /** A value or an error (Rust's `Result`). */
  datatype Result<T, E> = Ok(value: T) | Err(error: E)

  /** One byte of an encoded artifact. */
  newtype byte = x: int | 0 <= x < 256

  /** The encoded bytes of an artifact (Rust's `Vec<u8>`). */
  type Bytes = seq<byte>

  /** Rust's `u32`, the type of the record's sequence id. */
  newtype u32 = x: int | 0 <= x < 0x1_0000_0000

  /** `u32::MAX`: the id at which `id + 1` would overflow. */
  const U32Max: u32 := 0xFFFF_FFFF

  /** An instant on the UTC clock, in whole seconds. */
  type Instant = int
}

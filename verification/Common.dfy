/** Wrappers and machine limits shared by every part of the model. */
module Common {

  datatype Option<+T> = None | Some(value: T)

  datatype Result<+T, +E> = Ok(value: T) | Err(error: E)

  /** Largest u64, the type of every sequence number. */
  const U64_MAX: nat := 0xFFFF_FFFF_FFFF_FFFF

  /** Number of u32 values; `len as u32` keeps the length modulo this. */
  const U32_COUNT: nat := 0x1_0000_0000
}

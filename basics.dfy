/** Value types shared by the HEX decoder and the programmer: C's fixed-width
    unsigned integers as ranges of `int`, and the failure-compatible wrappers. */
module Basics {

  /** `uint8_t` / `unsigned char`. */
  type Byte = x: int | 0 <= x < 0x100

  /** `uint16_t`. */
  type Word16 = x: int | 0 <= x < 0x1_0000

  /** `unsigned int` / `uint32_t` / `unsigned long` on the 32-bit host. */
  type Word32 = x: int | 0 <= x < 0x1_0000_0000


  datatype Option<+T> = None | Some(value: T) {
    predicate IsFailure() { None? }
    function PropagateFailure<U>(): Option<U> requires None? { None }
    function Extract(): T requires Some? { value }
  }

  datatype Result<+T, +E> = Ok(value: T) | Err(error: E)
}

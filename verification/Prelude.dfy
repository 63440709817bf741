/** Types shared by the models: bytes, 32-bit words and options. */
module Prelude {

  datatype Option<+T> = None | Some(value: T)

  const TWO_TO_32: int := 0x1_0000_0000

  /** `unsigned char` */
  type Byte = x: int | 0 <= x < 256

  /** `uint32_t`, `size_t` and `unsigned long` of the target. */
  type Word = x: int | 0 <= x < 0x1_0000_0000

  /** The value an integer has once it is stored in an unsigned 32-bit variable. */
  function Wrap(x: int): (w: Word)
  {
    x % 0x1_0000_0000
  }
}

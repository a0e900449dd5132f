/** Types shared by the models. */
module Prelude {

  /** A 256-bit hash, kept as the number it spells. */
  type Hash256 = nat

  type Byte = x: int | 0 <= x < 256

  datatype Option<+T> = None | Some(value: T)
}

/** Machine integers and the Option type shared by every module of the model. */
module Prelude {

  /** Rust `u16` */
  newtype u16 = x: int | 0 <= x < 0x1_0000

  /** Rust `u32` */
  newtype u32 = x: int | 0 <= x < 0x1_0000_0000

  /** Rust `i32` */
  newtype i32 = x: int | -0x8000_0000 <= x < 0x8000_0000

  datatype Option<+T> = None | Some(value: T)

  function Min(a: int, b: int): int
  {
    if a < b then a else b
  }
}

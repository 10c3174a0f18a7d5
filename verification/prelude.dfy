/** Machine-width integer types and the failure outcome shared by the whole model. */
module Prelude {

  /** Rust `u8`: the type of `password_word_count`. */
  type u8 = x: int | 0 <= x < 0x100

  /** Rust `u16`: the type of `number_passwords`. */
  type u16 = x: int | 0 <= x < 0x1_0000

  /** Why a run stops early. `rng.gen_range(0..0)` panics when a password
      needs a word but the filtered word list is empty. */
  datatype Error = EmptyWordList

  datatype Result<+T> = Ok(value: T) | Err(error: Error)
}

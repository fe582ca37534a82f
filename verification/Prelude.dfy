// Types shared by every component of the model.
module Prelude {

  datatype Option<+T> = None | Some(value: T)

  datatype Result<+T, +E> = Ok(value: T) | Err(error: E) {

    predicate IsFailure() {
      Err?
    }

    function PropagateFailure<U>(): Result<U, E>
      requires Err?
    {
      Err(error)
    }

    function Extract(): T
      requires Ok?
    {
      value
    }
  }

  datatype Unit = Unit

  // Rust's u8.
  newtype byte = b: int | 0 <= b < 0x100

  const U32_MAX: nat := 0xFFFF_FFFF
  const U64_MAX: nat := 0xFFFF_FFFF_FFFF_FFFF

  type U32 = n: nat | n <= U32_MAX
  type U16 = n: U32 | n <= 0xFFFF
  type U64 = n: nat | n <= U64_MAX

  // An unsigned integer subtraction that stops at zero, as Rust's saturating_sub
  // and Instant::duration_since do.
  function SaturatingSub(a: nat, b: nat): (r: nat)
  {
    if a < b then 0 else a - b
  }

  function Min(a: nat, b: nat): nat
  {
    if a <= b then a else b
  }
}

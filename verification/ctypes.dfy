/** C-level value types used by the environment partition parser:
    `ulong` arithmetic that wraps at 2^64, the 32-bit `int`, and C strings. */
module CTypes {

  const ULONG_MODULUS: int := 0x1_0000_0000_0000_0000

  /** A value of C's 64-bit `ulong` (and of `lbaint_t`). */
  type u64 = x: int | 0 <= x < ULONG_MODULUS

  /** A value of C's 32-bit `int`. */
  type int32 = x: int | -0x8000_0000 <= x < 0x8000_0000

  /** The characters of a NUL-terminated C string before its terminator.
      Such a string holds no NUL, and pointer differences into it fit a `ptrdiff_t`. */
  type CStr = s: seq<char> | '\0' !in s && |s| < 0x8000_0000_0000_0000

  /** The result of an `ulong` computation whose mathematical value is `x`. */
  function Wrap(x: int): (r: u64)
    ensures 0 <= x < ULONG_MODULUS ==> r == x
    ensures ULONG_MODULUS <= x < 2 * ULONG_MODULUS ==> r == x - ULONG_MODULUS
    ensures -ULONG_MODULUS <= x < 0 ==> r == x + ULONG_MODULUS
    ensures (x - r) % ULONG_MODULUS == 0
  {
    x % ULONG_MODULUS
  }

  /** Conversion of a C `int` to `unsigned`, as happens when the two are compared. */
  function ToUnsigned(x: int32): (r: nat)
    ensures r < 0x1_0000_0000
    ensures r % 0x1_0000_0000 == x % 0x1_0000_0000
  {
    if x < 0 then x + 0x1_0000_0000 else x
  }

  datatype Option<+T> = None | Some(value: T)

  datatype Result<+T, +E> = Ok(value: T) | Err(error: E)
}

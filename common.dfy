/** Shared vocabulary: bytes, optional values and fallible results. */
module Common {

  /** One octet, as the Rust `u8`. */
  type byte = b: int | 0 <= b < 256

  /** The Rust `u32`. */
  type uint32 = n: int | 0 <= n < 0x1_0000_0000

  /** The Rust `u16`. */
  type uint16 = n: int | 0 <= n < 0x1_0000

  datatype Option<+T> = None | Some(value: T)

  datatype Result<+T, +E> = Ok(value: T) | Err(error: E)

  /** `2^k`, used for the integer widths of the wire formats. */
  function Pow2(k: nat): (r: nat)
    ensures r >= 1
  {
    if k == 0 then 1 else 2 * Pow2(k - 1)
  }

  lemma {:induction false} Pow2Add(a: nat, b: nat)
    ensures Pow2(a + b) == Pow2(a) * Pow2(b)
  {
    if a > 0 {
      Pow2Add(a - 1, b);
    }
  }
}

/** The fixed-width .NET value types the client's signatures use. */
module Primitives {
  /** `System.Byte`. */
  type byte = b: int | 0 <= b < 0x100

  /** `System.Int32` (`int`). */
  type int32 = n: int | -0x8000_0000 <= n < 0x8000_0000

  /** `System.Int64` (`long`). */
  type int64 = n: int | -0x8000_0000_0000_0000 <= n < 0x8000_0000_0000_0000

  /** Quotient and remainder by the radixes that base64 sextets and UTF-8 continuation
      bytes are packed with. */
  lemma DivMod4(x: int, q: int, r: int)
    requires 0 <= r < 4 && x == q * 4 + r
    ensures x / 4 == q && x % 4 == r
  {
  }

  lemma DivMod16(x: int, q: int, r: int)
    requires 0 <= r < 16 && x == q * 16 + r
    ensures x / 16 == q && x % 16 == r
  {
  }

  lemma DivMod64(x: int, q: int, r: int)
    requires 0 <= r < 64 && x == q * 64 + r
    ensures x / 64 == q && x % 64 == r
  {
  }
}

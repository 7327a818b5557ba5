/** Machine words and digests shared by every module.

    A 32-byte string is modelled by the number it denotes in big-endian order,
    so that the lexicographic order of byte strings is the order of numbers. */
module Words {
  const U16_MAX: int := 0xFFFF
  const U32_MAX: int := 0xFFFF_FFFF
  const U64_MAX: int := 0xFFFF_FFFF_FFFF_FFFF
  const U128_MAX: int := 0xFFFF_FFFF_FFFF_FFFF_FFFF_FFFF_FFFF_FFFF
  const TWO64: int := 0x1_0000_0000_0000_0000
  const TWO256: int := 0x1_0000_0000_0000_0000_0000_0000_0000_0000_0000_0000_0000_0000_0000_0000_0000_0000

  type U8 = x: int | 0 <= x < 256
  type U16 = x: int | 0 <= x <= U16_MAX
  type U32 = x: int | 0 <= x <= U32_MAX
  type U64 = x: int | 0 <= x <= U64_MAX
  type U128 = x: int | 0 <= x <= U128_MAX
  type Digest = d: int | 0 <= d < TWO256

  const ZERO: Digest := 0

  datatype Option<+T> = None | Some(value: T)
  datatype Result<+T, +E> = Ok(value: T) | Err(error: E)

  function Min(a: int, b: int): int { if a <= b then a else b }
  function Max(a: int, b: int): int { if a <= b then b else a }

  function SatAdd64(a: U64, b: U64): U64 { Min(a + b, U64_MAX) }
  function SatSub64(a: U64, b: U64): U64 { Max(a - b, 0) }
  function SatMul64(a: U64, b: U64): U64 {
    assert 0 <= a * b;
    Min(a * b, U64_MAX)
  }
  function SatAdd128(a: U128, b: U128): U128 { Min(a + b, U128_MAX) }
  function SatSub128(a: U128, b: U128): U128 { Max(a - b, 0) }
  function SatMul128(a: U128, b: U128): U128 {
    assert 0 <= a * b;
    Min(a * b, U128_MAX)
  }

  function Pow2(n: nat): (p: nat)
    ensures p > n
  {
    if n == 0 then 1 else 2 * Pow2(n - 1)
  }

  lemma {:induction false} Pow2Monotone(m: nat, n: nat)
    requires m <= n
    ensures Pow2(m) <= Pow2(n)
    decreases n
  {
    if m < n { Pow2Monotone(m, n - 1); }
  }

  lemma MulAssoc(a: int, b: int, c: int)
    ensures (a * b) * c == a * (b * c)
  {
  }

  lemma {:induction false} Pow2Add(m: nat, n: nat)
    ensures Pow2(m + n) == Pow2(m) * Pow2(n)
  {
    if m > 0 {
      Pow2Add(m - 1, n);
      MulAssoc(2, Pow2(m - 1), Pow2(n));
    }
  }
}

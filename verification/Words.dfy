/** Machine words as bounded integers, the arithmetic the repository does on them, and the
    two wrapper types that stand for Rust's `Option` and `Result`. */
module Words {
  const TWO32: int := 0x1_0000_0000
  const TWO63: int := 0x8000_0000_0000_0000
  const TWO64: int := 0x1_0000_0000_0000_0000
  const TWO127: int := 0x8000_0000_0000_0000_0000_0000_0000_0000
  const TWO128: int := 0x1_0000_0000_0000_0000_0000_0000_0000_0000

  const I64_MIN: int := -TWO63
  const I64_MAX: int := TWO63 - 1
  const U32_MAX: int := TWO32 - 1
  const U64_MAX: int := TWO64 - 1

  type u8 = x: int | 0 <= x < 256
  type u16 = x: int | 0 <= x < 0x1_0000
  type u32 = x: int | 0 <= x < TWO32
  type u64 = x: int | 0 <= x < TWO64
  type u128 = x: int | 0 <= x < TWO128
  type i64 = x: int | I64_MIN <= x <= I64_MAX

  /** A 32-byte account address. */
  type Bytes32 = s: seq<u8> | |s| == 32 witness seq(32, i => 0)
  datatype Pubkey = Pubkey(bytes: Bytes32)

  datatype Option<+T> = None | Some(value: T)
  datatype Result<+T, +E> = Ok(value: T) | Err(error: E)

  function CheckedAddI64(a: i64, b: i64): Option<i64> {
    if I64_MIN <= a + b <= I64_MAX then Some(a + b) else None
  }

  function SaturatingAddU64(a: u64, b: u64): u64 {
    if a + b > U64_MAX then U64_MAX else a + b
  }

  function SaturatingSubU64(a: u64, b: u64): u64 {
    if a < b then 0 else a - b
  }

  function SaturatingAddI64(a: i64, b: i64): (r: i64)
    ensures I64_MIN <= a + b <= I64_MAX ==> r == a + b
    ensures a + b > I64_MAX ==> r == I64_MAX
    ensures a + b < I64_MIN ==> r == I64_MIN
  {
    if a + b > I64_MAX then I64_MAX else if a + b < I64_MIN then I64_MIN else a + b
  }

  function Pow2(n: nat): (p: nat)
    ensures p > 0
  {
    if n == 0 then 1 else 2 * Pow2(n - 1)
  }

  lemma {:induction false} Pow2Adds(m: nat, n: nat)
    ensures Pow2(m + n) == Pow2(m) * Pow2(n)
  {
    if m != 0 {
      Pow2Adds(m - 1, n);
      assert (2 * Pow2(m - 1)) * Pow2(n) == 2 * (Pow2(m - 1) * Pow2(n));
    }
  }

  lemma Pow2Square(k: nat, v: int)
    requires Pow2(k) == v
    ensures Pow2(2 * k) == v * v
  {
    Pow2Adds(k, k);
  }

  lemma Pow2Words()
    ensures Pow2(8) == 256 && Pow2(32) == TWO32 && Pow2(64) == TWO64 && Pow2(128) == TWO128
  {
    assert Pow2(4) == 16;
    Pow2Square(4, 16);
    Pow2Square(8, 256);
    Pow2Square(16, 0x1_0000);
    Pow2Square(32, TWO32);
    Pow2Square(64, TWO64);
  }

  /** Quotient and remainder are the only numbers that fit the division equation. */
  lemma DivModUnique(n: int, d: int, q: int, r: int)
    requires 0 <= r < d && n == q * d + r
    ensures n / d == q && n % d == r
  {
    var q', r' := n / d, n % d;
    assert n == q' * d + r';
    assert (q - q') * d == r' - r;
    if q > q' {
      assert (q - q') * d >= d by { MulAtLeast(q - q', d); }
    } else if q < q' {
      MulAtLeast(q' - q, d);
      assert false;
    }
  }

  lemma MulAtLeast(k: int, d: int)
    requires k >= 1 && d >= 0
    ensures k * d >= d
  {
  }

  lemma MulMonotone(a: int, b: int, c: int)
    requires a <= b && c >= 0
    ensures a * c <= b * c
  {
  }

  lemma MulStrict(a: int, b: int, c: int)
    requires a < b && c > 0
    ensures a * c < b * c
  {
  }

  lemma CancelStrict(a: int, b: int, s: int)
    requires s > 0 && a * s < b * s
    ensures a < b
  {
    if a >= b { MulMonotone(b, a, s); }
  }

  lemma CancelAtMost(a: int, b: int, s: int)
    requires s > 0 && a * s <= b * s
    ensures a <= b
  {
    if a > b { MulStrict(b, a, s); }
  }

  lemma CancelFactor(a: int, b: int, s: int)
    requires s > 0 && a * s < (b + 1) * s
    ensures a <= b
  {
    if a > b { MulMonotone(b + 1, a, s); }
  }
}

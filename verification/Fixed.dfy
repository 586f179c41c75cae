/** The 256-bit fixed-point primitive of crates/dl-core/src/fixed.rs.
    `u128` values are bounded integers; every intermediate is declared `u128`, so a limb that
    could overflow the word would be a verification error. */
module Fixed {
  import opened Words

  datatype MathError = Overflow | DivByZero | ScaleMismatch

  /** What `mul_div_floor` promises: the exact floored quotient, or why there is none. */
  function Quotient(value: u128, numerator: u128, denominator: u128): Result<u128, MathError> {
    if denominator == 0 then Err(DivByZero)
    else
      var q := value * numerator / denominator;
      if 0 <= q < TWO128 then Ok(q) else Err(Overflow)
  }

  /** The bitwise or of a value below 2^k and a multiple of 2^k: no bit is shared, so it is the sum. */
  function OrDisjoint(high: u128, low: u128, ghost k: nat): (r: int)
    requires k <= 128 && low < Pow2(k) && high % Pow2(k) == 0
  {
    high + low
  }

  lemma LimbProduct(x: int, y: int)
    requires 0 <= x < TWO64 && 0 <= y < TWO64
    ensures 0 <= x * y <= (TWO64 - 1) * (TWO64 - 1)
  {
    BoundedProduct(x, y, TWO64 - 1);
  }

  lemma BoundedProduct(x: int, y: int, m: int)
    requires 0 <= x <= m && 0 <= y <= m
    ensures 0 <= x * y <= m * m
  {
    MulMonotone(x, m, y);
    MulMonotone(y, m, m);
  }

  lemma LimbExpansion(ah: int, al: int, bh: int, bl: int, w: int)
    ensures (ah * w + al) * (bh * w + bl) == ah * bh * (w * w) + (ah * bl + al * bh) * w + al * bl
  {
    calc {
      (ah * w + al) * (bh * w + bl);
      (ah * w) * (bh * w + bl) + al * (bh * w + bl);
      (ah * w) * (bh * w) + (ah * w) * bl + al * (bh * w) + al * bl;
      { assert (ah * w) * (bh * w) == ah * bh * (w * w);
        assert (ah * w) * bl == ah * bl * w;
        assert al * (bh * w) == al * bh * w; }
      ah * bh * (w * w) + ah * bl * w + al * bh * w + al * bl;
      { assert ah * bl * w + al * bh * w == (ah * bl + al * bh) * w; }
      ah * bh * (w * w) + (ah * bl + al * bh) * w + al * bl;
    }
  }

  /** The four limb products, their bounds, and how they make up the product. */
  lemma LimbProducts(a: u128, b: u128)
    ensures var aLo, aHi, bLo, bHi := a % TWO64, a / TWO64, b % TWO64, b / TWO64;
      var m := (TWO64 - 1) * (TWO64 - 1);
      && 0 <= aLo * bLo <= m && 0 <= aLo * bHi <= m && 0 <= aHi * bLo <= m && 0 <= aHi * bHi <= m
      && a * b == aHi * bHi * TWO128 + (aHi * bLo + aLo * bHi) * TWO64 + aLo * bLo
      && a * b < TWO128 * TWO128
  {
    var aLo, aHi, bLo, bHi := a % TWO64, a / TWO64, b % TWO64, b / TWO64;
    LimbProduct(aLo, bLo); LimbProduct(aLo, bHi); LimbProduct(aHi, bLo); LimbProduct(aHi, bHi);
    LimbExpansion(aHi, aLo, bHi, bLo, TWO64);
    MulMonotone(a, TWO128 - 1, b);
    MulMonotone(b, TWO128 - 1, TWO128 - 1);
  }

  /** Full 128x128 -> 256 bit multiply by 64-bit limbs, as `(hi, lo)`. */
  function FullMul(a: u128, b: u128): (r: (u128, u128))
    ensures r.0 * TWO128 + r.1 == a * b
  {
    var aLo, aHi, bLo, bHi := a % TWO64, a / TWO64, b % TWO64, b / TWO64;
    LimbProducts(a, b);
    Columns(a * b, aLo * bLo, aLo * bHi, aHi * bLo, aHi * bHi)
  }

  lemma ColumnSum(ab: int, ll: int, lh: int, hl: int, hh: int, mid: int)
    requires ll >= 0 && lh >= 0 && hl >= 0 && hh >= 0
    requires ab == hh * TWO128 + (hl + lh) * TWO64 + ll && ab < TWO128 * TWO128
    requires mid == ll / TWO64 + lh % TWO64 + hl % TWO64
    ensures (hh + lh / TWO64 + hl / TWO64 + mid / TWO64) * TWO128 + ((mid % TWO64) * TWO64 + ll % TWO64) == ab
    ensures hh + lh / TWO64 + hl / TWO64 + mid / TWO64 < TWO128
  {
  }

  /** Adds the four limb products column by column. */
  function Columns(ghost ab: int, ll: u128, lh: u128, hl: u128, hh: u128): (r: (u128, u128))
    requires ll <= (TWO64 - 1) * (TWO64 - 1) && lh <= (TWO64 - 1) * (TWO64 - 1) && hl <= (TWO64 - 1) * (TWO64 - 1)
    requires ab == hh * TWO128 + (hl + lh) * TWO64 + ll && ab < TWO128 * TWO128
    ensures r.0 * TWO128 + r.1 == ab
  {
    // the overlapping 64-bit column
    var mid: u128 := ll / TWO64 + lh % TWO64 + hl % TWO64;
    assert Pow2(64) == TWO64 by { Pow2Words(); }
    ColumnSum(ab, ll, lh, hl, hh, mid);
    var lo: u128 := OrDisjoint((mid % TWO64) * TWO64, ll % TWO64, 64);
    var hi: u128 := hh + lh / TWO64 + hl / TWO64 + mid / TWO64;
    (hi, lo)
  }

  /** `hi >= d` is exactly the case whose quotient does not fit 128 bits. */
  lemma WideQuotientFits(hi: u128, lo: u128, d: u128)
    requires d != 0
    ensures hi < d <==> (hi * TWO128 + lo) / d < TWO128
  {
    var n := hi * TWO128 + lo;
    var q := n / d;
    assert n == q * d + n % d;
    if hi < d {
      if q >= TWO128 {
        MulMonotone(TWO128, q, d);
        assert false;
      }
    } else if q < TWO128 {
      MulMonotone(q, TWO128 - 1, d);
      assert false;
    }
  }

  lemma LowBits(lo: int, i: nat)
    requires lo >= 0
    ensures lo % Pow2(i + 1) == (lo / Pow2(i)) % 2 * Pow2(i) + lo % Pow2(i)
  {
    var p := Pow2(i);
    var h := lo / p;
    TwoDigits(lo, p, h / 2, h % 2, lo % p);
  }

  /** A number written with a quotient, one bit and a remainder below `p`. */
  lemma TwoDigits(n: int, p: int, q: int, bit: int, r: int)
    requires 0 <= bit < 2 && 0 <= r < p && n == (2 * q + bit) * p + r
    ensures n % (2 * p) == bit * p + r
  {
    Spread(q, bit, p);
    MulMonotone(0, bit, p);
    MulMonotone(bit, 1, p);
    DivModUnique(n, 2 * p, q, bit * p + r);
  }

  lemma Spread(q: int, bit: int, p: int)
    ensures (2 * q + bit) * p == q * (2 * p) + bit * p
  {
  }

  /** The loop invariant of the long division of `n` by `d`: with `i` bits of `lo` still to come,
      the quotient so far is a multiple of 2^i and the division equation holds. */
  ghost predicate Dividing(n: int, lo: int, d: int, rem: int, quo: int, i: nat) {
    && 0 <= rem < d
    && n == quo * d + (rem * Pow2(i) + lo % Pow2(i))
    && quo >= 0 && quo % Pow2(i) == 0 && quo + Pow2(i) <= TWO128
  }

  lemma StepIdentities(quo: int, d: int, rem: int, bit: int, p: int, low: int)
    ensures rem * (2 * p) + (bit * p + low) == (2 * rem + bit) * p + low
    ensures (quo + p) * d + (2 * rem + bit - d) * p == quo * d + (2 * rem + bit) * p
  {
    assert rem * (2 * p) == (2 * rem) * p;
    assert (quo + p) * d == quo * d + p * d;
    assert (2 * rem + bit - d) * p == (2 * rem + bit) * p - d * p;
  }

  lemma HalfDivides(quo: int, p: int)
    requires p > 0 && quo >= 0 && quo % (2 * p) == 0
    ensures quo % p == 0
  {
    var k := quo / (2 * p);
    assert quo == k * (2 * p) == (2 * k) * p;
    DivModUnique(quo, p, 2 * k, 0);
  }

  lemma AddPowerKeepsMultiple(quo: int, p: int)
    requires p > 0 && quo >= 0 && quo % p == 0
    ensures (quo + p) % p == 0
  {
    DivModUnique(quo + p, p, quo / p + 1, 0);
  }

  /** Bringing down bit `i` and subtracting `d` where it fits keeps the invariant. */
  lemma DivisionStep(n: int, lo: int, d: int, rem: int, quo: int, i: nat, t: int)
    requires lo >= 0 && Dividing(n, lo, d, rem, quo, i + 1)
    requires t == 2 * rem + lo / Pow2(i) % 2
    ensures t < 2 * d
    ensures t >= d ==> Dividing(n, lo, d, t - d, quo + Pow2(i), i)
    ensures t < d ==> Dividing(n, lo, d, t, quo, i)
  {
    var p := Pow2(i);
    var bit := lo / p % 2;
    assert quo % (2 * p) == 0 && quo + 2 * p <= TWO128;
    HalfDivides(quo, p);
    AddPowerKeepsMultiple(quo, p);
    var a, b, c := (quo + p) * d, (t - d) * p, t * p;
    assert n == quo * d + (t * p + lo % p) && a + b == quo * d + c by {
      assert n == quo * d + (rem * (2 * p) + lo % Pow2(i + 1));
      LowBits(lo, i);
      StepIdentities(quo, d, rem, bit, p, lo % p);
    }
  }

  lemma DivisionDone(n: int, lo: int, d: int, rem: int, quo: int)
    requires Dividing(n, lo, d, rem, quo, 0)
    ensures quo == n / d && rem == n % d
  {
    assert rem * Pow2(0) + lo % Pow2(0) == rem;
    DivModUnique(n, d, quo, rem);
  }

  /** Doubles `rem` and brings in `bit`: the bit that leaves the word, and the low 128 bits. */
  method ShiftIn(rem: u128, bit: u128) returns (carry: int, shifted: u128)
    requires bit <= 1
    ensures 0 <= carry <= 1 && carry * TWO128 + shifted == 2 * rem + bit
  {
    carry := rem / TWO127;
    assert Pow2(1) == 2;
    shifted := OrDisjoint(rem * 2 % TWO128, bit, 1);
  }

  /** Subtracts `d` from the doubled remainder `t`, of which the word holds the low bits, and sets the quotient
      bit, if `t` is at least `d`. */
  method SubtractIfFits(ghost t: int, carry: int, shifted: u128, d: u128, quo: u128, i: nat)
    returns (rem': u128, quo': u128)
    requires 0 <= carry <= 1 && carry * TWO128 + shifted == t < 2 * d
    requires i <= 127 && quo % Pow2(i + 1) == 0 && quo + Pow2(i + 1) <= TWO128
    ensures rem' == (if t >= d then t - d else t) && quo' == (if t >= d then quo + Pow2(i) else quo)
  {
    if carry == 1 || shifted >= d {
      rem' := (shifted - d) % TWO128; // the carry, if there is one, cancels the borrow
      quo' := OrDisjoint(quo, Pow2(i), i + 1);
    } else {
      rem', quo' := shifted, quo;
    }
  }

  /** The body of the division loop: brings down bit `i` and subtracts `d` where it fits. */
  method BringDown(ghost n: int, lo: u128, d: u128, rem: u128, quo: u128, i: nat) returns (rem': u128, quo': u128)
    requires i <= 127 && Dividing(n, lo, d, rem, quo, i + 1)
    ensures Dividing(n, lo, d, rem', quo', i)
  {
    var bit := lo / Pow2(i) % 2;
    var carry, shifted := ShiftIn(rem, bit);
    ghost var t := carry * TWO128 + shifted;
    DivisionStep(n, lo, d, rem, quo, i, t);
    rem', quo' := SubtractIfFits(t, carry, shifted, d, quo, i);
  }

  /** Bitwise long division of `(hi, lo)` by `d`. The remainder doubles past the word by one bit. */
  method Div256By128(hi: u128, lo: u128, d: u128) returns (q: Option<u128>)
    ensures q.None? <==> d == 0 || (hi * TWO128 + lo) / d >= TWO128
    ensures q.Some? ==> q.value == (hi * TWO128 + lo) / d
  {
    if d == 0 { return None; }
    ghost var n := hi * TWO128 + lo;
    WideQuotientFits(hi, lo, d);
    if hi >= d { return None; }
    var rem: u128, quo: u128, i := hi, 0, 127;
    assert Dividing(n, lo, d, rem, quo, 128) by { Pow2Words(); }
    while i >= 0
      invariant -1 <= i <= 127
      invariant Dividing(n, lo, d, rem, quo, i + 1)
    {
      rem, quo := BringDown(n, lo, d, rem, quo, i);
      i := i - 1;
    }
    DivisionDone(n, lo, d, rem, quo);
    return Some(quo);
  }

  /** `floor(value * numerator / denominator)` through a 256-bit intermediate. */
  method MulDivFloor(value: u128, numerator: u128, denominator: u128) returns (r: Result<u128, MathError>)
    ensures r == Err(DivByZero) <==> denominator == 0
    ensures r.Ok? ==> r.value * denominator <= value * numerator < (r.value + 1) * denominator
    ensures r == Err(Overflow) <==> denominator != 0 && value * numerator >= TWO128 * denominator
    ensures r == Quotient(value, numerator, denominator)
  {
    if denominator == 0 { return Err(DivByZero); }
    ghost var q := value * numerator / denominator;
    QuotientBounds(value * numerator, denominator);
    if value * numerator < TWO128 {
      return Ok(value * numerator / denominator);
    }
    var wide := FullMul(value, numerator);
    var d := Div256By128(wide.0, wide.1, denominator);
    return if d.Some? then Ok(d.value) else Err(Overflow);
  }

  lemma QuotientBounds(n: int, d: int)
    requires n >= 0 && d > 0
    ensures 0 <= n / d && n / d * d <= n < (n / d + 1) * d
    ensures n / d <= n
    ensures n / d >= TWO128 <==> n >= TWO128 * d
  {
    var q := n / d;
    assert n == q * d + n % d;
    assert (q + 1) * d == q * d + d;
    if q >= TWO128 { MulMonotone(TWO128, q, d); } else { MulMonotone(q + 1, TWO128, d); }
    if q > 0 { assert q * d >= q by { MulMonotone(1, d, q); } }
  }
}

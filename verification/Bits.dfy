/** Exclusive or, shifts and odd multiplication on machine words, with their inverses. */
module Bits {
  import opened Words

  /** Bitwise exclusive or of two natural numbers. */
  function Xor(a: nat, b: nat): nat
    decreases a + b
  {
    if a == 0 && b == 0 then 0 else (a + b) % 2 + 2 * Xor(a / 2, b / 2)
  }

  lemma XorHalves(a: nat, b: nat)
    ensures Xor(a, b) / 2 == Xor(a / 2, b / 2) && Xor(a, b) % 2 == (a + b) % 2
  {
    if a == 0 && b == 0 { assert Xor(0, 0) == 0; }
  }

  lemma SameParity(x: nat, a: nat, b: nat)
    requires x % 2 == (a + b) % 2
    ensures (x + b) % 2 == a % 2
  {
  }

  lemma {:induction false} XorCancel(a: nat, b: nat)
    ensures Xor(Xor(a, b), b) == a
    decreases a + b
  {
    if a != 0 || b != 0 {
      var x := Xor(a, b);
      var y := Xor(x, b);
      assert y / 2 == a / 2 by {
        XorHalves(a, b);
        XorHalves(x, b);
        XorCancel(a / 2, b / 2);
      }
      assert y % 2 == a % 2 by {
        XorHalves(a, b);
        XorHalves(x, b);
        SameParity(x, a, b);
      }
    }
  }

  lemma {:induction false} XorCommutes(a: nat, b: nat)
    ensures Xor(a, b) == Xor(b, a)
    decreases a + b
  {
    if a != 0 || b != 0 { XorCommutes(a / 2, b / 2); }
  }

  lemma {:induction false} XorFits(a: nat, b: nat, n: nat)
    requires a < Pow2(n) && b < Pow2(n)
    ensures Xor(a, b) < Pow2(n)
  {
    if n > 0 { XorFits(a / 2, b / 2, n - 1); }
  }

  /** `x >> s`. */
  function Shr(x: nat, s: nat): nat {
    if s == 0 then x else Shr(x / 2, s - 1)
  }

  lemma {:induction false} ShrIsDivision(x: nat, s: nat)
    ensures Shr(x, s) == x / Pow2(s)
  {
    if s > 0 {
      ShrIsDivision(x / 2, s - 1);
      HalfQuotient(x, x / 2, Pow2(s - 1), Pow2(s));
    }
  }

  lemma HalfQuotient(x: int, half: int, p: int, pp: int)
    requires x >= 0 && half == x / 2 && p > 0 && pp == 2 * p
    ensures x / pp == half / p
  {
    DivisionEquation(half, p);
    HalfThenDivide(x, half, x % 2, p, half / p, half % p);
  }

  lemma DivisionEquation(n: int, d: int)
    requires d > 0
    ensures n == n / d * d + n % d && 0 <= n % d < d
  {
  }

  /** The quotient of a half by `p` is that of the whole by `2 * p`. */
  lemma HalfThenDivide(x: int, half: int, bit: int, p: int, q: int, r: int)
    requires x == 2 * half + bit && 0 <= bit < 2 && half == q * p + r && 0 <= r < p
    ensures x / (2 * p) == q
  {
    DoubleProduct(q, p);
    DivModUnique(x, 2 * p, q, r * 2 + bit);
  }

  lemma DoubleProduct(q: int, p: int)
    ensures q * (2 * p) == 2 * (q * p)
  {
  }

  lemma {:induction false} ShrShrinks(x: nat, s: nat)
    ensures Shr(x, s) <= x && (s > 0 && x > 0 ==> Shr(x, s) < x)
  {
    if s > 0 { ShrShrinks(x / 2, s - 1); }
  }

  lemma {:induction false} XorShifted(a: nat, b: nat, s: nat)
    ensures Shr(Xor(a, b), s) == Xor(Shr(a, s), Shr(b, s))
  {
    if s > 0 {
      XorHalves(a, b);
      XorShifted(a / 2, b / 2, s - 1);
    }
  }

  /** Bit `i` of the exclusive or is set exactly if it is set in one of the two. */
  lemma XorBit(a: nat, b: nat, i: nat)
    ensures Shr(Xor(a, b), i) % 2 == 1 <==> Shr(a, i) % 2 != Shr(b, i) % 2
  {
    XorShifted(a, b, i);
    XorHalves(Shr(a, i), Shr(b, i));
  }

  /** `x ^ (x >> s)`. */
  function XorShift(x: nat, s: nat): nat {
    Xor(x, Shr(x, s))
  }

  /** The word whose xor-shift is `y`, from the top bits down. */
  function UnXorShift(y: nat, s: nat): nat
    requires s > 0
    decreases y
  {
    if y == 0 then 0 else
      ShrShrinks(y, s);
      Xor(y, UnXorShift(Shr(y, s), s))
  }

  /** A xor-shift is undone by its inverse, on either side. */
  lemma {:induction false} XorShiftInverse(x: nat, s: nat)
    requires s > 0
    ensures XorShift(UnXorShift(x, s), s) == x
    decreases x
  {
    if x == 0 {
      ShrShrinks(0, s);
    } else {
      ShrShrinks(x, s);
      var h := Shr(x, s);
      var u := UnXorShift(h, s);
      XorShiftInverse(h, s);
      XorShifted(x, u, s);
      XorCancel(u, Shr(u, s));
      XorCancel(x, u);
    }
  }

  lemma {:induction false} InverseXorShift(x: nat, s: nat)
    requires s > 0
    ensures UnXorShift(XorShift(x, s), s) == x
    decreases x
  {
    var h := Shr(x, s);
    ShrShrinks(x, s);
    XorCancel(x, h);
    if x == 0 {
      assert XorShift(0, s) == 0;
    } else {
      var y := XorShift(x, s);
      XorShifted(x, h, s);
      InverseXorShift(h, s);
      if y == 0 {
        XorZero(h);
        assert false;
      }
    }
  }

  lemma {:induction false} XorZero(b: nat)
    ensures Xor(0, b) == b
  {
    if b > 0 { XorZero(b / 2); }
  }

  lemma XorShiftFits(x: u64, s: nat)
    ensures XorShift(x, s) < TWO64
  {
    Pow2Words();
    ShrShrinks(x, s);
    XorFits(x, Shr(x, s), 64);
  }

  lemma {:induction false} UnXorShiftFits(y: u64, s: nat)
    requires s > 0
    ensures UnXorShift(y, s) < TWO64
    decreases y
  {
    if y > 0 {
      ShrShrinks(y, s);
      UnXorShiftFits(Shr(y, s), s);
      Pow2Words();
      XorFits(y, UnXorShift(Shr(y, s), s), 64);
    }
  }

  function WrappingMul(x: u64, c: u64): u64 {
    x * c % TWO64
  }

  lemma ModAddsMultiples(x: int, j: int)
    ensures (x + j * TWO64) % TWO64 == x % TWO64
  {
  }

  lemma UndoProduct(x: int, c: int, inv: int, k: int, w: int, q: int, t: int)
    requires c * inv == 1 + k * w && x * c == q * w + t
    ensures t * inv == x + (x * k - q * inv) * w
  {
    calc {
      t * inv;
      (x * c - q * w) * inv;
      x * (c * inv) - (q * w) * inv;
      x * (1 + k * w) - (q * inv) * w;
      x + (x * k) * w - (q * inv) * w;
      x + (x * k - q * inv) * w;
    }
  }

  /** Multiplication by an odd word is undone by multiplication by its inverse. */
  lemma WrappingMulInverse(x: u64, c: u64, inv: u64, k: int)
    requires c * inv == 1 + k * TWO64
    ensures WrappingMul(WrappingMul(x, c), inv) == x
  {
    var q, t := x * c / TWO64, x * c % TWO64;
    UndoProduct(x, c, inv, k, TWO64, q, t);
    ModAddsMultiples(x, x * k - q * inv);
  }
}

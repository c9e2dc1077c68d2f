/** Machine words of the driver's C sources, on mathematical integers.

    `U32` and `U64` are C's `uint32_t` and `uint64_t`: storing a value in one of them is a proof that
    it does not overflow.  Where the source relies on wrap-around, the wrap is written out with
    `Wrap32`.  The bit operators the sources use are given bit by bit (`And`, `Or`), so that what the
    sources use them for (masks, lowest set bit, power-of-two test) is proved rather than assumed. */
module Words {

  type U32 = x: int | 0 <= x < 0x1_0000_0000
  type U64 = x: int | 0 <= x < 0x1_0000_0000_0000_0000

  type Byte = x: int | 0 <= x < 0x100

  datatype Option<+T> = None | Some(value: T)

  /** Conversion to `uint32_t`, of a value that may be negative or too large. */
  function Wrap32(x: int): (r: U32)
  {
    x % 0x1_0000_0000
  }

  function Min(a: int, b: int): int { if a <= b then a else b }
  function Max(a: int, b: int): int { if a >= b then a else b }

  function Pow2(k: nat): (r: nat)
    ensures 0 < r
  {
    if k == 0 then 1 else 2 * Pow2(k - 1)
  }

  /** `ilog2`: the position of the highest set bit. */
  function ILog2(n: nat): (k: nat)
    requires 0 < n
  {
    if n == 1 then 0 else 1 + ILog2(n / 2)
  }

  /** C's `a & b` on non-negative values. */
  function And(a: nat, b: nat): (r: nat)
  {
    if a == 0 || b == 0 then 0 else (if a % 2 == 1 && b % 2 == 1 then 1 else 0) + 2 * And(a / 2, b / 2)
  }

  /** C's `a | b` on non-negative values. */
  function Or(a: nat, b: nat): (r: nat)
  {
    if a == 0 then b
    else if b == 0 then a
    else (if a % 2 == 1 || b % 2 == 1 then 1 else 0) + 2 * Or(a / 2, b / 2)
  }

  /** C's unary minus on `uint64_t`. */
  function Neg64(m: U64): U64
  {
    (0 - m) % 0x1_0000_0000_0000_0000
  }

  /** `is_power_of_2`. */
  predicate IsPowerOf2(n: nat)
  {
    n != 0 && And(n, n - 1) == 0
  }

  // ----- division -----

  lemma MulLe(a: int, b: int, c: int)
    requires a <= b && 0 <= c
    ensures a * c <= b * c
  {
    assert 0 <= (b - a) * c;
    assert (b - a) * c == b * c - a * c;
  }

  lemma DivModUnique(a: int, b: int, q: int, r: int)
    requires 0 < b && 0 <= r < b && a == q * b + r
    ensures a / b == q && a % b == r
  {
    var d := a / b - q;
    assert a == a / b * b + a % b;
    assert d * b == a / b * b - q * b;
    assert d >= 1 ==> d * b >= b;
    assert d <= -1 ==> d * b <= -b;
  }

  lemma DivIs(a: int, b: int, q: int)
    requires 0 < b && q * b <= a < q * b + b
    ensures a / b == q
  {
    DivModUnique(a, b, q, a - q * b);
  }

  lemma DivMonotone(a: int, c: int, b: int)
    requires 0 < b && a <= c
    ensures a / b <= c / b
  {
    var d := a / b - c / b;
    assert a == a / b * b + a % b && c == c / b * b + c % b;
    assert d * b == a / b * b - c / b * b;
    assert d >= 1 ==> d * b >= b;
  }

  lemma DivShrinks(a: nat, b: nat)
    requires 0 < b
    ensures 0 <= a / b <= a
  {
    QuotientBounds(a, b, a / b, a % b);
  }

  lemma QuotientBounds(a: int, b: int, q: int, r: int)
    requires 0 <= a && 0 < b && 0 <= r < b && a == q * b + r
    ensures 0 <= q <= a
  {
    assert q <= -1 ==> q * b <= -b;
    assert 0 <= q ==> q <= q * b;
  }

  lemma DivOfProduct(a: int, b: int)
    requires 0 < b
    ensures a * b / b == a && (a * b) % b == 0
  {
    DivModUnique(a * b, b, a, 0);
  }

  lemma DivDiv(a: nat, b: nat, c: nat)
    requires 0 < b && 0 < c
    ensures 0 < b * c && a / b / c == a / (b * c)
  {
    var q, r := a / b, a % b;
    var s, t := q / c, q % c;
    assert a == q * b + r && q == s * c + t;
    DivDivParts(a, b, c, q, r, s, t);
    DivModUnique(a, b * c, s, t * b + r);
  }

  lemma DivDivParts(a: int, b: int, c: int, q: int, r: int, s: int, t: int)
    requires 0 < b && 0 < c && 0 <= r < b && 0 <= t < c
    requires a == q * b + r && q == s * c + t
    ensures 0 < b * c && 0 <= t * b + r < b * c && a == s * (b * c) + (t * b + r)
  {
    MulLe(1, b, c);
    MulLe(0, t, b);
    MulLe(t + 1, c, b);
    calc {
      q * b;
      (s * c + t) * b;
      s * (b * c) + t * b;
    }
  }

  /** A common factor can be cancelled from a quotient. */
  lemma DivCancel(a: nat, b: nat, c: nat)
    requires 0 < b && 0 < c
    ensures 0 < b * c && a * c / (b * c) == a / b
  {
    var q, r := a / b, a % b;
    assert a == q * b + r;
    assert a * c == q * (b * c) + r * c by {
      assert a * c == q * b * c + r * c;
    }
    assert 0 <= r * c < b * c;
    DivModUnique(a * c, b * c, q, r * c);
  }

  /** Adding a multiple of the divisor only moves the quotient. */
  lemma DivAddMultiple(a: int, b: int, k: int)
    requires 0 < b
    ensures (a + k * b) / b == a / b + k && (a + k * b) % b == a % b
  {
    assert a + k * b == (a / b + k) * b + a % b;
    DivModUnique(a + k * b, b, a / b + k, a % b);
  }

  // ----- powers of two -----

  lemma {:induction false} Pow2Add(a: nat, b: nat)
    ensures Pow2(a + b) == Pow2(a) * Pow2(b)
  {
    if b != 0 {
      Pow2Add(a, b - 1);
      assert Pow2(a) * Pow2(b) == 2 * (Pow2(a) * Pow2(b - 1));
    }
  }

  lemma Pow2Square(k: nat, v: nat)
    requires Pow2(k) == v
    ensures Pow2(2 * k) == v * v
  {
    Pow2Add(k, k);
  }

  lemma Pow2Words()
    ensures Pow2(6) == 64
    ensures Pow2(32) == 0x1_0000_0000 && Pow2(64) == 0x1_0000_0000_0000_0000
  {
    Pow2Square(8, 0x100);
    Pow2Square(16, 0x1_0000);
    Pow2Square(32, 0x1_0000_0000);
  }

  lemma {:induction false} ILog2Bounds(n: nat)
    requires 0 < n
    ensures Pow2(ILog2(n)) <= n < 2 * Pow2(ILog2(n))
  {
    if n != 1 { ILog2Bounds(n / 2); }
  }

  // ----- bits -----

  lemma ModDouble(n: nat, p: nat)
    requires 0 < p
    ensures n % (2 * p) == n % 2 + 2 * (n / 2 % p)
  {
    var q, r := n / 2 / p, n / 2 % p;
    assert n / 2 == q * p + r;
    assert q * (2 * p) == 2 * (q * p);
    DivModUnique(n, 2 * p, q, 2 * r + n % 2);
  }

  /** `n & (2^k - 1)` is `n % 2^k`. */
  lemma {:induction false} AndMask(n: nat, k: nat)
    ensures And(n, Pow2(k) - 1) == n % Pow2(k)
  {
    if k == 0 {
      DivModUnique(n, 1, n, 0);
    } else if n == 0 {
      DivModUnique(0, Pow2(k), 0, 0);
    } else {
      AndMask(n / 2, k - 1);
      AndMaskStep(n, Pow2(k - 1));
    }
  }

  /** Testing one bit. */
  lemma {:induction false} AndBit(n: nat, k: nat)
    ensures And(n, Pow2(k)) != 0 <==> n / Pow2(k) % 2 == 1
  {
    if n == 0 {
      DivModUnique(0, Pow2(k), 0, 0);
    } else if k == 0 {
      DivModUnique(n, 1, n, 0);
      assert And(n / 2, 0) == 0;
    } else {
      AndBit(n / 2, k - 1);
      AndBitStep(n, Pow2(k - 1));
    }
  }

  lemma AndBitStep(n: nat, p: nat)
    requires 0 < n && 0 < p && (And(n / 2, p) != 0 <==> n / 2 / p % 2 == 1)
    ensures And(n, 2 * p) != 0 <==> n / (2 * p) % 2 == 1
  {
    hide And;
    assert 2 * p / 2 == p && 2 * p % 2 == 0;
    AndUnfold(n, 2 * p);
    DivDiv(n, 2, p);
  }

  lemma AndMaskStep(n: nat, p: nat)
    requires 0 < n && 0 < p && And(n / 2, p - 1) == n / 2 % p
    ensures And(n, 2 * p - 1) == n % (2 * p)
  {
    hide And;
    ModDouble(n, p);
    var mask := 2 * p - 1;
    assert mask / 2 == p - 1 && mask % 2 == 1;
    AndUnfold(n, mask);
  }

  lemma AndUnfold(a: nat, b: nat)
    requires 0 < a && 0 < b
    ensures And(a, b) == (if a % 2 == 1 && b % 2 == 1 then 1 else 0) + 2 * And(a / 2, b / 2)
  {
  }

  lemma {:induction false} AndSelf(n: nat)
    ensures And(n, n) == n
  {
    if n != 0 { AndSelf(n / 2); }
  }

  /** The power-of-two test of log2.h finds exactly the values `2^ilog2(n)`. */
  lemma {:induction false} PowerOf2Test(n: nat)
    requires 0 < n
    ensures IsPowerOf2(n) <==> n == Pow2(ILog2(n))
  {
    if n != 1 {
      PowerOf2Test(n / 2);
      if n % 2 == 1 {
        assert (n - 1) / 2 == n / 2;
        AndSelf(n / 2);
      } else {
        assert (n - 1) / 2 == n / 2 - 1;
      }
    }
  }

  /** `a | b` of values with no bit in common is their sum. */
  lemma {:induction false} OrDisjoint(a: nat, c: nat, k: nat)
    requires a < Pow2(k)
    ensures Or(a, c * Pow2(k)) == a + c * Pow2(k)
  {
    var b := c * Pow2(k);
    if a != 0 && b != 0 {
      assert k != 0;
      assert b == 2 * (c * Pow2(k - 1));
      OrDisjoint(a / 2, c, k - 1);
    }
  }

  function TrailingZeros(m: nat): (k: nat)
    requires 0 < m
  {
    if m % 2 == 1 then 0 else 1 + TrailingZeros(m / 2)
  }

  /** The largest power of two dividing `m`. */
  function LowBit(m: nat): (r: nat)
    requires 0 < m
  {
    Pow2(TrailingZeros(m))
  }

  function OddPart(m: nat): (r: nat)
    requires 0 < m
  {
    if m % 2 == 1 then m else OddPart(m / 2)
  }

  lemma {:induction false} LowBitTimesOddPart(m: nat)
    requires 0 < m
    ensures m == OddPart(m) * LowBit(m)
  {
    if m % 2 == 0 {
      LowBitTimesOddPart(m / 2);
      assert LowBit(m) == 2 * LowBit(m / 2);
      assert OddPart(m) * (2 * LowBit(m / 2)) == 2 * (OddPart(m / 2) * LowBit(m / 2));
    }
  }

  /** `m & (2^k - m)` keeps exactly the lowest set bit of `m`. */
  lemma {:induction false} AndNegated(m: nat, k: nat)
    requires 0 < m < Pow2(k)
    ensures And(m, Pow2(k) - m) == LowBit(m)
  {
    var p := Pow2(k - 1);
    var c := Pow2(k) - m;
    assert c == 2 * p - m;
    if m % 2 == 1 {
      assert c / 2 == p - 1 - m / 2;
      AndComplement(m / 2, k - 1);
    } else {
      assert c / 2 == p - m / 2;
      AndNegated(m / 2, k - 1);
    }
  }

  lemma {:induction false} AndComplement(a: nat, k: nat)
    requires a < Pow2(k)
    ensures And(a, Pow2(k) - 1 - a) == 0
  {
    if a != 0 && a != Pow2(k) - 1 {
      var p := Pow2(k - 1);
      var c := 2 * p - 1 - a;
      if a % 2 == 1 {
        assert c % 2 == 0 && c / 2 == p - 1 - a / 2;
      } else {
        assert c % 2 == 1 && c / 2 == p - 1 - a / 2;
      }
      AndComplement(a / 2, k - 1);
    }
  }

  /** `m & -m` on `uint64_t` is the lowest set bit. */
  lemma LowestSetBit(m: U64)
    requires 0 < m
    ensures And(m, Neg64(m)) == LowBit(m)
  {
    Pow2Words();
    assert Neg64(m) == Pow2(64) - m;
    AndNegated(m, 64);
  }
}

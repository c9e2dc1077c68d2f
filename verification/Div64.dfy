/** 64-bit by 32-bit division as 32-bit targets do it: `do_div` of asm-generic/div64.h, its
    reciprocal multiplication `__div64_const32`, and the shift-and-subtract loop `__div64_32`.

    Notation of the proofs: `D = 2^64 * p` where `p` is the highest power of two not above the divisor
    `b`, `2^64 = k * b + r + 1`, and `e` is how far `m * b` lies above `D`. */
module Div64 {
  import opened Words

  // ----- 128-bit products from 32-bit halves -----

  lemma ProductOfHalves(mHi: int, mLo: int, nHi: int, nLo: int)
    ensures (mHi * 0x1_0000_0000 + mLo) * (nHi * 0x1_0000_0000 + nLo)
         == mHi * nHi * 0x1_0000_0000_0000_0000 + (mHi * nLo + mLo * nHi) * 0x1_0000_0000 + mLo * nLo
  {}

  lemma HalfProductBound(a: U32, b: U32)
    ensures 0 <= a * b <= 0xffff_ffff * 0xffff_ffff
  {
    MulLe(0, a, b);
    MulLe(a, 0xffff_ffff, b);
  }

  /** `__arch_xprod_64`.  `constantM` is what `__builtin_constant_p(m)` answers; every store below is
      into 64 bits, so neither branch overflows. */
  method ArchXprod64(m: U64, n: U64, bias: bool, constantM: bool) returns (x: U64)
    ensures x == ((if bias then m else 0) + m * n) / 0x1_0000_0000_0000_0000
  {
    var mLo: U32, mHi: U32 := m % 0x1_0000_0000, m / 0x1_0000_0000;
    var nLo: U32, nHi: U32 := n % 0x1_0000_0000, n / 0x1_0000_0000;
    var noOvf := constantM && mHi + mLo < 0x1_0000_0000;
    ProductOfHalves(mHi, mLo, nHi, nLo);
    HalfProductBound(mHi, nHi);
    HalfProductBound(mHi, nLo);
    HalfProductBound(mLo, nHi);
    HalfProductBound(mLo, nLo);
    ghost var hh, hl, lh, ll := mHi * nHi, mHi * nLo, mLo * nHi, mLo * nLo;
    if noOvf {
      NoOverflowBound(mLo, mHi, nLo, nHi);
      x := mLo * nLo + (if bias then m else 0);
      x := x / 0x1_0000_0000;
      x := x + mLo * nHi;
      x := x + mHi * nLo;
      x := x / 0x1_0000_0000;
      CarryChain(hh, hl, lh, ll + (if bias then m else 0));
      x := x + mHi * nHi;
    } else {
      x := mLo * nLo + (if bias then mLo else 0);
      var y: U64 := mLo * nHi + x / 0x1_0000_0000 + (if bias then mHi else 0);
      FullCarryChain(hh, hl, lh + (if bias then mHi else 0), ll + (if bias then mLo else 0));
      x := mHi * nHi + y / 0x1_0000_0000;
      y := mHi * nLo + y % 0x1_0000_0000;
      x := x + y / 0x1_0000_0000;
    }
  }

  /** The sum of the halves staying below 2^32 is what lets one 64-bit accumulator hold every carry. */
  lemma NoOverflowBound(mLo: U32, mHi: U32, nLo: U32, nHi: U32)
    requires mHi + mLo < 0x1_0000_0000
    ensures mLo * nLo <= mLo * 0xffff_ffff
    ensures mLo * nHi + mHi * nLo <= 0xffff_ffff * 0xffff_ffff
  {
    MulLe(nLo, 0xffff_ffff, mLo);
    MulLe(nHi, 0xffff_ffff, mLo);
    MulLe(nLo, 0xffff_ffff, mHi);
  }

  lemma CarryChain(hh: nat, hl: nat, lh: nat, ll: nat)
    ensures (hh * 0x1_0000_0000_0000_0000 + (hl + lh) * 0x1_0000_0000 + ll) / 0x1_0000_0000_0000_0000
         == hh + (ll / 0x1_0000_0000 + lh + hl) / 0x1_0000_0000
  {}

  lemma FullCarryChain(hh: nat, hl: nat, lh: nat, ll: nat)
    ensures
      var y := lh + ll / 0x1_0000_0000;
      (hh * 0x1_0000_0000_0000_0000 + (hl + lh) * 0x1_0000_0000 + ll) / 0x1_0000_0000_0000_0000
      == hh + y / 0x1_0000_0000 + (hl + y % 0x1_0000_0000) / 0x1_0000_0000
  {}

  // ----- division by a constant -----

  /** A factor of a power of two is a power of two. */
  lemma {:induction false} FactorOfPower(b: nat, c: nat, j: nat)
    requires 0 < b && 0 < c && b * c == Pow2(j)
    ensures b == Pow2(ILog2(b))
    decreases j
  {
    if b == 1 {
    } else if b % 2 == 0 {
      HalvedFactor(b, c);
      FactorOfPower(b / 2, c, PredecessorOf(b, c, j));
    } else {
      HalvedFactor(b, c);
      FactorOfPower(b, c / 2, PredecessorOf(b, c, j));
    }
  }

  ghost function PredecessorOf(b: nat, c: nat, j: nat): (i: nat)
    requires 1 < b && 0 < c && b * c == Pow2(j)
    ensures i == j - 1 && Pow2(j) == 2 * Pow2(i)
  {
    MulLe(1, c, b);
    j - 1
  }

  lemma HalvedFactor(b: nat, c: nat)
    ensures b % 2 == 0 ==> b * c == 2 * (b / 2 * c)
    ensures b % 2 == 1 && (b * c) % 2 == 0 ==> c % 2 == 0 && b * c == 2 * (b * (c / 2))
  {
    assert b == 2 * (b / 2) + b % 2 && c == 2 * (c / 2) + c % 2;
    assert b * c == 2 * (b / 2 * c) + b % 2 * c;
    assert b * c == 2 * (b * (c / 2)) + b * (c % 2);
  }

  /** No multiple of a divisor that is not a power of two is a power of two. */
  lemma NotAMultiple(b: nat, c: int, j: nat)
    requires 0 < b && !IsPowerOf2(b)
    ensures c * b != Pow2(j)
  {
    PowerOf2Test(b);
    SignOfProduct(c, b);
    if c * b == Pow2(j) {
      FactorOfPower(b, c, j);
    }
  }

  /** The rounded-up reciprocal: `m = ceil(2^64 * p / b)`. */
  lemma ReciprocalUp(b: int, p: int, k: int, r: int, m: int)
    requires 0 < b && k * b + r + 1 == 0x1_0000_0000_0000_0000
    requires m == k * p + ((r + 1) * p + b - 1) / b
    ensures 0 <= m * b - 0x1_0000_0000_0000_0000 * p < b
  {
    var s := (r + 1) * p + b - 1;
    assert s == s / b * b + s % b;
    assert m * b == k * b * p + s / b * b;
    assert (k * b + r + 1) * p == k * b * p + (r + 1) * p;
  }

  /** The rounded-down reciprocal: `m = floor(2^64 * p / b)`. */
  lemma ReciprocalDown(b: int, p: int, k: int, r: int, m: int)
    requires 0 < b && k * b + r + 1 == 0x1_0000_0000_0000_0000
    requires m == k * p + (r + 1) * p / b
    ensures 0 <= 0x1_0000_0000_0000_0000 * p - m * b < b
  {
    var s := (r + 1) * p;
    assert s == s / b * b + s % b;
    assert m * b == k * b * p + s / b * b;
    assert (k * b + r + 1) * p == k * b * p + (r + 1) * p;
  }

  lemma SignOfProduct(a: int, b: int)
    requires 0 < b
    ensures 0 <= a * b <==> 0 <= a
    ensures 0 < a * b <==> 0 < a
  {
    assert a <= -1 ==> a * b <= -b;
    assert a >= 1 ==> a * b >= b;
  }

  /** If the test passes, multiplying by the rounded-up reciprocal divides every 64-bit dividend. */
  lemma UnbiasedIsExact(n: U64, b: U32, p: int, m: int, e: int, k: int, r: int)
    requires 0 < b && 1 <= p && 1 <= k && 0 <= r && r + 1 < b
    requires k * b + r + 1 == 0x1_0000_0000_0000_0000
    requires 0 < e < b && m * b == 0x1_0000_0000_0000_0000 * p + e
    requires e * (k * b - 1) < 0x1_0000_0000_0000_0000 * p
    ensures m * n / (0x1_0000_0000_0000_0000 * p) == n / b
  {
    var D := 0x1_0000_0000_0000_0000 * p;
    var q, s := n / b, n % b;
    assert n == q * b + s;
    RoundingStaysBelow(n, b, D, e, k, r, q, s);
    QuotientFromRounding(n, b, D, m, e, q, s);
  }

  /** `e * n < D * (b - n % b)`: for `n` up to the test point because the test bounds `e * n`, and
      beyond it because there the remainder leaves two units. */
  lemma RoundingStaysBelow(n: int, b: int, D: int, e: int, k: int, r: int, q: int, s: int)
    requires 0 <= n <= k * b + r && 0 < b < 0x1_0000_0000 && 1 <= k && 0 <= r && r + 1 < b
    requires 0 < e < b && 0x1_0000_0000_0000_0000 <= D && e * (k * b - 1) < D
    requires n == q * b + s && 0 <= s < b
    ensures e * n < D * (b - s)
  {
    var x := k * b - 1;
    if n <= x {
      MulLe(n, x, e);
      MulLe(1, b - s, D);
    } else {
      DivModUnique(n, b, q, s);
      DivModUnique(n, b, k, n - k * b);
      BeyondTestPoint(x, b, D, e, s);
    }
  }

  lemma BeyondTestPoint(x: int, b: int, D: int, e: int, s: int)
    requires 0 < e < b < 0x1_0000_0000 && 0 <= s && s + 1 < b
    requires 0x1_0000_0000_0000_0000 <= D && e * x < D
    ensures e * (x + 1 + s) < D * (b - s)
  {
    MulLe(2, b - s, D);
    MulLe(e, 0xffff_ffff, 1 + s);
    assert e * (x + (1 + s)) == e * x + e * (1 + s);
  }

  lemma QuotientFromRounding(n: int, b: int, D: int, m: int, e: int, q: int, s: int)
    requires 0 <= n && 0 < b && 0 < D && 0 <= e && m * b == D + e
    requires n == q * b + s && 0 <= s < b && e * n < D * (b - s)
    ensures m * n / D == q
  {
    ScaledExcess(n, b, D, m, e, q, s);
    MulLe(0, s, D);
    MulLe(0, n, e);
    assert D * (b - s) == D * b - D * s;
    QuotientByScale(m * n, D, q, b);
  }

  lemma QuotientByScale(x: int, D: int, q: int, b: int)
    requires 0 < D && 0 < b && 0 <= (x - q * D) * b && 0 < (q * D + D - x) * b
    ensures x / D == q
  {
    SignOfProduct(x - q * D, b);
    SignOfProduct(q * D + D - x, b);
    DivIs(x, D, q);
  }

  /** How far `m * n` lies above `q * D` and below `q * D + D`, scaled by `b`. */
  lemma ScaledExcess(n: int, b: int, D: int, m: int, e: int, q: int, s: int)
    requires m * b == D + e && n == q * b + s
    ensures (m * n - q * D) * b == D * s + e * n
    ensures (q * D + D - m * n) * b == D * b - D * s - e * n
  {
    calc {
      m * n * b;
      m * b * n;
      (D + e) * n;
      D * n + e * n;
    }
    calc {
      D * n;
      D * (q * b + s);
      D * (q * b) + D * s;
      q * D * b + D * s;
    }
  }

  /** The compile-time test of `m` at `x = k * b - 1` succeeds exactly when the accumulated rounding
      `e * x` stays below `D`. */
  lemma TestPoint(b: int, D: int, m: int, e: int, k: int)
    requires 0 < b && 0 < D && 0 < e && 1 <= k && m * b == D + e
    ensures m * (k * b - 1) / D == k - 1 <==> e * (k * b - 1) < D
  {
    var x := k * b - 1;
    MulLe(1, k, b);
    if e * x < D {
      assert x == (k - 1) * b + (b - 1);
      QuotientFromRounding(x, b, D, m, e, k - 1, b - 1);
    } else {
      PastTestPoint(b, D, m, e, k, x);
      DivMonotone(k * D, m * x, D);
      DivOfProduct(k, D);
    }
  }

  lemma PastTestPoint(b: int, D: int, m: int, e: int, k: int, x: int)
    requires 0 < b && m * b == D + e && x == k * b - 1 && D <= e * x
    ensures k * D <= m * x
  {
    assert (m * x - k * D) * b == e * x - D by {
      assert m * x * b == m * b * x;
      assert (D + e) * x == D * x + e * x;
      assert D * x == k * D * b - D;
    }
    SignOfProduct(m * x - k * D, b);
  }

  /** If the test fails, the rounded-down reciprocal falls short of `D` by less than `p`, so that adding
      `m` once more makes it exact on every 64-bit dividend. */
  lemma BiasedIsExact(n: U64, b: U32, p: int, m: int, f: int)
    requires 0 < b && 1 <= p && 0 < f <= p && m * b == 0x1_0000_0000_0000_0000 * p - f
    ensures (m + m * n) / (0x1_0000_0000_0000_0000 * p) == n / b
  {
    assert n == n / b * b + n % b;
    assert m * (n + 1) == m + m * n;
    BiasedQuotient(n + 1, b, p, m, f, n / b, n % b + 1);
  }

  lemma BiasedQuotient(n: int, b: int, p: int, m: int, f: int, q: int, s: int)
    requires 0 < n <= 0x1_0000_0000_0000_0000 && 0 < b && 1 <= p && 0 < f <= p
    requires m * b == 0x1_0000_0000_0000_0000 * p - f && n == q * b + s && 1 <= s <= b
    ensures m * n / (0x1_0000_0000_0000_0000 * p) == q
  {
    var D := 0x1_0000_0000_0000_0000 * p;
    ScaledExcess(n, b, D, m, -f, q, s);
    assert -f * n == -(f * n);
    assert 0 < f * n <= D by {
      MulLe(1, f, n);
      MulLe(f, p, n);
      MulLe(n, 0x1_0000_0000_0000_0000, p);
    }
    MulLe(1, s, D);
    MulLe(s, b, D);
    QuotientByScale(m * n, D, q, b);
  }

  /** A failed test means that more than half of the divisor was rounded away. */
  lemma FailedTestRounding(x: U64, p: int, e: int)
    requires 0 <= e && 0x1_0000_0000_0000_0000 * p <= e * x
    ensures p <= e
  {
    MulLe(x, 0x1_0000_0000_0000_0000, e);
  }

  /** `m & -m` never exceeds `p`, so `p / (m & -m)` is exact and never zero: `m * b` is within `2 * p`
      of `2^64 * p` without reaching it. */
  lemma LowBitDividesP(m: nat, b: int, i: nat, s: int)
    requires 0 < m && m * b == 0x1_0000_0000_0000_0000 * Pow2(i) + s
    requires s != 0 && -2 * Pow2(i) < s < 2 * Pow2(i)
    ensures TrailingZeros(m) <= i
  {
    if i < TrailingZeros(m) {
      var d := TrailingZerosFactor(m, i + 1);
      MultipleOffset(m, d, Pow2(i + 1), b, s);
    }
  }

  lemma {:induction false} TrailingZerosFactor(m: nat, i: nat) returns (d: nat)
    requires 0 < m && i <= TrailingZeros(m)
    ensures m == d * Pow2(i)
  {
    if i == 0 {
      d := m;
    } else {
      d := TrailingZerosFactor(m / 2, i - 1);
      assert d * Pow2(i) == 2 * (d * Pow2(i - 1));
    }
  }

  /** A multiple of `w` cannot miss another multiple of `w` by less than `w`. */
  lemma MultipleOffset(m: int, d: int, w: int, b: int, s: int)
    requires 0 < w && m == d * w && m * b == 0x8000_0000_0000_0000 * w + s
    ensures s == 0 || s >= w || s <= -w
  {
    var c := d * b - 0x8000_0000_0000_0000;
    assert c * w == s by {
      assert d * w * b == d * b * w;
    }
    assert c >= 1 ==> c * w >= w;
    assert c <= -1 ==> c * w <= -w;
  }

  /** Dividing `m` and `p` by their common power of two does not change the quotient. */
  lemma ReducedQuotient(m: nat, p: nat, g: nat, m': nat, p': nat, t: nat)
    requires 0 < g && 0 < p' && m == m' * g && p == p' * g
    ensures 0 < p && m' * t / 0x1_0000_0000_0000_0000 / p' == m * t / (0x1_0000_0000_0000_0000 * p)
  {
    DivDiv(m' * t, 0x1_0000_0000_0000_0000, p');
    DivCancel(m' * t, 0x1_0000_0000_0000_0000 * p', g);
    assert m' * t * g == m * t;
    assert 0x1_0000_0000_0000_0000 * p' * g == 0x1_0000_0000_0000_0000 * p;
    MulLe(1, p', g);
  }

  /** What holds of a divisor that is not a power of two. */
  lemma DivisorFacts(b: nat, k: int, r: int)
    requires 0 < b < 0x1_0000_0000 && !IsPowerOf2(b)
    requires k * b + r == 0xffff_ffff_ffff_ffff && 0 <= r < b
    ensures 1 <= Pow2(ILog2(b)) < b < 2 * Pow2(ILog2(b))
    ensures 1 <= k && k * b + r + 1 == 0x1_0000_0000_0000_0000 && r + 1 < b
  {
    ILog2Bounds(b);
    PowerOf2Test(b);
    SignOfProduct(k, b);
    assert (k + 1) * b == k * b + b;
    assert (k + 1) * b != 0x1_0000_0000_0000_0000 by {
      Pow2Words();
      NotAMultiple(b, k + 1, 64);
    }
  }

  /** The reciprocal is never exact, and fits 64 bits. */
  lemma ReciprocalRange(b: int, i: nat, m: int, s: int)
    requires 0 < b < 0x1_0000_0000 && !IsPowerOf2(b) && Pow2(i) < b
    requires m * b == 0x1_0000_0000_0000_0000 * Pow2(i) + s && -b < s < b
    ensures s != 0 && 0 < m < 0x1_0000_0000_0000_0000
  {
    assert m * b != 0x1_0000_0000_0000_0000 * Pow2(i) by {
      Pow2Words();
      Pow2Add(64, i);
      NotAMultiple(b, m, 64 + i);
    }
    QuotientRange(b, Pow2(i), m, s);
  }

  lemma QuotientRange(b: int, p: int, m: int, s: int)
    requires 0 < p < b < 0x1_0000_0000 && m * b == 0x1_0000_0000_0000_0000 * p + s && -b < s < b
    ensures 0 < m < 0x1_0000_0000_0000_0000
  {
    SignOfProduct(m, b);
    SignOfProduct(0x1_0000_0000_0000_0000 - m, b);
    assert (0x1_0000_0000_0000_0000 - m) * b == 0x1_0000_0000_0000_0000 * b - m * b;
  }

  /** The high 64 bits of a 128-bit product, as the compile-time test of `__div64_const32` computes
      them. */
  method HighProduct(m: U64, x: U64) returns (res: U64)
    ensures res == m * x / 0x1_0000_0000_0000_0000
  {
    var mLo: U32, mHi: U32 := m % 0x1_0000_0000, m / 0x1_0000_0000;
    var xLo: U32, xHi: U32 := x % 0x1_0000_0000, x / 0x1_0000_0000;
    ProductOfHalves(mHi, mLo, xHi, xLo);
    HalfProductBound(mHi, xHi);
    HalfProductBound(mHi, xLo);
    HalfProductBound(mLo, xHi);
    HalfProductBound(mLo, xLo);
    FullCarryChain(mHi * xHi, mHi * xLo, mLo * xHi, mLo * xLo);
    res := mLo * xLo;
    var t: U64 := mLo * xHi + res / 0x1_0000_0000;
    res := mHi * xHi + t / 0x1_0000_0000;
    t := mHi * xLo + t % 0x1_0000_0000;
    res := res + t / 0x1_0000_0000;
  }

  /** `n` times the reciprocal, scaled down by `2^64 * p`. */
  ghost function ScaledProduct(m: U64, p: U32, bias: bool, n: U64): int
    requires 0 < p
  {
    ((if bias then m else 0) + m * n) / (0x1_0000_0000_0000_0000 * p)
  }

  /** The reciprocal of `b` before the reduction by `m & -m`: rounded up if that passes the test, else
      rounded down with a bias. */
  method ChooseReciprocal(b: U32) returns (m: U64, p: U32, bias: bool, ghost s: int)
    requires 0 < b && !IsPowerOf2(b)
    ensures p == Pow2(ILog2(b)) && 0 < m && 0 < p
    ensures m * b == 0x1_0000_0000_0000_0000 * p + s && s != 0 && -2 * p < s < 2 * p
    ensures forall n: U64 :: ScaledProduct(m, p, bias, n) == n / b
  {
    ILog2Bounds(b);
    p := Pow2(ILog2(b));
    var k: U64, r: U32 := QuotientOfAllOnes(b);
    DivisorFacts(b, k, r);
    SumsFit(p, b, k, r);

    // m = ((p << 64) + b - 1) / b
    var up: U64 := (r + 1) * p + b - 1;
    ghost var e := RoundedUp(b, k, r, k * p + up / b);
    m := k * p;
    m := m + up / b;
    ghost var m1 := m;

    // one less than the dividend with the highest quotient
    var x: U64 := k * b - 1;
    var high := HighProduct(m, x);
    TestMeaning(b, p, m, e, k, x);
    bias, s := false, e;
    if high / p != x / b {
      bias := true;
      // m = (p << 64) / b
      var down: U64 := (r + 1) * p;
      s := RoundedDown(b, k, r, k * p + down / b);
      m := k * p;
      m := m + down / b;
      FailedTestRounding(x, p, e);
      OneApart(b, m, m1, s, e);
      forall n: U64
        ensures ScaledProduct(m, p, bias, n) == n / b
      {
        BiasedIsExact(n, b, p, m, -s);
      }
    } else {
      forall n: U64
        ensures ScaledProduct(m, p, bias, n) == n / b
      {
        UnbiasedIsExact(n, b, p, m, e, k, r);
      }
    }
  }

  /** `~0ULL / b` and `~0ULL % b`. */
  method QuotientOfAllOnes(b: U32) returns (k: U64, r: U32)
    requires 0 < b
    ensures k == 0xffff_ffff_ffff_ffff / b && r == 0xffff_ffff_ffff_ffff % b
    ensures k * b + r == 0xffff_ffff_ffff_ffff && 0 <= r < b
  {
    DivShrinks(0xffff_ffff_ffff_ffff, b);
    k, r := 0xffff_ffff_ffff_ffff / b, 0xffff_ffff_ffff_ffff % b;
  }

  lemma RoundedUp(b: U32, k: int, r: int, m: int) returns (e: int)
    requires 0 < b && !IsPowerOf2(b) && Pow2(ILog2(b)) < b
    requires k * b + r + 1 == 0x1_0000_0000_0000_0000
    requires m == k * Pow2(ILog2(b)) + ((r + 1) * Pow2(ILog2(b)) + b - 1) / b
    ensures m * b == 0x1_0000_0000_0000_0000 * Pow2(ILog2(b)) + e && 0 < e < b
    ensures 0 < m < 0x1_0000_0000_0000_0000
  {
    ReciprocalUp(b, Pow2(ILog2(b)), k, r, m);
    e := m * b - 0x1_0000_0000_0000_0000 * Pow2(ILog2(b));
    ReciprocalRange(b, ILog2(b), m, e);
  }

  lemma RoundedDown(b: U32, k: int, r: int, m: int) returns (s: int)
    requires 0 < b && !IsPowerOf2(b) && Pow2(ILog2(b)) < b
    requires k * b + r + 1 == 0x1_0000_0000_0000_0000
    requires m == k * Pow2(ILog2(b)) + (r + 1) * Pow2(ILog2(b)) / b
    ensures m * b == 0x1_0000_0000_0000_0000 * Pow2(ILog2(b)) + s && -(b as int) < s < 0
    ensures 0 < m < 0x1_0000_0000_0000_0000
  {
    ReciprocalDown(b, Pow2(ILog2(b)), k, r, m);
    s := m * b - 0x1_0000_0000_0000_0000 * Pow2(ILog2(b));
    ReciprocalRange(b, ILog2(b), m, s);
  }

  /** The comparison `res != x / b` of the source asks whether the rounding `e * x` reaches `2^64 * p`. */
  lemma TestMeaning(b: int, p: int, m: int, e: int, k: int, x: int)
    requires 0 < b && 0 < p && 0 < e && 1 <= k && 0 <= m && x == k * b - 1
    requires m * b == 0x1_0000_0000_0000_0000 * p + e
    ensures m * x / 0x1_0000_0000_0000_0000 / p == x / b <==> e * x < 0x1_0000_0000_0000_0000 * p
  {
    MulLe(1, k, b);
    MulLe(0, x, m);
    DivDiv(m * x, 0x1_0000_0000_0000_0000, p);
    TestPoint(b, 0x1_0000_0000_0000_0000 * p, m, e, k);
    assert (k - 1) * b == k * b - b;
    DivIs(x, b, k - 1);
  }

  lemma SumsFit(p: int, b: int, k: int, r: int)
    requires 1 <= p < b < 0x1_0000_0000 && 0 <= r && r + 1 < b
    requires 1 <= k && k * b + r + 1 == 0x1_0000_0000_0000_0000
    ensures 0 <= (r + 1) * p && (r + 1) * p + b - 1 < 0x1_0000_0000_0000_0000
    ensures 0 <= k * p < 0x1_0000_0000_0000_0000
    ensures b <= k * b
  {
    MulLe(r + 1, 0xffff_ffff, p);
    MulLe(0, r + 1, p);
    MulLe(p, b, k);
    MulLe(0, k, p);
    MulLe(1, k, b);
  }

  /** The two roundings of an inexact quotient are neighbours. */
  lemma OneApart(b: int, down: int, up: int, s: int, e: int)
    requires 0 < b && 0 < e < b && -b < s < 0 && up * b - e == down * b - s
    ensures up == down + 1 && s == e - b
  {
    assert (up - down) * b == e - s;
    MultipleBetween(up - down, b);
  }

  lemma MultipleBetween(c: int, b: int)
    requires 0 < b && 0 < c * b < 2 * b
    ensures c == 1
  {
    assert c <= 0 ==> c * b <= 0;
    assert c >= 2 ==> c * b >= 2 * b;
  }

  /** `__div64_const32`: division by a constant that is not a power of two, as one multiplication.
      `constantM` is what `__builtin_constant_p` answers about the reduced reciprocal. */
  method Div64Const32(n: U64, b: U32, constantM: bool) returns (res: U64)
    requires 0 < b && !IsPowerOf2(b)
    ensures res == n / b
  {
    var m, p, bias, s := ChooseReciprocal(b);
    ghost var m0, p0 := m, p;
    var g := And(m, Neg64(m));
    ReductionIsExact(b, m, p, s);
    p := p / g;
    m := m / g;
    res := ArchXprod64(m, n, bias, constantM);
    assert ScaledProduct(m0, p0, bias, n) == n / b;
    DivShrinks(n, b);
    ReductionKeepsQuotient(m0, p0, g, m, p, bias, n);
    res := res / p;
  }

  lemma ReductionKeepsQuotient(m0: U64, p0: U32, g: nat, m: U64, p: U32, bias: bool, n: U64)
    requires 0 < g && 0 < p && m0 == m * g && 0 < p0 == p * g
    ensures ((if bias then m else 0) + m * n) / 0x1_0000_0000_0000_0000 / p == ScaledProduct(m0, p0, bias, n)
  {
    BiasedProduct(m, n, bias);
    BiasedProduct(m0, n, bias);
    ReducedQuotient(m0, p0, g, m, p, if bias then n + 1 else n);
  }

  lemma BiasedProduct(m: int, n: int, bias: bool)
    ensures (if bias then m else 0) + m * n == m * (if bias then n + 1 else n)
  {}

  /** The step that divides `m` and `p` by `m & -m` is exact in both. */
  lemma ReductionIsExact(b: U32, m: U64, p: U32, s: int)
    requires 0 < b && 0 < m && p == Pow2(ILog2(b))
    requires m * b == 0x1_0000_0000_0000_0000 * p + s && s != 0 && -2 * p < s < 2 * p
    ensures
      var g := And(m, Neg64(m));
      0 < g && 0 < p / g <= p && 0 <= m / g <= m && m == m / g * g && p == p / g * g
  {
    DivShrinks(m, LowBit(m));
    DivShrinks(p, LowBit(m));
    LowestSetBit(m);
    LowBitTimesOddPart(m);
    LowBitDividesP(m, b, ILog2(b), s);
    ExactPowerQuotient(ILog2(b), TrailingZeros(m));
    DivOfProduct(OddPart(m), LowBit(m));
  }

  lemma ExactPowerQuotient(i: nat, j: nat)
    requires j <= i
    ensures Pow2(i) / Pow2(j) == Pow2(i - j) && Pow2(i) == Pow2(i - j) * Pow2(j)
  {
    Pow2Add(i - j, j);
    DivOfProduct(Pow2(i - j), Pow2(j));
  }

  // ----- shift and subtract -----

  /** `__div64_32`: the divisor is doubled until it reaches the dividend or bit 63, then halved back
      while it is subtracted. */
  method Div64By32(n: U64, base: U32) returns (res: U64, remainder: U32)
    requires 0 < base
    ensures res == n / base && remainder == n % base
  {
    var rem: U64 := n;
    var high: U32 := rem / 0x1_0000_0000;
    res := 0;
    if high >= base {
      HighPart(n, base, high);
      high := high / base;
      res := high * 0x1_0000_0000;
      var product: U32 := high * base;
      rem := rem - product * 0x1_0000_0000;
    }
    var b, d, k := DoubleDivisor(rem, base);
    res, rem := SubtractShifted(n, base, res, rem, b, d, k);
    DivModUnique(n, base, res, rem);
    remainder := rem;
  }

  /** The doubling loop stops with `b = base * d` at least half of what is left, without overflow. */
  method DoubleDivisor(rem: U64, base: U32) returns (b: U64, d: U64, ghost k: nat)
    requires 0 < base
    ensures d == Pow2(k) && b == base * d && d <= b && rem - b < b
  {
    b, d, k := base, 1, 0;
    while b < 0x8000_0000_0000_0000 && b < rem
      invariant d == Pow2(k) && b == base * d && d <= b
      decreases 0x1_0000_0000_0000_0000 - b
    {
      assert base * (d + d) == base * d + base * d;
      b := b + b;
      d := d + d;
      k := k + 1;
    }
  }

  /** The halving loop: `n = res * base + rem` throughout, and `rem` ends below `base`. */
  method SubtractShifted(n: U64, base: U32, res0: U64, rem0: U64, b0: U64, d0: U64, ghost k0: nat)
    returns (res: U64, rem: U64)
    requires 0 < base && d0 == Pow2(k0) && b0 == base * d0 && rem0 - b0 < b0
    requires n == res0 * base + rem0
    ensures n == res * base + rem && rem < base
  {
    res, rem := res0, rem0;
    var b, d, k := b0, d0, k0;
    while true
      invariant d == Pow2(k) && b == base * d && rem - b < b
      invariant n == res * base + rem
      decreases d
    {
      if rem >= b {
        SubtractStep(n, base, res, rem, d);
        rem := rem - b;
        res := res + d;
      }
      HalveProduct(base, d, k);
      b := b / 2;
      d := d / 2;
      if d == 0 { break; }
      k := k - 1;
    }
  }

  lemma HalveProduct(base: int, d: int, k: nat)
    requires d == Pow2(k)
    ensures k == 0 ==> d == 1 && base * d == base
    ensures k != 0 ==> d / 2 == Pow2(k - 1) && base * d == 2 * (base * (d / 2))
  {}

  /** Dividing the high word first: its quotient keeps the invariant and the products fit. */
  lemma HighPart(n: U64, base: U32, high: U32)
    requires 0 < base && high == n / 0x1_0000_0000
    ensures 0 <= high / base <= high && 0 <= high / base * base <= high
    ensures n == high / base * 0x1_0000_0000 * base + (n - high / base * base * 0x1_0000_0000)
  {
    DivShrinks(high, base);
    assert high == high / base * base + high % base;
    MulLe(0, high / base, base);
  }

  lemma SubtractStep(n: int, base: int, res: int, rem: int, d: int)
    requires 0 < base && 0 <= rem && n == res * base + rem && base * d <= rem && 0 <= res && 0 < d
    ensures n == (res + d) * base + (rem - base * d) && res + d <= n
  {
    assert (res + d) * base == res * base + base * d;
    MulLe(1, base, res + d);
  }

  // ----- do_div -----

  /** `do_div` on a 32-bit target: the new value of `n` and the remainder.  `constantBase` and
      `constantM` are what `__builtin_constant_p` answers; the result does not depend on them. */
  method DoDiv(n: U64, base: U32, constantBase: bool, constantM: bool) returns (quotient: U64, rem: U32)
    requires 0 < base
    ensures quotient == n / base && rem == n % base
  {
    if constantBase && IsPowerOf2(base) {
      PowerOf2Test(base);
      AndMask(n, ILog2(base));
      DivShrinks(n, base);
      rem := And(n, base - 1);
      quotient := n / Pow2(ILog2(base));
    } else if constantBase && base != 0 {
      quotient := Div64Const32(n, base, constantM);
      LowWordRemainder(n, base, quotient);
      rem := Wrap32(n % 0x1_0000_0000 - quotient % 0x1_0000_0000 * base);
    } else if n / 0x1_0000_0000 == 0 {
      DivShrinks(n, base);
      rem := n % base;
      quotient := n / base;
    } else {
      quotient, rem := Div64By32(n, base);
    }
  }

  /** The remainder can be computed from the low words alone. */
  lemma LowWordRemainder(n: U64, base: U32, q: U64)
    requires 0 < base && q == n / base
    ensures Wrap32(n % 0x1_0000_0000 - q % 0x1_0000_0000 * base) == n % base
  {
    var nHi, qHi := n / 0x1_0000_0000, q / 0x1_0000_0000;
    assert n == q * base + n % base;
    assert q * base == q % 0x1_0000_0000 * base + qHi * base * 0x1_0000_0000;
    var x := n % 0x1_0000_0000 - q % 0x1_0000_0000 * base;
    DivModUnique(x, 0x1_0000_0000, qHi * base - nHi, n % base);
  }
}

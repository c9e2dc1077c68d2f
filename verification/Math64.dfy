/** The 64-bit multiply-and-shift and multiply-and-divide helpers of linux/math64.h, in the form used
    where the compiler has no 128-bit integers. */
module Math64 {
  import opened Words
  import opened Div64

  lemma ModScale(x: nat, p: nat, w: nat)
    requires 0 < p && 0 < w
    ensures 0 < p * w && (x * w) % (p * w) == x % p * w
  {
    var q, r := x / p, x % p;
    assert x == q * p + r;
    MulLe(1, p, w);
    MulLe(0, r, w);
    MulLe(r + 1, p, w);
    assert x * w == q * (p * w) + r * w;
    DivModUnique(x * w, p * w, q, r * w);
  }

  /** Both halves of a 128-bit product, carried word by word. */
  method FullProduct(a: U64, b: U64) returns (rh: U64, rl: U64)
    ensures a * b == rh * 0x1_0000_0000_0000_0000 + rl
  {
    var aLo: U32, aHi: U32 := a % 0x1_0000_0000, a / 0x1_0000_0000;
    var bLo: U32, bHi: U32 := b % 0x1_0000_0000, b / 0x1_0000_0000;
    ProductOfHalves(aHi, aLo, bHi, bLo);
    HalfProductBound(aLo, bLo);
    HalfProductBound(aLo, bHi);
    HalfProductBound(aHi, bLo);
    HalfProductBound(aHi, bHi);
    rl := aLo * bLo;
    var rm: U64 := aLo * bHi;
    var rn: U64 := aHi * bLo;
    rh := aHi * bHi;
    WordCarries(rl, rm, rn, rh);
    var c: U64 := rl / 0x1_0000_0000 + rm % 0x1_0000_0000 + rn % 0x1_0000_0000;
    rl := c % 0x1_0000_0000 * 0x1_0000_0000 + rl % 0x1_0000_0000;
    c := c / 0x1_0000_0000 + rm / 0x1_0000_0000 + rn / 0x1_0000_0000 + rh % 0x1_0000_0000;
    var high: U32 := c / 0x1_0000_0000 + rh / 0x1_0000_0000;
    rh := high * 0x1_0000_0000 + c % 0x1_0000_0000;
  }

  lemma WordCarries(rl: U64, rm: U64, rn: U64, rh: U64)
    requires rl <= 0xffff_ffff * 0xffff_ffff && rm <= 0xffff_ffff * 0xffff_ffff
    requires rn <= 0xffff_ffff * 0xffff_ffff && rh <= 0xffff_ffff * 0xffff_ffff
    ensures
      var c := rl / 0x1_0000_0000 + rm % 0x1_0000_0000 + rn % 0x1_0000_0000;
      var c2 := c / 0x1_0000_0000 + rm / 0x1_0000_0000 + rn / 0x1_0000_0000 + rh % 0x1_0000_0000;
      var high := c2 / 0x1_0000_0000 + rh / 0x1_0000_0000;
      && high < 0x1_0000_0000
      && rh * 0x1_0000_0000_0000_0000 + (rn + rm) * 0x1_0000_0000 + rl
         == (high * 0x1_0000_0000 + c2 % 0x1_0000_0000) * 0x1_0000_0000_0000_0000
            + c % 0x1_0000_0000 * 0x1_0000_0000 + rl % 0x1_0000_0000
  {}

  /** `mul_u64_u64_shr`. */
  method MulU64U64Shr(a: U64, b: U64, shift: nat) returns (r: U64)
    requires shift < 128
    ensures r == a * b / Pow2(shift) % 0x1_0000_0000_0000_0000
  {
    var rh, rl := FullProduct(a, b);
    r := ShiftWordsRight(rh, rl, shift);
  }

  /** The shift at the end of `mul_u64_u64_shr`: the low 64 bits of the shifted two-word value. */
  method ShiftWordsRight(rh: U64, rl: U64, shift: nat) returns (r: U64)
    requires shift < 128
    ensures r == (rh * 0x1_0000_0000_0000_0000 + rl) / Pow2(shift) % 0x1_0000_0000_0000_0000
  {
    if shift == 0 {
      r := rl;
    } else if shift < 64 {
      r := ShiftBelowWord(rh, rl, shift);
    } else {
      r := ShiftAboveWord(rh, rl, shift);
    }
  }

  method ShiftBelowWord(rh: U64, rl: U64, shift: nat) returns (r: U64)
    requires 0 < shift < 64
    ensures r == (rh * 0x1_0000_0000_0000_0000 + rl) / Pow2(shift) % 0x1_0000_0000_0000_0000
  {
    var p, w := Pow2(shift), Pow2(64 - shift);
    assert p * w == 0x1_0000_0000_0000_0000 by {
      Pow2Add(shift, 64 - shift);
      Pow2Words();
    }
    DivShrinks(rl, p);
    var low: U64 := rl / p;
    var moved: U64 := rh * w % 0x1_0000_0000_0000_0000;
    MovedBits(rh, rl, p, w, low, moved);
    OrDisjoint(low, rh % p, 64 - shift);
    r := Or(low, moved);
  }

  method ShiftAboveWord(rh: U64, rl: U64, shift: nat) returns (r: U64)
    requires 64 <= shift < 128
    ensures r == (rh * 0x1_0000_0000_0000_0000 + rl) / Pow2(shift) % 0x1_0000_0000_0000_0000
  {
    var mask: nat := 63;
    LowSixBits(shift, mask, 64);
    var p := Pow2(And(shift, mask));
    ShiftHighWord(rh * 0x1_0000_0000_0000_0000 + rl, rh, rl, shift);
    r := rh / p;
  }

  lemma LowSixBits(shift: nat, mask: nat, p: nat)
    requires 64 <= shift < 128 && p == 64 && mask == p - 1
    ensures And(shift, mask) == shift - 64
  {
    assert p == Pow2(6);
    AndMask(shift, 6);
  }

  /** Shifting a two-word value right by less than a word: what the low word keeps and what moves
      down from the high word do not overlap, and add up to the result. */
  lemma MovedBits(rh: nat, rl: nat, p: nat, w: nat, low: nat, moved: nat)
    requires 0 < p && 0 < w && p * w == 0x1_0000_0000_0000_0000 && rl < p * w
    requires low == rl / p && moved == rh * w % 0x1_0000_0000_0000_0000
    ensures low < w && moved == rh % p * w && low + moved < 0x1_0000_0000_0000_0000
    ensures low + moved == (rh * 0x1_0000_0000_0000_0000 + rl) / p % 0x1_0000_0000_0000_0000
  {
    ModScale(rh, p, w);
    LowPartBound(rl, p, w);
    assert moved + w <= p * w by {
      MulLe(rh % p + 1, p, w);
    }
    assert (rh * 0x1_0000_0000_0000_0000 + rl) / p == low + rh * w by {
      assert rh * (p * w) == rh * w * p;
      DivAddMultiple(rl, p, rh * w);
    }
    LowWordOfSum(low, rh * w, moved);
  }

  lemma LowWordOfSum(x: nat, y: nat, moved: nat)
    requires moved == y % 0x1_0000_0000_0000_0000 && x + moved < 0x1_0000_0000_0000_0000
    ensures (x + y) % 0x1_0000_0000_0000_0000 == x + moved
  {
    DivAddMultiple(x + moved, 0x1_0000_0000_0000_0000, y / 0x1_0000_0000_0000_0000);
  }

  lemma LowPartBound(rl: nat, p: nat, w: nat)
    requires 0 < p && 0 < w && rl < p * w
    ensures rl / p < w
  {
    assert rl == rl / p * p + rl % p;
    var d := rl / p - w;
    assert d * p == rl / p * p - p * w;
    assert d >= 0 ==> d * p >= 0;
  }

  lemma ShiftHighWord(product: nat, rh: U64, rl: U64, shift: nat)
    requires 64 <= shift < 128 && product == rh * 0x1_0000_0000_0000_0000 + rl
    ensures 0 <= rh / Pow2(shift - 64) < 0x1_0000_0000_0000_0000
    ensures rh / Pow2(shift - 64) == product / Pow2(shift) % 0x1_0000_0000_0000_0000
  {
    var p := Pow2(shift - 64);
    assert Pow2(shift) == 0x1_0000_0000_0000_0000 * p by {
      Pow2Words();
      Pow2Add(64, shift - 64);
    }
    DivModUnique(product, 0x1_0000_0000_0000_0000, rh, rl);
    DivDiv(product, 0x1_0000_0000_0000_0000, p);
    DivShrinks(rh, p);
  }

  /** `mul_u64_u32_shr`; a shift above 32 is undefined in the source. */
  method MulU64U32Shr(a: U64, mul: U32, shift: nat) returns (ret: U64)
    requires shift <= 32
    ensures ret == a * mul / Pow2(shift) % 0x1_0000_0000_0000_0000
  {
    var ah: U32, al: U32 := a / 0x1_0000_0000, a % 0x1_0000_0000;
    HalfProductBound(al, mul);
    HalfProductBound(ah, mul);
    SplitProductShift(ah, al, mul, shift);
    ret := ShiftedSum(al * mul, ah * mul, shift);
  }

  method ShiftedSum(low: U64, high: U64, shift: nat) returns (ret: U64)
    requires shift <= 32
    ensures ret == (low / Pow2(shift) + high * Pow2(32 - shift)) % 0x1_0000_0000_0000_0000
  {
    hide Pow2;
    var p, w := Pow2(shift), Pow2(32 - shift);
    DivShrinks(low, p);
    ret := low / p;
    MulLe(0, high, w);
    if high != 0 {
      ret := WrappingAdd(ret, high * w);
    }
  }

  method WrappingAdd(x: U64, y: nat) returns (sum: U64)
    ensures sum == (x + y) % 0x1_0000_0000_0000_0000
  {
    ModOfSum(x, y);
    var moved: U64 := y % 0x1_0000_0000_0000_0000;
    sum := (x + moved) % 0x1_0000_0000_0000_0000;
  }

  lemma ModOfSum(x: int, y: int)
    ensures (x + y % 0x1_0000_0000_0000_0000) % 0x1_0000_0000_0000_0000 == (x + y) % 0x1_0000_0000_0000_0000
  {}

  lemma SplitProductShift(ah: U32, al: U32, mul: U32, shift: nat)
    requires shift <= 32
    ensures (ah * 0x1_0000_0000 + al) * mul / Pow2(shift) == al * mul / Pow2(shift) + ah * mul * Pow2(32 - shift)
  {
    var p, w := Pow2(shift), Pow2(32 - shift);
    assert p * w == 0x1_0000_0000 by {
      Pow2Add(shift, 32 - shift);
      Pow2Words();
    }
    assert (ah * (p * w) + al) * mul == al * mul + ah * mul * w * p;
    DivAddMultiple(al * mul, p, ah * mul * w);
  }

  /** `mul_u64_u32_div`: schoolbook division of the 96-bit product by a 32-bit divisor. */
  method MulU64U32Div(a: U64, mul: U32, divisor: U32) returns (r: U64)
    requires 0 < divisor
    ensures r == a * mul / divisor % 0x1_0000_0000_0000_0000
  {
    var uLo: U32, uHi: U32 := a % 0x1_0000_0000, a / 0x1_0000_0000;
    HalfProductBound(uLo, mul);
    HalfProductBound(uHi, mul);
    var rl: U64 := uLo * mul;
    var rh: U64 := uHi * mul + rl / 0x1_0000_0000;
    assert a * mul == rh * 0x1_0000_0000 + rl % 0x1_0000_0000;
    r := DivideWords(rh, rl % 0x1_0000_0000, divisor);
  }

  method DivideWords(high: U64, low: U32, divisor: U32) returns (r: U64)
    requires 0 < divisor
    ensures r == (high * 0x1_0000_0000 + low) / divisor % 0x1_0000_0000_0000_0000
  {
    var rh, rem := DoDiv(high, divisor, false, false);
    DivModParts(high, divisor, rh, rem);
    var rl: U64 := rem * 0x1_0000_0000 + low;
    var rl', rem' := DoDiv(rl, divisor, false, false);
    DivModParts(rl, divisor, rl', rem');
    LongDivision(high, low, divisor, rh, rem, rl', rem');
    JoinWords(rh, rl');
    r := rh % 0x1_0000_0000 * 0x1_0000_0000 + rl' % 0x1_0000_0000;
  }

  lemma JoinWords(q: nat, q': U32)
    ensures (q * 0x1_0000_0000 + q') % 0x1_0000_0000_0000_0000 == q % 0x1_0000_0000 * 0x1_0000_0000 + q'
  {}

  lemma DivModParts(n: int, b: int, q: int, r: int)
    requires 0 < b && q == n / b && r == n % b
    ensures n == q * b + r && 0 <= r < b
  {}

  /** Two steps of long division in base 2^32. */
  lemma LongDivision(high: int, low: int, d: int, q: int, m: int, q': int, m': int)
    requires 0 < d && 0 <= low < 0x1_0000_0000
    requires high == q * d + m && 0 <= m < d
    requires m * 0x1_0000_0000 + low == q' * d + m' && 0 <= m' < d
    ensures 0 <= q' < 0x1_0000_0000
    ensures (high * 0x1_0000_0000 + low) / d == q * 0x1_0000_0000 + q'
  {
    assert q' <= -1 ==> q' * d <= -d;
    assert q' >= 0x1_0000_0000 ==> q' * d >= 0x1_0000_0000 * d;
    assert (q * 0x1_0000_0000 + q') * d == q * d * 0x1_0000_0000 + q' * d;
    DivModUnique(high * 0x1_0000_0000 + low, d, q * 0x1_0000_0000 + q', m');
  }
}

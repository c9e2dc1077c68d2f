/** The inverse direction: `can_fixup_bittiming` of bittiming.c checks given segments and recovers the
    prescaler from the length of a time quantum, and `create_user_dev_setup` of resmgr.c turns a user's
    prescaler into such a length. */
module FixupBittiming {
  import opened Words
  import opened SamplePoint
  import opened Div64
  import opened BrpSearch
  import opened LegalSettings
  import opened CalcBittiming

  const INT_MAX: int := 0x7fff_ffff

  /** The prescaler lines 116 to 122 compute, before the conversion to 32 bits. */
  function RecoveredBrp(freq: U32, tq: U32, inc: U32): int
    requires 1 <= inc
  {
    (freq * tq / inc + 499_999_999) / 1_000_000_000 * inc
  }

  /** The rounded time quantum of line 138, before the conversion to 32 bits. */
  function RoundedTq(freq: U32, brp: U32): int
    requires 0 < freq
  {
    (brp * 1_000_000_000 + freq / 2) / freq
  }

  predicate Accepts(lim: Limits, freq: U32, t: Timing)
    requires 1 <= lim.brpInc
  {
    && SegmentsFit(lim, t)
    && JumpWidthFits(lim, JumpWidth(t.sjw, t.phaseSeg1, t.phaseSeg2), t.phaseSeg1, t.phaseSeg2)
    && lim.brpMin <= Wrap32(RecoveredBrp(freq, t.tq, lim.brpInc)) <= lim.brpMax
  }

  // ----- when the prescaler is recovered -----

  predicate SegmentsFit(lim: Limits, t: Timing) {
    && lim.tseg1Min <= Wrap32(t.propSeg + t.phaseSeg1) <= lim.tseg1Max
    && lim.tseg2Min <= t.phaseSeg2 <= lim.tseg2Max
  }

  /** What a rejected timing is left as: untouched, with its jump width set, or with its prescaler too. */
  function Rejected(lim: Limits, freq: U32, t: Timing): (r: Timing)
    requires 1 <= lim.brpInc
  {
    var sjw := JumpWidth(t.sjw, t.phaseSeg1, t.phaseSeg2);
    if !SegmentsFit(lim, t) then t
    else if !JumpWidthFits(lim, sjw, t.phaseSeg1, t.phaseSeg2) then t.(sjw := sjw)
    else t.(sjw := sjw, brp := Wrap32(RecoveredBrp(freq, t.tq, lim.brpInc)))
  }

  /** Exactly when a quantum of `tq` nanoseconds names the prescaler `k * inc`: the rounding slack,
      counted in steps of the prescaler, must stay within half a nanosecond count. */
  lemma RecoveryCondition(freq: U32, tq: U32, inc: U32, k: nat)
    requires 1 <= inc
    ensures RecoveredBrp(freq, tq, inc) == k * inc
        <==> -499_999_999 <= (freq * tq - k * inc * 1_000_000_000) / inc <= 500_000_000
  {
    var d := freq * tq - k * inc * 1_000_000_000;
    assert freq * tq == d + k * 1_000_000_000 * inc;
    DivAddMultiple(d, inc, k * 1_000_000_000);
    var n := (freq * tq / inc + 499_999_999) / 1_000_000_000;
    assert n == k <==> -499_999_999 <= d / inc <= 500_000_000;
    SameMultiple(n, k, inc);
  }

  lemma SameMultiple(a: int, b: int, c: int)
    requires 0 < c
    ensures a * c == b * c <==> a == b
  {
    SignOfProduct(a - b, c);
    assert (a - b) * c == a * c - b * c;
  }

  /** A quantum computed by rounding down, as `can_calc_bittiming` and `create_user_dev_setup` do it,
      names its prescaler exactly when what was rounded away is less than half a second per step. */
  lemma RoundedDownRecovery(freq: U32, brp: U32, inc: U32, tq: U32)
    requires 0 < freq && 1 <= inc && brp % inc == 0 && tq == brp * 1_000_000_000 / freq
    ensures RecoveredBrp(freq, tq, inc) <= brp
    ensures RecoveredBrp(freq, tq, inc) == brp <==> (brp * 1_000_000_000 % freq + inc - 1) / inc <= 499_999_999
  {
    var lost, k := brp * 1_000_000_000 % freq, brp / inc;
    DivShrinks(brp, inc);
    assert brp == k * inc;
    assert freq * tq == brp * 1_000_000_000 - lost;
    RecoveryCondition(freq, tq, inc, k);
    NegatedQuotient(lost, inc);
    RecoveredAtMost(freq, tq, inc, k, lost);
  }

  lemma NegatedQuotient(x: nat, c: nat)
    requires 0 < c
    ensures (0 - x) / c == -((x + c - 1) / c)
  {
    var n := x + c - 1;
    assert n == n / c * c + n % c;
    assert (0 - n / c) * c == -(n / c * c);
    DivModUnique(0 - x, c, 0 - n / c, c - 1 - n % c);
  }

  lemma RecoveredAtMost(freq: U32, tq: U32, inc: U32, k: nat, lost: nat)
    requires 1 <= inc && freq * tq == k * inc * 1_000_000_000 - lost
    ensures RecoveredBrp(freq, tq, inc) <= k * inc
  {
    var steps := freq * tq / inc;
    assert steps <= k * 1_000_000_000 by {
      assert k * inc * 1_000_000_000 == k * 1_000_000_000 * inc;
      DivMonotone(freq * tq, k * 1_000_000_000 * inc, inc);
      DivOfProduct(k * 1_000_000_000, inc);
    }
    MulLe((steps + 499_999_999) / 1_000_000_000, k, inc);
  }

  lemma CeilShrinks(x: nat, c: nat)
    requires 0 < c
    ensures (x + c - 1) / c <= x
  {
    MulLe(0, x, c - 1);
    assert x * c == x * (c - 1) + x;
    DivOfProduct(x, c);
    if x == 0 {
      DivModUnique(c - 1, c, 0, c - 1);
    } else {
      assert x + c - 1 <= x * c by { MulLe(1, x, c - 1); }
      DivMonotone(x + c - 1, x * c, c);
    }
  }

  /** A faster clock can: at 800 MHz, prescaler 3 comes back as 2. */
  lemma FastClockLosesPrescaler()
    ensures 3 * 1_000_000_000 / 800_000_000 == 3 && RecoveredBrp(800_000_000, 3, 1) == 2
  {
    assert 800_000_000 * 3 / 1 == 2_400_000_000;
  }

  // ----- can_fixup_bittiming -----

  /** A prescaler of at least one can only come from a running clock. */
  lemma RecoveredNeedsClock(freq: U32, tq: U32, inc: U32)
    requires 1 <= inc
    ensures 0 <= RecoveredBrp(freq, tq, inc) < 0x1_0000_0000_0000_0000
    ensures freq == 0 ==> RecoveredBrp(freq, tq, inc) == 0
  {
    MulLe(0, freq, tq);
    MulLe(freq, 0xffff_ffff, tq);
    var steps := freq * tq / inc;
    DivShrinks(freq * tq, inc);
    var n := (steps + 499_999_999) / 1_000_000_000;
    assert 0 <= n * inc by { MulLe(0, n, inc); }
    assert n * inc <= freq * tq + inc by {
      assert steps * inc <= freq * tq;
      MulLe(n, steps + 1, inc);
      assert (steps + 1) * inc == steps * inc + inc;
    }
  }

  /** The point of a split never lies beyond the end of the bit. */
  lemma PointInBit(tseg: nat, tseg1: nat)
    requires tseg1 <= tseg
    ensures 0 <= PointOf(tseg, tseg1) <= 1000
  {
    DivOfProduct(1000, 1 + tseg);
    DivMonotone(1000 * (1 + tseg1), 1000 * (1 + tseg), 1 + tseg);
    DivShrinks(1000 * (1 + tseg1), 1 + tseg);
  }

  lemma RateInRange(freq: U32, tseg: nat, brp: nat)
    requires 0 < brp
    ensures 0 <= Rate(freq, tseg, brp) <= freq
  {
    MulLe(1, brp, 1 + tseg);
    DivShrinks(freq, brp * (1 + tseg));
  }

  /** The timing that results when prescaler `brp` is used with the segments of `t`. */
  function WithBrp(freq: U32, t: Timing, brp: U32): (r: Timing)
    requires 0 < freq && 0 < brp
  {
    var tseg1 := Wrap32(t.propSeg + t.phaseSeg1);
    var tseg := tseg1 + t.phaseSeg2;
    RateInRange(freq, tseg, brp);
    PointInBit(tseg, tseg1);
    t.(brp := brp, bitrate := Rate(freq, tseg, brp), samplePoint := PointOf(tseg, tseg1),
       tq := Wrap32(RoundedTq(freq, brp)), sjw := JumpWidth(t.sjw, t.phaseSeg1, t.phaseSeg2))
  }

  /** The timing an accepted one becomes. */
  function Fixed(lim: Limits, freq: U32, t: Timing): (r: Timing)
    requires lim.Sane() && Accepts(lim, freq, t)
  {
    RecoveredNeedsClock(freq, t.tq, lim.brpInc);
    WithBrp(freq, t, Wrap32(RecoveredBrp(freq, t.tq, lim.brpInc)))
  }

  /** Lines 116 to 123, with the two `do_div` calls of the source. */
  method RecoverBrp(freq: U32, tq: U32, inc: U32) returns (brp: U32)
    requires 1 <= inc
    ensures brp == Wrap32(RecoveredBrp(freq, tq, inc))
    ensures brp != 0 ==> 0 < freq
  {
    RecoveredNeedsClock(freq, tq, inc);
    assert 0 <= freq * tq <= 0xffff_ffff * 0xffff_ffff by { HalfProductBound(freq, tq); }
    var brp64: U64, rem: U32 := freq * tq, 0;
    DivShrinks(brp64, inc);
    if inc > 1 {
      brp64, rem := DoDiv(brp64, inc, false, false);
    } else {
      DivModUnique(brp64, 1, brp64, 0);
    }
    brp64 := brp64 + 499_999_999;
    brp64, rem := DoDiv(brp64, 1_000_000_000, true, true);
    if inc > 1 {
      brp64 := brp64 * inc;
    }
    brp := Wrap32(brp64);
  }

  /** `can_fixup_bittiming`. */
  method FixupBittiming(bt: Bittiming, lim: Limits, freq: U32) returns (ret: int)
    requires lim.Sane()
    modifies bt
    ensures ret == 0 || ret == -EINVAL
    ensures ret == 0 <==> Accepts(lim, freq, old(bt.Value()))
    ensures ret == 0 ==> bt.Value() == Fixed(lim, freq, old(bt.Value()))
    ensures ret != 0 ==> bt.Value() == Rejected(lim, freq, old(bt.Value()))
    ensures !SegmentsFit(lim, old(bt.Value())) ==> ret != 0 && bt.Value() == old(bt.Value())
    ensures ret == 0 ==> lim.brpMin <= bt.brp <= lim.brpMax && 1 <= bt.sjw <= Min(lim.sjwMax, bt.phaseSeg2)
  {
    hide RecoveredBrp, Rate, PointOf, RoundedTq, Wrap32;
    var tseg1 := Wrap32(bt.propSeg + bt.phaseSeg1);
    if tseg1 < lim.tseg1Min { return -EINVAL; }
    if tseg1 > lim.tseg1Max { return -EINVAL; }
    if bt.phaseSeg2 < lim.tseg2Min { return -EINVAL; }
    if bt.phaseSeg2 > lim.tseg2Max { return -EINVAL; }
    SetDefaultJumpWidth(bt);
    ret := CheckJumpWidth(bt, lim);
    if ret != 0 {
      return;
    }
    bt.brp := RecoverBrp(freq, bt.tq, lim.brpInc);
    if bt.brp < lim.brpMin { return -EINVAL; }
    if bt.brp > lim.brpMax { return -EINVAL; }
    BitTime(bt.propSeg, bt.phaseSeg1, bt.phaseSeg2, lim);
    var bitTime := Wrap32(1 + bt.propSeg + bt.phaseSeg1 + bt.phaseSeg2);
    bt.bitrate := RealRate(lim, freq, bt.brp, bitTime);
    bt.samplePoint := FixupPoint(tseg1, bitTime);
    bt.tq := ClosestTq(freq, bt.brp);
  }

  /** `can_bit_time` wraps back to the number of quanta when `prop_seg + phase_seg1` wrapped. */
  lemma BitTime(propSeg: U32, phaseSeg1: U32, phaseSeg2: U32, lim: Limits)
    requires lim.SaneSegments() && Wrap32(propSeg + phaseSeg1) <= lim.tseg1Max && phaseSeg2 <= lim.tseg2Max
    ensures Wrap32(1 + propSeg + phaseSeg1 + phaseSeg2) == 1 + Wrap32(propSeg + phaseSeg1) + phaseSeg2
  {}

  method FixupPoint(tseg1: U32, bitTime: U32) returns (point: U32)
    requires 1 <= 1 + tseg1 <= bitTime && 1000 * bitTime < 0x1_0000_0000
    ensures point == PointOf(bitTime - 1, tseg1)
  {
    PointInBit(bitTime - 1, tseg1);
    var scaled: U32 := (1 + tseg1) * 1000;
    point := scaled / bitTime;
  }

  /** `DIV_U64_ROUND_CLOSEST`, stored in 32 bits. */
  method ClosestTq(freq: U32, brp: U32) returns (tq: U32)
    requires 0 < freq
    ensures tq == Wrap32(RoundedTq(freq, brp))
  {
    var dividend: U64 := (brp as int) * 1_000_000_000 + freq / 2;
    var v64, rem := DoDiv(dividend, freq, false, false);
    tq := Wrap32(v64);
  }

  // ----- round trips -----

  /** The rounding that `can_calc_bittiming` did on the time quantum can be undone. */
  predicate Recoverable(freq: U32, brp: U32, inc: U32)
    requires 0 < freq && 1 <= inc
  {
    (brp * 1_000_000_000 % freq + inc - 1) / inc <= 499_999_999
  }

  lemma SlowClockIsRecoverable(freq: U32, brp: U32, inc: U32)
    requires 0 < freq <= 500_000_000 && 1 <= inc
    ensures Recoverable(freq, brp, inc)
  {
    CeilShrinks(brp * 1_000_000_000 % freq, inc);
  }

  /** Feeding a calculated timing to the fix-up reproduces prescaler, bit rate, sample point, segments
      and jump width exactly when the time quantum is recoverable. */
  lemma CalcThenFixup(lim: Limits, freq: U32, q: Timing, t: Timing)
    requires InRange(lim, q.bitrate, NominalPoint(q.samplePoint, q.bitrate)) && IsSolution(lim, freq, q, t)
    ensures
      var input := t.(bitrate := 0);
      && (Accepts(lim, freq, input) && Fixed(lim, freq, input).brp == t.brp <==>
            Recoverable(freq, t.brp, lim.brpInc) && lim.tseg1Min <= t.propSeg + t.phaseSeg1)
      && (Accepts(lim, freq, input) && Fixed(lim, freq, input).brp == t.brp ==>
            Fixed(lim, freq, input) == t.(tq := Wrap32(RoundedTq(freq, t.brp))))
  {
    hide Minimal, LeastError, Preferred, Covered, Rate, RateError, PointOf, RoundedTq, RecoveredBrp, Recoverable,
         Wrap32;
    RecoveryOf(freq, t.brp, lim.brpInc, t.tq);
    NoWrap(t.propSeg + t.phaseSeg1);
    NoWrap(RecoveredBrp(freq, t.tq, lim.brpInc));
  }

  lemma NoWrap(x: int)
    ensures 0 <= x < 0x1_0000_0000 ==> Wrap32(x) == x
  {}

  lemma RecoveryOf(freq: U32, brp: U32, inc: U32, tq: U32)
    requires 0 < freq && 1 <= inc && brp % inc == 0 && tq == brp * 1_000_000_000 / freq
    ensures 0 <= RecoveredBrp(freq, tq, inc) <= brp
    ensures RecoveredBrp(freq, tq, inc) == brp <==> Recoverable(freq, brp, inc)
  {
    hide RecoveredBrp;
    RoundedDownRecovery(freq, brp, inc, tq);
    RecoveredNeedsClock(freq, tq, inc);
  }

  /** A user's prescaler, turned into nanoseconds by `create_user_dev_setup`, comes back unchanged
      exactly when less than half a second was rounded away; so it does for every clock up to 500 MHz.
      The source keeps the quantum in an `int`, so longer ones are undefined there. */
  lemma UserPrescaler(freq: U32, prescaler: U32, tq: U32)
    requires 0 < freq && tq == prescaler * 1_000_000_000 / freq <= INT_MAX
    ensures RecoveredBrp(freq, tq, 1) == prescaler <==> prescaler * 1_000_000_000 % freq < 500_000_000
    ensures freq <= 500_000_000 ==> RecoveredBrp(freq, tq, 1) == prescaler
  {
    hide RecoveredBrp;
    var lost := prescaler * 1_000_000_000 % freq;
    DivModUnique(lost, 1, lost, 0);
    DivModUnique(prescaler, 1, prescaler, 0);
    RoundedDownRecovery(freq, prescaler, 1, tq);
  }

  /** What the fix-up rounds away when it recomputes the time quantum. */
  lemma ClosestSlack(freq: int, n: int, tq: int)
    requires 0 < freq && tq == (n + freq / 2) / freq
    ensures freq / 2 - freq < freq * tq - n <= freq / 2
  {
    assert n + freq / 2 == tq * freq + (n + freq / 2) % freq;
  }

  lemma SmallSlack(d: int, inc: int)
    requires 1 <= inc && -499_999_999 <= d <= 500_000_000
    ensures -499_999_999 <= d / inc <= 500_000_000
  {
    MultipleComparison(d / inc, inc, d % inc, -499_999_999);
    MultipleComparison(d / inc, inc, d % inc, 500_000_001);
  }

  /** Whether the rounded quantum of `brp` is read back as `brp`. */
  predicate RecoversAgain(freq: U32, brp: U32, inc: U32)
    requires 0 < freq && 1 <= inc
  {
    NearEnough(freq * RoundedTq(freq, brp) - brp * 1_000_000_000, inc)
  }

  /** The slack that `RecoveryCondition` allows. */
  predicate NearEnough(d: int, inc: int)
    requires 1 <= inc
  {
    -499_999_999 <= d / inc <= 500_000_000
  }

  /** The fix-up is idempotent, as long as neither the prescaler nor the time quantum had to be cut to 32
      bits, if and only if the recomputed quantum is read back as the same prescaler. */
  lemma FixupTwice(lim: Limits, freq: U32, t: Timing, brp: U32)
    requires lim.Sane() && Accepts(lim, freq, t) && 0 < freq
    requires brp == RecoveredBrp(freq, t.tq, lim.brpInc) && RoundedTq(freq, brp) < 0x1_0000_0000
    ensures
      var r := Fixed(lim, freq, t);
      Accepts(lim, freq, r.(bitrate := 0)) && Fixed(lim, freq, r.(bitrate := 0)) == r <==>
      RecoversAgain(freq, brp, lim.brpInc)
  {
    hide RecoveredBrp, RoundedTq, Rate, PointOf, Wrap32, RecoversAgain;
    RoundedTqRange(freq, brp);
    NoWrap(RoundedTq(freq, brp));
    NoWrap(brp);
    var k := StepsOf(freq, t.tq, lim.brpInc);
    SignOfProduct(k, lim.brpInc);
    MulLe(2, 1 + lim.tseg1Max + lim.tseg2Max, lim.brpMax);
    AgainExactly(freq, t.tq, brp, lim.brpInc, k, RoundedTq(freq, brp));
    NoWrap(RecoveredBrp(freq, RoundedTq(freq, brp), lim.brpInc));
  }

  lemma AgainExactly(freq: U32, tq0: U32, brp: U32, inc: U32, k: nat, tq: U32)
    requires 0 < freq && 1 <= inc && brp == k * inc && tq == RoundedTq(freq, brp)
    requires brp == RecoveredBrp(freq, tq0, inc) && 0 < brp < 0x8000_0000
    ensures RecoveredBrp(freq, tq, inc) == brp <==> RecoversAgain(freq, brp, inc)
    ensures 0 <= RecoveredBrp(freq, tq, inc) < 0x1_0000_0000
  {
    hide RecoveredBrp, RoundedTq;
    RecoveryCondition(freq, tq, inc, k);
    RecoveredNeedsClock(freq, tq, inc);
    if inc == 1 {
      UnitStepAgain(freq, tq0, brp);
    } else {
      NextStepAtMost(freq, brp, inc, k, tq);
    }
  }

  /** With a step above one the recomputed quantum is off by one step at most. */
  lemma NextStepAtMost(freq: U32, brp: U32, inc: U32, k: nat, tq: U32)
    requires 0 < freq && 2 <= inc && 0 < brp == k * inc && tq == RoundedTq(freq, brp)
    ensures RecoveredBrp(freq, tq, inc) <= 2 * brp
  {
    ClosestSlack(freq, (brp as int) * 1_000_000_000, tq);
    StepBound(freq * tq, k, inc);
    var n := (freq * tq / inc + 499_999_999) / 1_000_000_000;
    MulLe(n, k + 1, inc);
    SignOfProduct(k, inc);
    MulLe(1, k, inc);
    assert (k + 1) * inc == k * inc + inc;
  }

  lemma StepBound(x: int, k: int, inc: int)
    requires 2 <= inc && x - k * inc * 1_000_000_000 < 0x8000_0000
    ensures (x / inc + 499_999_999) / 1_000_000_000 <= k + 1
  {
    var d := x - k * inc * 1_000_000_000;
    assert x == d + k * 1_000_000_000 * inc;
    DivAddMultiple(d, inc, k * 1_000_000_000);
    MulLe(2, inc, 0x4000_0000);
    MultipleComparison(d / inc, inc, d % inc, 0x4000_0000);
  }

  /** With step one it is always read back: up to 1 GHz the rounding is too small to matter, and above the
      quantum itself comes back. */
  lemma UnitStepAgain(freq: U32, tq: U32, brp: U32)
    requires 0 < freq && brp == RecoveredBrp(freq, tq, 1)
    ensures RecoversAgain(freq, brp, 1)
  {
    var n, d := freq * tq, freq * RoundedTq(freq, brp) - brp * 1_000_000_000;
    DivModUnique(n, 1, n, 0);
    DivModUnique(d, 1, d, 0);
    if freq <= 1_000_000_000 {
      ClosestSlack(freq, (brp as int) * 1_000_000_000, RoundedTq(freq, brp));
    } else {
      var r := (brp as int) * 1_000_000_000 + freq / 2 - n;
      assert 0 <= r < freq;
      DivModUnique((brp as int) * 1_000_000_000 + freq / 2, freq, tq, r);
    }
  }

  /** So it is with any step up to 1 GHz. */
  lemma SlowClockAgain(freq: U32, brp: U32, inc: U32)
    requires 0 < freq <= 1_000_000_000 && 1 <= inc
    ensures RecoversAgain(freq, brp, inc)
  {
    hide RoundedTq;
    SlowClockSlack(freq, brp);
    SmallSlack(freq * RoundedTq(freq, brp) - brp * 1_000_000_000, inc);
  }

  lemma SlowClockSlack(freq: U32, brp: U32)
    requires 0 < freq <= 1_000_000_000
    ensures -499_999_999 <= freq * RoundedTq(freq, brp) - brp * 1_000_000_000 <= 500_000_000
  {
    ClosestSlack(freq, (brp as int) * 1_000_000_000, RoundedTq(freq, brp));
  }

  ghost function StepsOf(freq: U32, tq: U32, inc: U32): (k: int)
    requires 1 <= inc
    ensures RecoveredBrp(freq, tq, inc) == k * inc
  {
    (freq * tq / inc + 499_999_999) / 1_000_000_000
  }

  lemma RoundedTqRange(freq: U32, brp: U32)
    requires 0 < freq
    ensures 0 <= RoundedTq(freq, brp)
  {
    DivShrinks((brp as int) * 1_000_000_000 + freq / 2, freq);
  }
}

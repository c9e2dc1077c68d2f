/** `can_calc_bittiming` of calc_bittiming.c around its search, with the synchronisation jump width rules
    of bittiming.c. */
module CalcBittiming {
  import opened Words
  import opened SamplePoint
  import opened Div64
  import opened BrpSearch
  import opened LegalSettings

  const EINVAL: int := 22
  const CAN_CALC_MAX_ERROR: int := 50

  /** The contents of a `struct can_bittiming`. */
  datatype Timing = Timing(
    bitrate: U32, samplePoint: U32, tq: U32, propSeg: U32, phaseSeg1: U32, phaseSeg2: U32, sjw: U32, brp: U32)

  /** `struct can_bittiming`, filled in place. */
  class Bittiming {
    var bitrate: U32
    var samplePoint: U32
    var tq: U32
    var propSeg: U32
    var phaseSeg1: U32
    var phaseSeg2: U32
    var sjw: U32
    var brp: U32

    function Value(): Timing
      reads this
    {
      Timing(bitrate, samplePoint, tq, propSeg, phaseSeg1, phaseSeg2, sjw, brp)
    }
  }

  /** The requested sample point, or the one CiA recommends for the bit rate. */
  function NominalPoint(samplePoint: U32, bitrate: U32): (r: U32) {
    if samplePoint != 0 then samplePoint
    else if bitrate > 800_000 then 750
    else if bitrate > 500_000 then 800
    else 875
  }

  /** The sample points CiA recommends: 87.5 percent up to 500 kbit/s, 80 percent up to 800 kbit/s, and 75
      percent above. */
  predicate IsRecommendedPoint(bitrate: U32, point: int) {
    && (point == 875 <==> bitrate <= 500_000)
    && (point == 800 <==> 500_000 < bitrate <= 800_000)
    && (point == 750 <==> 800_000 < bitrate)
  }

  /** The jump width after `can_sjw_set_default`. */
  function JumpWidth(sjw: U32, phaseSeg1: U32, phaseSeg2: U32): (r: U32) {
    if sjw != 0 then sjw else Max(1, Min(phaseSeg1, phaseSeg2 / 2))
  }

  /** A missing jump width becomes the largest that fits the first phase segment and half of the second, or
      one if none does. */
  lemma DefaultJumpWidthIsLargest(phaseSeg1: U32, phaseSeg2: U32, other: nat)
    ensures
      var sjw := JumpWidth(0, phaseSeg1, phaseSeg2);
      && ((sjw <= phaseSeg1 && 2 * sjw <= phaseSeg2) || (sjw == 1 && (phaseSeg1 == 0 || phaseSeg2 <= 1)))
      && 1 <= sjw && (other <= phaseSeg1 && 2 * other <= phaseSeg2 ==> other <= sjw)
  {
  }

  predicate JumpWidthFits(lim: Limits, sjw: U32, phaseSeg1: U32, phaseSeg2: U32) {
    sjw <= lim.sjwMax && sjw <= phaseSeg1 && sjw <= phaseSeg2
  }

  /** `can_sjw_set_default`. */
  method SetDefaultJumpWidth(bt: Bittiming)
    modifies bt`sjw
    ensures bt.sjw == JumpWidth(old(bt.sjw), bt.phaseSeg1, bt.phaseSeg2) && 1 <= bt.sjw
  {
    if bt.sjw == 0 {
      bt.sjw := Max(1, Min(bt.phaseSeg1, bt.phaseSeg2 / 2));
    }
  }

  /** `can_sjw_check`. */
  method CheckJumpWidth(bt: Bittiming, lim: Limits) returns (ret: int)
    ensures ret == if JumpWidthFits(lim, bt.sjw, bt.phaseSeg1, bt.phaseSeg2) then 0 else -EINVAL
    ensures ret == 0 <==> bt.sjw <= Min(lim.sjwMax, Min(bt.phaseSeg1, bt.phaseSeg2))
  {
    if bt.sjw > lim.sjwMax { return -EINVAL; }
    if bt.sjw > bt.phaseSeg1 { return -EINVAL; }
    if bt.sjw > bt.phaseSeg2 { return -EINVAL; }
    ret := 0;
  }

  /** The check of lines 174 to 188.  An unfound setting carries error UINT_MAX, and the conversion of
      its per-mille value to 32 bits can never make it look small. */
  method ErrorTooHigh(bitrate: U32, error: U32) returns (tooHigh: bool)
    requires 0 < bitrate < 0x8000_0000 && (error <= bitrate || error == UINT_MAX)
    ensures tooHigh <==> !CloseEnough(bitrate, error) || error == UINT_MAX
    ensures error <= bitrate ==> (tooHigh <==> 51 * bitrate <= 1000 * error)
  {
    tooHigh := false;
    if error != 0 {
      var v64, rem := DoDiv((error as int) * 1000, bitrate, false, false);
      if error == UINT_MAX {
        UnfoundIsTooHigh(bitrate);
      } else {
        PerMille(bitrate, error);
      }
      tooHigh := Wrap32(v64) > CAN_CALC_MAX_ERROR;
    }
  }

  lemma PerMille(bitrate: U32, error: U32)
    requires 0 < bitrate && error <= bitrate
    ensures 0 <= error * 1000 / bitrate <= 1000
    ensures error * 1000 / bitrate > CAN_CALC_MAX_ERROR <==> !CloseEnough(bitrate, error)
  {
    MultipleComparison(error * 1000 / bitrate, bitrate, error * 1000 % bitrate, 0);
    MultipleComparison(error * 1000 / bitrate, bitrate, error * 1000 % bitrate, 51);
    MultipleComparison(error * 1000 / bitrate, bitrate, error * 1000 % bitrate, 1001);
  }

  /** Comparing a quotient with a bound is comparing the dividend with its multiple. */
  lemma MultipleComparison(q: int, d: int, r: int, bound: int)
    requires 0 < d && 0 <= r < d
    ensures bound <= q <==> bound * d <= q * d + r
  {
    if bound <= q {
      MulLe(bound, q, d);
    } else {
      MulLe(q + 1, bound, d);
    }
  }

  /** `UINT_MAX * 1000 / bitrate`, cut to 32 bits, stays above 50 for every bit rate. */
  lemma UnfoundIsTooHigh(bitrate: U32)
    requires 0 < bitrate
    ensures Wrap32(UINT_MAX * 1000 / bitrate) > CAN_CALC_MAX_ERROR
  {
    var k, j := 1000 / bitrate, 1000 % bitrate;
    var q, r := UINT_MAX * 1000 / bitrate, UINT_MAX * 1000 % bitrate;
    assert 1000 == k * bitrate + j && UINT_MAX * 1000 == q * bitrate + r;
    var rest := q - k * 0x1_0000_0000;
    assert rest * bitrate == j * 0x1_0000_0000 - 1000 - r by {
      assert rest * bitrate == q * bitrate - k * bitrate * 0x1_0000_0000;
    }
    UnfoundRest(bitrate, k, j, r, rest);
  }

  lemma UnfoundRest(b: int, k: int, j: int, r: int, rest: int)
    requires 0 < b < 0x1_0000_0000 && 1000 == k * b + j && 0 <= j < b && 0 <= r < b
    requires rest * b == j * 0x1_0000_0000 - 1000 - r
    ensures Wrap32(k * 0x1_0000_0000 + rest) > CAN_CALC_MAX_ERROR
  {
    MultipleComparison(rest, b, r, 0x1_0000_0000);
    if j == 0 {
      MultipleComparison(rest, b, r, 0);
      MultipleComparison(rest, b, r, -1001);
      assert Wrap32(k * 0x1_0000_0000 + rest) == 0x1_0000_0000 + rest;
    } else {
      assert b <= 1000 || j == 1000 by { ShortDivision(b, k, j); }
      MultipleComparison(rest, b, r, CAN_CALC_MAX_ERROR + 1);
      assert Wrap32(k * 0x1_0000_0000 + rest) == rest;
    }
  }

  lemma ShortDivision(b: int, k: int, j: int)
    requires 0 < b && 1000 == k * b + j && 0 <= j < b
    ensures b <= 1000 || j == 1000
  {
    if 1000 < b { DivModUnique(1000, b, k, j); }
  }

  /** What a successful calculation promises about `result`, given the request `q`. */
  ghost predicate IsSolution(lim: Limits, freq: U32, q: Timing, result: Timing)
    requires InRange(lim, q.bitrate, NominalPoint(q.samplePoint, q.bitrate))
  {
    && Chosen(lim, freq, q, result, result.brp)
    && result.bitrate == Rate(freq, result.propSeg + result.phaseSeg1 + result.phaseSeg2, result.brp)
    && JumpWidthFits(lim, result.sjw, result.phaseSeg1, result.phaseSeg2)
  }

  /** The segments, sample point, time quantum and jump width of a best setting for the request `q`, with
      prescaler `brp`: what is known before the jump width is checked. */
  ghost predicate Chosen(lim: Limits, freq: U32, q: Timing, result: Timing, brp: U32)
    requires InRange(lim, q.bitrate, NominalPoint(q.samplePoint, q.bitrate))
  {
    var nominal := NominalPoint(q.samplePoint, q.bitrate);
    var tseg1 := result.propSeg + result.phaseSeg1;
    var tseg := tseg1 + result.phaseSeg2;
    && Admissible(lim, freq, q.bitrate, nominal, tseg, brp, tseg1)
    && result.samplePoint == PointOf(tseg, tseg1)
    && Minimal(lim, freq, q.bitrate, nominal,
               RateError(freq, q.bitrate, tseg, brp), nominal - result.samplePoint)
    && Preferred(lim, freq, q.bitrate, nominal, tseg, brp,
                 RateError(freq, q.bitrate, tseg, brp), nominal - result.samplePoint)
    && (UnitStep(lim) ==>
          LeastError(lim, freq, q.bitrate, nominal, RateError(freq, q.bitrate, tseg, brp)))
    && CloseEnough(q.bitrate, RateError(freq, q.bitrate, tseg, brp))
    && result.propSeg == tseg1 / 2
    && 0 < freq && result.tq == brp * 1_000_000_000 / freq
    && result.sjw == JumpWidth(q.sjw, result.phaseSeg1, result.phaseSeg2) && 1 <= result.sjw
  }

  /** The source never checks the lower limit of the first segment.  A solution meets it when that is at
      most one, since the first phase segment holds the jump width. */
  lemma FirstSegmentIsReached(lim: Limits, freq: U32, q: Timing, t: Timing)
    requires InRange(lim, q.bitrate, NominalPoint(q.samplePoint, q.bitrate)) && IsSolution(lim, freq, q, t)
    requires lim.tseg1Min <= 1
    ensures lim.tseg1Min <= t.phaseSeg1 <= t.propSeg + t.phaseSeg1 <= lim.tseg1Max
  {
    hide Minimal, LeastError, Preferred, Covered, Rate, RateError, PointOf;
  }

  /** What a refused jump width leaves behind: the setting is chosen, its prescaler and rate are not stored. */
  ghost predicate IsUnfinished(lim: Limits, freq: U32, q: Timing, result: Timing)
    requires InRange(lim, q.bitrate, NominalPoint(q.samplePoint, q.bitrate))
  {
    && result.brp == q.brp && result.bitrate == q.bitrate
    && exists brp: U32 :: Chosen(lim, freq, q, result, brp)
  }

  /** `can_calc_bittiming`.  It fails exactly when no admissible setting is close enough, leaving `bt`
      alone, or when the jump width does not fit the segments it settled on.  With prescaler step one
      the former means that no legal setting is, or that the clock is too fast. */
  method CalcBittiming(bt: Bittiming, lim: Limits, freq: U32) returns (ret: int)
    requires InRange(lim, bt.bitrate, NominalPoint(bt.samplePoint, bt.bitrate))
    modifies bt
    ensures ret == 0 || ret == -EINVAL
    ensures old(bt.samplePoint) == 0 ==>
      IsRecommendedPoint(old(bt.bitrate), old(NominalPoint(bt.samplePoint, bt.bitrate)))
    ensures old(bt.samplePoint) != 0 ==> old(NominalPoint(bt.samplePoint, bt.bitrate)) == old(bt.samplePoint)
    ensures UnitStep(lim) ==>
      var bitrate, nominal := old(bt.bitrate), old(NominalPoint(bt.samplePoint, bt.bitrate));
      Unreachable(lim, freq, bitrate, nominal) <==>
      NoLegalClose(lim, freq, bitrate, nominal) || TooSlow(lim, freq, bitrate, nominal)
    ensures ret == 0 ==> IsSolution(lim, freq, old(bt.Value()), bt.Value())
    ensures old(Unreachable(lim, freq, bt.bitrate, NominalPoint(bt.samplePoint, bt.bitrate))) ==>
      ret == -EINVAL && bt.Value() == old(bt.Value())
    ensures !old(Unreachable(lim, freq, bt.bitrate, NominalPoint(bt.samplePoint, bt.bitrate))) ==>
      (ret == 0 <==> JumpWidthFits(lim, bt.sjw, bt.phaseSeg1, bt.phaseSeg2))
    ensures ret != 0 && !old(Unreachable(lim, freq, bt.bitrate, NominalPoint(bt.samplePoint, bt.bitrate))) ==>
      IsUnfinished(lim, freq, old(bt.Value()), bt.Value())
  {
    hide Admissible, Minimal, RateError, Rate, TriedBrp, PointOf, Unreachable, Chosen, IsSolution, IsUnfinished,
         JumpWidthFits, CloseEnough, Leads, NoneFrom, NoLegalClose, TooSlow, LeastError, Preferred, First;
    ghost var q := bt.Value();
    var nominal, bitrate := NominalPoint(bt.samplePoint, bt.bitrate), bt.bitrate;
    if UnitStep(lim) { RefusedExactly(lim, freq, bitrate, nominal); }
    var bestError, bestTseg, bestBrp, b := Search(lim, freq, bitrate, nominal);
    var tooHigh := CheckFound(lim, freq, bitrate, nominal, bestError, bestTseg, bestBrp, b);
    if tooHigh {
      return -EINVAL;
    }
    SetSegments(bt, lim, freq, nominal, bestTseg, bestBrp, b);
    ghost var r := bt.Value();
    ret := CheckJumpWidth(bt, lim);
    if ret != 0 {
      IsRefused(lim, freq, q, r, bestBrp);
      return;
    }
    bt.brp := bestBrp;

    // real bitrate
    bt.bitrate := RealRate(lim, freq, bt.brp, 1 + bt.propSeg + bt.phaseSeg1 + bt.phaseSeg2);
    IsSolved(lim, freq, q, r, bestBrp, bt.bitrate);
  }

  /** Lines 190 to 202: everything but the prescaler and the bit rate. */
  method SetSegments(bt: Bittiming, lim: Limits, freq: U32, nominal: U32, bestTseg: U32, bestBrp: U32, ghost b: nat)
    requires InRange(lim, bt.bitrate, nominal) && nominal == NominalPoint(bt.samplePoint, bt.bitrate)
    requires Leads(lim, freq, bt.bitrate, nominal, b, 0) && First(lim, freq, bt.bitrate, nominal, b) && 0 < freq
    requires bestTseg == b / 2 && bestBrp == TriedBrp(lim, freq, bt.bitrate, b) && 0 < bestBrp
    requires CloseEnough(bt.bitrate, RateError(freq, bt.bitrate, bestTseg, bestBrp))
    modifies bt`samplePoint, bt`tq, bt`propSeg, bt`phaseSeg1, bt`phaseSeg2, bt`sjw
    ensures Chosen(lim, freq, old(bt.Value()), bt.Value(), bestBrp) && bestBrp <= lim.brpMax
    ensures bt.propSeg + bt.phaseSeg1 + bt.phaseSeg2 == bestTseg <= lim.tseg1Max + lim.tseg2Max
  {
    hide Admissible, Minimal, RateError, Rate, TriedBrp, PointOf, Chosen, CloseEnough, Leads, JumpWidth, LeastError,
         Preferred, First;
    ghost var q := bt.Value();
    var point, tseg1, tseg2, tq := FinalSplit(lim, freq, bt.bitrate, nominal, bestTseg, bestBrp, b);
    bt.samplePoint := point;
    bt.tq := tq;
    bt.propSeg := tseg1 / 2;
    bt.phaseSeg1 := tseg1 - bt.propSeg;
    bt.phaseSeg2 := tseg2;
    SetDefaultJumpWidth(bt);
    IsChosen(lim, freq, q, bt.Value(), bestBrp);
  }

  lemma IsChosen(lim: Limits, freq: U32, q: Timing, r: Timing, brp: U32)
    requires InRange(lim, q.bitrate, NominalPoint(q.samplePoint, q.bitrate))
    requires 0 < freq && r.tq == brp * 1_000_000_000 / freq
    requires r.propSeg == (r.propSeg + r.phaseSeg1) / 2
    requires r.sjw == JumpWidth(q.sjw, r.phaseSeg1, r.phaseSeg2) && 1 <= r.sjw
    requires
      var nominal := NominalPoint(q.samplePoint, q.bitrate);
      var tseg1 := r.propSeg + r.phaseSeg1;
      var tseg := tseg1 + r.phaseSeg2;
      && Admissible(lim, freq, q.bitrate, nominal, tseg, brp, tseg1)
      && r.samplePoint == PointOf(tseg, tseg1)
      && Minimal(lim, freq, q.bitrate, nominal, RateError(freq, q.bitrate, tseg, brp), nominal - r.samplePoint)
      && Preferred(lim, freq, q.bitrate, nominal, tseg, brp,
                   RateError(freq, q.bitrate, tseg, brp), nominal - r.samplePoint)
      && (UnitStep(lim) ==>
            LeastError(lim, freq, q.bitrate, nominal, RateError(freq, q.bitrate, tseg, brp)))
      && CloseEnough(q.bitrate, RateError(freq, q.bitrate, tseg, brp))
    ensures Chosen(lim, freq, q, r, brp)
  {}

  lemma IsRefused(lim: Limits, freq: U32, q: Timing, r: Timing, brp: U32)
    requires InRange(lim, q.bitrate, NominalPoint(q.samplePoint, q.bitrate)) && Chosen(lim, freq, q, r, brp)
    requires r.brp == q.brp && r.bitrate == q.bitrate
    ensures IsUnfinished(lim, freq, q, r)
  {
    hide Chosen;
  }

  lemma IsSolved(lim: Limits, freq: U32, q: Timing, r: Timing, brp: U32, rate: U32)
    requires InRange(lim, q.bitrate, NominalPoint(q.samplePoint, q.bitrate)) && Chosen(lim, freq, q, r, brp)
    requires 0 < brp && rate == Rate(freq, r.propSeg + r.phaseSeg1 + r.phaseSeg2, brp)
    requires JumpWidthFits(lim, r.sjw, r.phaseSeg1, r.phaseSeg2)
    ensures IsSolution(lim, freq, q, r.(brp := brp, bitrate := rate))
  {
    hide Admissible, Minimal, RateError, Rate, PointOf, JumpWidthFits, JumpWidth, LeastError, Preferred;
  }

  /** Lines 190 to 197: the real sample point of the chosen bit length, its split, and the time quantum. */
  method FinalSplit(lim: Limits, freq: U32, bitrate: U32, nominal: U32, bestTseg: U32, bestBrp: U32, ghost b: nat)
    returns (point: U32, tseg1: U32, tseg2: U32, tq: U32)
    requires InRange(lim, bitrate, nominal) && Leads(lim, freq, bitrate, nominal, b, 0) && 0 < freq
    requires First(lim, freq, bitrate, nominal, b)
    requires bestTseg == b / 2 && bestBrp == TriedBrp(lim, freq, bitrate, b) && 0 < bestBrp
    ensures bestTseg == tseg1 + tseg2 <= lim.tseg1Max + lim.tseg2Max && bestBrp <= lim.brpMax
    ensures Admissible(lim, freq, bitrate, nominal, bestTseg, bestBrp, tseg1)
    ensures point == PointOf(bestTseg, tseg1)
    ensures Minimal(lim, freq, bitrate, nominal, RateError(freq, bitrate, bestTseg, bestBrp), nominal - point)
    ensures Preferred(lim, freq, bitrate, nominal, bestTseg, bestBrp,
                      RateError(freq, bitrate, bestTseg, bestBrp), nominal - point)
    ensures UnitStep(lim) ==> LeastError(lim, freq, bitrate, nominal, RateError(freq, bitrate, bestTseg, bestBrp))
    ensures tq == bestBrp * 1_000_000_000 / freq
  {
    hide Admissible, Minimal, RateError, TriedBrp, PointOf, BestPoint, PointError, Competes, LeastError, Preferred,
         First;
    if UnitStep(lim) { LeaderIsClosest(lim, freq, bitrate, nominal, b); }
    FoundFacts(lim, freq, bitrate, nominal, b);
    SearchIsExhaustive(lim, freq, bitrate, nominal, b);
    FirstIsPreferred(lim, freq, bitrate, nominal, b);
    var error;
    point, tseg1, tseg2, error := UpdateSamplePoint(lim, nominal, bestTseg, 0, 0);
    BestPointIsUnique(lim, nominal, bestTseg, point);
    BestIsAcceptable(lim, nominal, bestTseg, point);
    LeaderIsAdmissible(lim, freq, bitrate, nominal, b, tseg1);
    QuantumFits(lim, freq, bitrate, b);
    var scaled: U64 := (bestBrp as int) * 1_000_000_000;
    var v64, rem := DoDiv(scaled, freq, false, false);
    tq := Wrap32(v64);
  }

  lemma BestIsAcceptable(lim: Limits, nominal: int, tseg: nat, point: int)
    requires BestPoint(lim, nominal, tseg, point)
    ensures point <= nominal
  {}

  /** Lines 174 to 188, with what a rejection means. */
  method CheckFound(lim: Limits, freq: U32, bitrate: U32, nominal: U32,
                    bestError: U32, bestTseg: U32, bestBrp: U32, ghost b: nat) returns (tooHigh: bool)
    requires InRange(lim, bitrate, nominal)
    requires bestError == UINT_MAX ==> NoneFrom(lim, freq, bitrate, nominal, 0)
    requires bestError != UINT_MAX ==>
      && Leads(lim, freq, bitrate, nominal, b, 0)
      && bestTseg == b / 2 && bestBrp == TriedBrp(lim, freq, bitrate, b) && 0 < bestBrp
      && bestError == RateError(freq, bitrate, bestTseg, bestBrp) <= bitrate
    ensures tooHigh <==> Unreachable(lim, freq, bitrate, nominal)
    ensures !tooHigh ==>
      && bestError != UINT_MAX && 0 < freq
      && CloseEnough(bitrate, RateError(freq, bitrate, bestTseg, bestBrp))
  {
    hide Admissible, TriedBrp, PointError;
    ProductBelow(2, bitrate, 1 + lim.tseg1Max + lim.tseg2Max, bitrate, 0x1_0000_0000);
    tooHigh := ErrorTooHigh(bitrate, bestError);
    if bestError == UINT_MAX {
      NothingAdmissible(lim, freq, bitrate, nominal);
    } else {
      FoundFacts(lim, freq, bitrate, nominal, b);
      if tooHigh {
        SearchIsExhaustive(lim, freq, bitrate, nominal, b);
      } else {
        ghost var tseg1 :| LegalSplit(lim, b / 2, tseg1) && PointOf(b / 2, tseg1) <= nominal;
        LeaderIsAdmissible(lim, freq, bitrate, nominal, b, tseg1);
        ClockRuns(freq, bitrate, bestTseg, bestBrp);
      }
    }
  }

  lemma FoundFacts(lim: Limits, freq: U32, bitrate: U32, nominal: U32, b: nat)
    requires InRange(lim, bitrate, nominal) && Leads(lim, freq, bitrate, nominal, b, 0)
    ensures Competes(lim, freq, bitrate, nominal, b)
    ensures InReach(lim, nominal, b / 2) && Feasible(lim, nominal, b / 2)
    ensures 1 <= b / 2 <= lim.tseg1Max + lim.tseg2Max
    ensures 0 < TriedBrp(lim, freq, bitrate, b) <= lim.brpMax
  {
    hide AsGood, TriedBrp, Feasible;
    CounterReach(lim, bitrate, nominal, b);
  }

  /** Without a clock the error is the whole bit rate. */
  lemma ClockRuns(freq: U32, bitrate: U32, tseg: nat, brp: nat)
    requires 0 < brp && 0 < bitrate && CloseEnough(bitrate, RateError(freq, bitrate, tseg, brp))
    ensures 0 < freq
  {
    MulLe(1, brp, 1 + tseg);
    DivModUnique(0, brp * (1 + tseg), 0, 0);
  }

  /** The time quantum in nanoseconds fits 32 bits. */
  lemma QuantumFits(lim: Limits, freq: U32, bitrate: U32, b: nat)
    requires 0 < freq && 0 < bitrate && 1 <= lim.brpInc && 1 <= b / 2
    ensures 0 <= TriedBrp(lim, freq, bitrate, b) * 1_000_000_000 / freq < 0x1_0000_0000
  {
    var ideal, brp := IdealBrp(freq, bitrate, b / 2), TriedBrp(lim, freq, bitrate, b);
    MultiplyOut(freq, 1 + b / 2, bitrate, ideal);
    MulLe(1, bitrate, 1 + b / 2);
    MulLe(2, (1 + b / 2) * bitrate, ideal);
    StepMultiple(ideal + b % 2, lim.brpInc);
    QuotientBelow(brp * 1_000_000_000, freq, 2_000_000_000);
    DivShrinks(brp * 1_000_000_000, freq);
  }

  /** Line 211: the bit rate of the chosen prescaler and bit time. */
  method RealRate(lim: Limits, freq: U32, brp: U32, bitTime: U32) returns (rate: U32)
    requires lim.Sane() && 0 < brp <= lim.brpMax && 1 <= bitTime <= 1 + lim.tseg1Max + lim.tseg2Max
    ensures rate == Rate(freq, bitTime - 1, brp)
  {
    ProductBelow(brp, bitTime, lim.brpMax, 1 + lim.tseg1Max + lim.tseg2Max, 0x1_0000_0000);
    DivShrinks(freq, brp * bitTime);
    var quanta: U32 := brp * bitTime;
    rate := freq / quanta;
  }
}

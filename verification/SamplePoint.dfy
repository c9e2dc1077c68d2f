/** Controller limits and the placement of the sample point inside one bit:
    `can_update_sample_point` of calc_bittiming.c. */
module SamplePoint {
  import opened Words

  const UINT_MAX: int := 0xffff_ffff

  /** `struct can_bittiming_const`: what a controller can be programmed with. */
  datatype Limits = Limits(
    tseg1Min: U32, tseg1Max: U32, tseg2Min: U32, tseg2Max: U32,
    sjwMax: U32, brpMin: U32, brpMax: U32, brpInc: U32)
  {
    /** Segment limits for which the 32-bit arithmetic below does not wrap where it must not. */
    predicate SaneSegments() {
      && tseg1Min <= tseg1Max && tseg2Min <= tseg2Max && 1 <= tseg1Min + tseg2Min
      && 1000 * (1 + tseg1Max + tseg2Max) < 0x1_0000_0000
    }

    /** The same for the prescaler: `brp * T` fits, and stepping by `brpInc` makes sense. */
    predicate Sane() {
      && SaneSegments()
      && 1 <= brpInc && 1 <= brpMin
      && brpMax * (1 + tseg1Max + tseg2Max) < 0x1_0000_0000
    }
  }

  /** A way to divide `tseg` quanta into the segments before and after the sample point.  Like the
      source, this does not ask for `tseg1Min`. */
  predicate LegalSplit(lim: Limits, tseg: int, tseg1: int) {
    0 <= tseg1 <= lim.tseg1Max && lim.tseg2Min <= tseg - tseg1 <= lim.tseg2Max
  }

  /** Where such a split samples, in tenths of a percent of the bit (which has one more quantum, the
      synchronisation segment). */
  function PointOf(tseg: nat, tseg1: int): int {
    1000 * (1 + tseg1) / (1 + tseg)
  }

  /** C's `abs(a - b)` on `unsigned int` operands. */
  function Abs32(x: U32): U32 {
    if x < 0x8000_0000 then x else 0x1_0000_0000 - x
  }

  function Clamp(x: int, lo: int, hi: int): int {
    if x < lo then lo else if x > hi then hi else x
  }

  /** The segments the source settles on when it asks for a second segment of `tseg2` quanta. */
  function SplitAt(lim: Limits, tseg: U32, tseg2: U32): (r: (U32, U32))
  {
    var clamped := Clamp(tseg2, lim.tseg2Min, lim.tseg2Max);
    var tseg1 := Wrap32(tseg - clamped);
    if tseg1 > lim.tseg1Max then (lim.tseg1Max, Wrap32(tseg - lim.tseg1Max)) else (tseg1, Wrap32(clamped))
  }

  /** The split that iteration `i` of the source's loop looks at. */
  function ProbeSplit(lim: Limits, nominal: U32, tseg: U32, i: nat): (r: (U32, U32))
  {
    SplitAt(lim, tseg, Wrap32(tseg + 1 - Wrap32(nominal * (tseg + 1)) / 1000 - i))
  }

  /** The sample point the source computes from a second segment of `tseg2` quanta. */
  function PointFrom(tseg: U32, tseg2: U32): int
  {
    Wrap32(1000 * Wrap32(tseg + 1 - tseg2)) / (tseg + 1)
  }

  /** The first quantum after which a legal split can sample, and the last. */
  function FirstQuantum(lim: Limits, tseg: int): int { Max(1, 1 + tseg - lim.tseg2Max) }
  function LastQuantum(lim: Limits, tseg: int): int { Min(1 + tseg - lim.tseg2Min, 1 + lim.tseg1Max) }

  ghost predicate InReach(lim: Limits, nominal: int, tseg: int) {
    lim.SaneSegments() && 1 <= nominal <= 999 && lim.tseg2Min <= tseg <= lim.tseg1Max + lim.tseg2Max
  }

  lemma PointMonotone(tseg: nat, a: int, b: int)
    requires a <= b
    ensures PointOf(tseg, a) <= PointOf(tseg, b)
  {
    DivMonotone(1000 * (1 + a), 1000 * (1 + b), 1 + tseg);
  }

  /** Sampling at or before `nominal * T / 1000` does not exceed `nominal`; sampling later reaches it. */
  lemma PointAgainstNominal(tseg: nat, nominal: nat, x: int)
    ensures x <= nominal * (tseg + 1) / 1000 ==> PointOf(tseg, x - 1) <= nominal
    ensures x > nominal * (tseg + 1) / 1000 ==> PointOf(tseg, x - 1) >= nominal
  {
    var T := tseg + 1;
    DivOfProduct(nominal, T);
    if x <= nominal * T / 1000 {
      DivMonotone(1000 * x, nominal * T, T);
    } else {
      DivMonotone(nominal * T, 1000 * x, T);
    }
  }

  /** Asking for `x` quanta up to the sample point gets the legal split nearest to it; only `x == 0`
      can make the unsigned differences wrap. */
  lemma SplitNearest(lim: Limits, tseg: U32, x: int)
    requires lim.SaneSegments() && lim.tseg2Min <= tseg <= lim.tseg1Max + lim.tseg2Max
    requires 0 <= x <= 1 + tseg && (x == 0 ==> lim.tseg2Max <= tseg || lim.tseg1Max == 0)
    ensures
      var (tseg1, tseg2) := SplitAt(lim, tseg, 1 + tseg - x);
      && LegalSplit(lim, tseg, tseg1) && tseg2 == tseg - tseg1
      && 1 + tseg1 == Clamp(x, FirstQuantum(lim, tseg), LastQuantum(lim, tseg))
  {
    var clamped := Clamp(1 + tseg - x, lim.tseg2Min, lim.tseg2Max);
    if clamped <= tseg {
      assert Wrap32(tseg - clamped) == tseg - clamped && Wrap32(clamped) == clamped;
      if tseg - clamped > lim.tseg1Max {
        assert Wrap32(tseg - lim.tseg1Max) == tseg - lim.tseg1Max;
      }
    } else {
      assert Wrap32(tseg - clamped) == UINT_MAX;
    }
  }

  /** What `x == 0` asks for when it does wrap. */
  lemma SplitWrapped(lim: Limits, tseg: U32)
    requires lim.SaneSegments() && lim.tseg2Min <= tseg < lim.tseg2Max
    ensures SplitAt(lim, tseg, tseg + 1) == (lim.tseg1Max, Wrap32(tseg - lim.tseg1Max))
  {
    assert Wrap32(tseg - (tseg + 1)) == UINT_MAX;
  }

  lemma PointFromLegal(lim: Limits, tseg: U32, tseg1: U32, tseg2: U32)
    requires lim.SaneSegments() && tseg1 <= lim.tseg1Max
    requires tseg2 == Wrap32(tseg - tseg1)
    ensures PointFrom(tseg, tseg2) == PointOf(tseg, tseg1)
  {
    WrapBack(tseg, tseg1);
    var quanta := Wrap32(tseg + 1 - tseg2);
    assert quanta == 1 + tseg1;
    assert Wrap32(1000 * quanta) == 1000 * quanta;
  }

  lemma WrapBack(a: U32, b: U32)
    requires b < 0xffff_ffff
    ensures Wrap32(a + 1 - Wrap32(a - b)) == 1 + b
  {}

  /** The quantum up to which probe `i` asks to sample. */
  ghost function Target(nominal: U32, tseg: U32, i: nat): int {
    nominal * (tseg + 1) / 1000 + i
  }

  lemma ProbeAsksFor(lim: Limits, nominal: U32, tseg: U32, i: nat)
    requires InReach(lim, nominal, tseg) && i <= 1
    ensures 0 <= Target(nominal, tseg, i) <= tseg + 1
    ensures ProbeSplit(lim, nominal, tseg, i) == SplitAt(lim, tseg, tseg + 1 - Target(nominal, tseg, i))
  {
    var T, n := tseg + 1, nominal * (tseg + 1);
    assert 0 <= n <= 999 * T by {
      MulLe(nominal, 999, T);
      MulLe(0, nominal, T);
    }
    assert Wrap32(n) == n;
    assert Wrap32(T - n / 1000 - i) == T - n / 1000 - i;
  }

  /** The probed segments are the legal split nearest to quantum `x`. */
  ghost predicate NearestLegal(lim: Limits, tseg: U32, x: int, split: (U32, U32)) {
    && LegalSplit(lim, tseg, split.0) && split.1 == tseg - split.0
    && PointFrom(tseg, split.1) == PointOf(tseg, split.0)
    && 1 + split.0 == Clamp(x, FirstQuantum(lim, tseg), LastQuantum(lim, tseg))
  }

  lemma NearestSplit(lim: Limits, tseg: U32, x: int)
    requires lim.SaneSegments() && lim.tseg2Min <= tseg <= lim.tseg1Max + lim.tseg2Max
    requires 0 <= x <= 1 + tseg && (x == 0 ==> lim.tseg2Max <= tseg || lim.tseg1Max == 0)
    ensures NearestLegal(lim, tseg, x, SplitAt(lim, tseg, 1 + tseg - x))
  {
    SplitNearest(lim, tseg, x);
    var (tseg1, tseg2) := SplitAt(lim, tseg, 1 + tseg - x);
    PointFromLegal(lim, tseg, tseg1, tseg2);
  }

  lemma WrappedSplit(lim: Limits, nominal: U32, tseg: U32)
    requires InReach(lim, nominal, tseg) && lim.tseg2Max > tseg && lim.tseg1Max > 0
    requires Target(nominal, tseg, 0) == 0
    ensures nominal < PointFrom(tseg, SplitAt(lim, tseg, tseg + 1).1)
  {
    SplitWrapped(lim, tseg);
    PointFromLegal(lim, tseg, lim.tseg1Max, Wrap32(tseg - lim.tseg1Max));
    WrappedPointIsHigh(tseg, nominal, lim.tseg1Max);
  }

  /** What each probe finds: the legal split nearest to the quantum it asks for, or, where an unsigned
      difference wrapped, a point that is then rejected. */
  lemma ProbeMeaning(lim: Limits, nominal: U32, tseg: U32, i: nat)
    requires InReach(lim, nominal, tseg) && i <= 1
    ensures
      var split := ProbeSplit(lim, nominal, tseg, i);
      || NearestLegal(lim, tseg, Target(nominal, tseg, i), split)
      || (Target(nominal, tseg, i) == 0 && nominal < PointFrom(tseg, split.1))
  {
    ProbeAsksFor(lim, nominal, tseg, i);
    var x := Target(nominal, tseg, i);
    if x == 0 && lim.tseg2Max > tseg && lim.tseg1Max > 0 {
      assert Target(nominal, tseg, 0) == 0 by { ProbeAsksFor(lim, nominal, tseg, 0); }
      WrappedSplit(lim, nominal, tseg);
    } else {
      NearestSplit(lim, tseg, x);
    }
  }

  /** The case `nominal * T < 1000`: two quanta already lie beyond the nominal point. */
  lemma WrappedPointIsHigh(tseg: nat, nominal: nat, tseg1: nat)
    requires nominal * (tseg + 1) / 1000 == 0 && 1 <= nominal && 1 <= tseg1
    ensures nominal < PointOf(tseg, tseg1)
  {
    var T := tseg + 1;
    MulLe(1, nominal, T);
    assert (nominal + 1) * T == nominal * T + T;
    DivOfProduct(nominal + 1, T);
    DivMonotone((nominal + 1) * T, 1000 * (1 + tseg1), T);
  }

  /** A legal split that samples no later than the first probe asks for is no better than that probe. */
  lemma EarlierSplit(lim: Limits, nominal: U32, tseg: U32, tseg1: int, x: int, split: (U32, U32))
    requires LegalSplit(lim, tseg, tseg1) && 1 + tseg1 <= x && NearestLegal(lim, tseg, x, split)
    requires x == nominal * (tseg + 1) / 1000
    ensures PointOf(tseg, tseg1) <= PointFrom(tseg, split.1) <= nominal
  {
    hide PointOf, PointFrom;
    assert tseg1 <= split.0 && 1 + split.0 <= x;
    PointMonotone(tseg, tseg1, split.0);
    PointAgainstNominal(tseg, nominal, 1 + split.0);
  }

  /** A legal split that samples later and still not beyond the nominal point hits it, and so does the
      second probe. */
  lemma LaterSplit(lim: Limits, nominal: U32, tseg: U32, tseg1: int, x: int, split: (U32, U32))
    requires LegalSplit(lim, tseg, tseg1) && x <= 1 + tseg1 && NearestLegal(lim, tseg, x, split)
    requires x == nominal * (tseg + 1) / 1000 + 1 && PointOf(tseg, tseg1) <= nominal
    ensures PointOf(tseg, tseg1) <= PointFrom(tseg, split.1) <= nominal
  {
    hide PointOf, PointFrom;
    assert split.0 <= tseg1 && x <= 1 + split.0;
    PointMonotone(tseg, split.0, tseg1);
    PointAgainstNominal(tseg, nominal, 1 + split.0);
    PointAgainstNominal(tseg, nominal, 1 + tseg1);
  }

  /** The two probes see everything: whatever legal split stays at or below the nominal point, one of
      them stays there too and comes at least as close. */
  lemma ProbesSuffice(lim: Limits, nominal: U32, tseg: U32, tseg1: int) returns (i: nat)
    requires InReach(lim, nominal, tseg) && LegalSplit(lim, tseg, tseg1) && PointOf(tseg, tseg1) <= nominal
    ensures i <= 1
    ensures PointOf(tseg, tseg1) <= PointFrom(tseg, ProbeSplit(lim, nominal, tseg, i).1) <= nominal
  {
    hide PointOf, PointFrom, ProbeSplit, NearestLegal;
    var x := nominal * (tseg + 1) / 1000;
    i := if 1 + tseg1 <= x then 0 else 1;
    ProbeAsksFor(lim, nominal, tseg, 0);
    ProbeMeaning(lim, nominal, tseg, i);
    var split := ProbeSplit(lim, nominal, tseg, i);
    if i == 0 {
      EarlierSplit(lim, nominal, tseg, tseg1, x, split);
    } else {
      LaterSplit(lim, nominal, tseg, tseg1, x + 1, split);
    }
  }

  /** Some legal split of `tseg` stays at or below the nominal sample point. */
  ghost predicate Feasible(lim: Limits, nominal: int, tseg: nat) {
    exists tseg1: int :: LegalSplit(lim, tseg, tseg1) && PointOf(tseg, tseg1) <= nominal
  }

  /** `sp` is the best sample point an exhaustive search over all legal splits of `tseg` finds: the
      closest to the nominal one from below. */
  ghost predicate BestPoint(lim: Limits, nominal: int, tseg: nat, sp: int) {
    && sp <= nominal
    && (exists tseg1: int :: LegalSplit(lim, tseg, tseg1) && PointOf(tseg, tseg1) == sp)
    && forall tseg1: int :: LegalSplit(lim, tseg, tseg1) && PointOf(tseg, tseg1) <= nominal ==>
         PointOf(tseg, tseg1) <= sp
  }

  /** The sample point that iteration `i` of the source's loop looks at. */
  function ProbePoint(lim: Limits, nominal: U32, tseg: U32, i: nat): int {
    PointFrom(tseg, ProbeSplit(lim, nominal, tseg, i).1)
  }

  /** Which of the first `n` probes is closest to the nominal point without exceeding it, or -1. */
  function PickedOf(lim: Limits, nominal: U32, tseg: U32, n: nat): (i: int)
    ensures -1 <= i < n
  {
    if n == 0 then -1
    else
      var i, sp := PickedOf(lim, nominal, tseg, n - 1), ProbePoint(lim, nominal, tseg, n - 1);
      if sp <= nominal && (i == -1 || ProbePoint(lim, nominal, tseg, i) < sp) then n - 1 else i
  }

  /** What is left of the picked probe if it is a legal split with the best sample point. */
  ghost predicate PicksBest(lim: Limits, nominal: U32, tseg: U32, i: int) {
    && 0 <= i
    && var split := ProbeSplit(lim, nominal, tseg, i);
       && LegalSplit(lim, tseg, split.0) && split.1 == tseg - split.0
       && BestPoint(lim, nominal, tseg, PointFrom(tseg, split.1))
  }

  /** `can_update_sample_point`: the returned sample point, what `*tseg1_ptr` and `*tseg2_ptr` hold
      afterwards (`old1` and `old2` before), and `*sample_point_error_ptr`. */
  method UpdateSamplePoint(lim: Limits, nominal: U32, tseg: U32, old1: U32, old2: U32)
    returns (best: U32, tseg1: U32, tseg2: U32, error: U32)
    requires InReach(lim, nominal, tseg) || Beyond(lim, nominal, tseg)
    ensures nominal <= 999 ==> (Feasible(lim, nominal, tseg) <==> error != UINT_MAX)
    ensures nominal <= 999 && Feasible(lim, nominal, tseg) ==> IsBest(lim, nominal, tseg, best, tseg1, tseg2, error)
    ensures nominal >= 1000 ==>
      (IsBest(lim, nominal, tseg, best, tseg1, tseg2, error) <==> OvershootIsHarmless(lim, nominal, tseg))
    ensures error == UINT_MAX ==> best == 0 && tseg1 == old1 && tseg2 == old2
  {
    hide PointOf, PointFrom, ProbeSplit, OvershootIsHarmless, InReach, Beyond, Feasible, IsBest;
    best, error, tseg1, tseg2 := 0, UINT_MAX, old1, old2;
    assert nominal < 0x8000_0000 by { BeyondRange(lim, nominal, tseg); }
    for i := 0 to 2
      invariant
        var k := PickedOf(lim, nominal, tseg, i);
        && (k == -1 ==> best == 0 && error == UINT_MAX && tseg1 == old1 && tseg2 == old2)
        && (k != -1 ==> best == ProbePoint(lim, nominal, tseg, k) <= nominal && error == nominal - best
                        && (tseg1, tseg2) == ProbeSplit(lim, nominal, tseg, k))
    {
      var split := ProbeSplit(lim, nominal, tseg, i);
      PointFromRange(tseg, split.1);
      var samplePoint: U32 := PointFrom(tseg, split.1);
      var difference := Abs32(Wrap32(nominal - samplePoint));
      if samplePoint <= nominal && difference < error {
        best, error := samplePoint, difference;
        tseg1, tseg2 := split.0, split.1;
      }
    }
    PickMeans(lim, nominal, tseg, best, tseg1, tseg2, error);
  }

  /** The outcome is a legal split that an exhaustive search would also end with. */
  ghost predicate IsBest(lim: Limits, nominal: U32, tseg: U32, best: U32, tseg1: U32, tseg2: U32, error: U32) {
    && BestPoint(lim, nominal, tseg, best) && error == nominal - best
    && LegalSplit(lim, tseg, tseg1) && tseg2 == tseg - tseg1 && best == PointOf(tseg, tseg1)
  }

  lemma PickMeans(lim: Limits, nominal: U32, tseg: U32, best: U32, tseg1: U32, tseg2: U32, error: U32)
    requires InReach(lim, nominal, tseg) || Beyond(lim, nominal, tseg)
    requires
      var k := PickedOf(lim, nominal, tseg, 2);
      && (k == -1 ==> error == UINT_MAX)
      && (k != -1 ==> best == ProbePoint(lim, nominal, tseg, k) <= nominal && error == nominal - best
                      && (tseg1, tseg2) == ProbeSplit(lim, nominal, tseg, k))
    ensures nominal <= 999 ==> (Feasible(lim, nominal, tseg) <==> error != UINT_MAX)
    ensures nominal <= 999 && Feasible(lim, nominal, tseg) ==> IsBest(lim, nominal, tseg, best, tseg1, tseg2, error)
    ensures nominal >= 1000 ==>
      (IsBest(lim, nominal, tseg, best, tseg1, tseg2, error) <==> OvershootIsHarmless(lim, nominal, tseg))
  {
    hide PointOf, PointFrom, ProbeSplit, OvershootIsHarmless, PickedOf, Feasible, BestPoint;
    var k := PickedOf(lim, nominal, tseg, 2);
    BeyondRange(lim, nominal, tseg);
    if nominal <= 999 {
      PicksExactly(lim, nominal, tseg);
    } else {
      OvershootExactly(lim, nominal, tseg);
    }
    if k != -1 && LegalSplit(lim, tseg, tseg1) && tseg2 == tseg - tseg1 {
      assert Wrap32(tseg - tseg1) == tseg2;
      PointFromLegal(lim, tseg, tseg1, tseg2);
    }
  }

  /** Inside the bit, the pick is the best legal split, and there is none only if no split is
      acceptable. */
  lemma PicksExactly(lim: Limits, nominal: U32, tseg: U32)
    requires InReach(lim, nominal, tseg)
    ensures
      var k := PickedOf(lim, nominal, tseg, 2);
      && (Feasible(lim, nominal, tseg) <==> k != -1)
      && (Feasible(lim, nominal, tseg) ==> PicksBest(lim, nominal, tseg, k))
  {
    hide PointOf, PointFrom, ProbeSplit;
    var k := PickedOf(lim, nominal, tseg, 2);
    PickedIsClosest(lim, nominal, tseg);
    var tseg1 := 0;
    if k != -1 {
      ProbeMeaning(lim, nominal, tseg, k);
      var split := ProbeSplit(lim, nominal, tseg, k);
      NearestIsLegal(lim, tseg, Target(nominal, tseg, k), split);
      tseg1 := split.0;
    }
    ExhaustiveSearch(lim, nominal, tseg, tseg1, if k == -1 then 0 else ProbePoint(lim, nominal, tseg, k), k != -1);
  }

  lemma PickedIsClosest(lim: Limits, nominal: U32, tseg: U32)
    ensures
      var sp0, sp1 := ProbePoint(lim, nominal, tseg, 0), ProbePoint(lim, nominal, tseg, 1);
      PickedOf(lim, nominal, tseg, 2) ==
      if sp1 <= nominal && (sp0 > nominal || sp0 < sp1) then 1 else if sp0 <= nominal then 0 else -1
  {
    assert PickedOf(lim, nominal, tseg, 0) == -1;
    assert PickedOf(lim, nominal, tseg, 1) == if ProbePoint(lim, nominal, tseg, 0) <= nominal then 0 else -1;
  }

  // ----- nominal points at or beyond the end of the bit -----

  ghost predicate Beyond(lim: Limits, nominal: int, tseg: int) {
    && lim.SaneSegments() && 1000 <= nominal && lim.tseg2Min <= tseg <= lim.tseg1Max + lim.tseg2Max
    && nominal * (tseg + 1) < 0x1_0000_0000 && nominal < 0x8000_0000
  }

  lemma BeyondRange(lim: Limits, nominal: U32, tseg: U32)
    requires InReach(lim, nominal, tseg) || Beyond(lim, nominal, tseg)
    ensures nominal < 0x8000_0000 && lim.SaneSegments() && (nominal <= 999 <==> InReach(lim, nominal, tseg))
    ensures nominal >= 1000 <==> Beyond(lim, nominal, tseg)
  {}

  /** When asking for 100 percent or more still gets the best legal split.  The first probe asks for the
      end of the bit if `nominal * T / 1000` is `T`.  Every other probe asks for a negative second segment,
      which wraps and is clamped to the longest: the earliest legal split, or, where that is longer than
      the bit, the longest first segment. */
  predicate OvershootIsHarmless(lim: Limits, nominal: U32, tseg: U32) {
    var best := PointOf(tseg, LastQuantum(lim, tseg) - 1);
    if nominal * (tseg + 1) / 1000 == tseg + 1 then
      || lim.tseg2Max <= tseg
      || nominal < PointOf(tseg, lim.tseg1Max)
      || PointOf(tseg, lim.tseg1Max) == best
    else if lim.tseg2Max <= tseg then
      PointOf(tseg, tseg - lim.tseg2Max) == best
    else
      lim.tseg1Max <= tseg - lim.tseg2Min
  }

  /** The split of a probe that wrapped. */
  function WrappedProbe(lim: Limits, tseg: U32): (U32, U32) {
    if lim.tseg2Max <= tseg then (Wrap32(tseg - lim.tseg2Max), lim.tseg2Max)
    else (lim.tseg1Max, Wrap32(tseg - lim.tseg1Max))
  }

  lemma OvershootProbe(lim: Limits, nominal: U32, tseg: U32, i: nat)
    requires Beyond(lim, nominal, tseg) && i <= 1
    ensures tseg + 1 <= nominal * (tseg + 1) / 1000
    ensures
      var q := nominal * (tseg + 1) / 1000;
      ProbeSplit(lim, nominal, tseg, i) ==
        if q + i == tseg + 1 then SplitAt(lim, tseg, 0) else WrappedProbe(lim, tseg)
  {
    hide SplitAt, WrappedProbe;
    var T, n := tseg + 1, nominal * (tseg + 1);
    MulLe(1000, nominal, T);
    assert Wrap32(n) == n && T <= n / 1000 < 0x100_0000;
    var k := n / 1000 + i - T;
    assert Wrap32(-k) == if k == 0 then 0 else 0x1_0000_0000 - k;
    if k != 0 {
      AskBeyond(lim, tseg, k);
    }
  }

  lemma AskBeyond(lim: Limits, tseg: U32, k: int)
    requires lim.SaneSegments() && lim.tseg2Min <= tseg <= lim.tseg1Max + lim.tseg2Max && 0 < k <= 0x100_0000
    ensures SplitAt(lim, tseg, 0x1_0000_0000 - k) == WrappedProbe(lim, tseg)
  {
    assert Clamp(0x1_0000_0000 - k, lim.tseg2Min, lim.tseg2Max) == lim.tseg2Max;
    if lim.tseg2Max <= tseg {
      assert Wrap32(tseg - lim.tseg2Max) == tseg - lim.tseg2Max;
    } else {
      assert Wrap32(tseg - lim.tseg2Max) == tseg - lim.tseg2Max + 0x1_0000_0000;
    }
  }

  lemma WrappedProbeFacts(lim: Limits, tseg: U32)
    requires lim.SaneSegments() && lim.tseg2Min <= tseg <= lim.tseg1Max + lim.tseg2Max
    ensures
      var split := WrappedProbe(lim, tseg);
      && split.0 == (if lim.tseg2Max <= tseg then tseg - lim.tseg2Max else lim.tseg1Max)
      && PointFrom(tseg, split.1) == PointOf(tseg, split.0)
      && (LegalSplit(lim, tseg, split.0) <==> lim.tseg2Max <= tseg || lim.tseg1Max <= tseg - lim.tseg2Min)
      && (LegalSplit(lim, tseg, split.0) ==> split.1 == tseg - split.0)
  {
    hide PointOf, PointFrom;
    var split := WrappedProbe(lim, tseg);
    if lim.tseg2Max <= tseg {
      assert split.0 == tseg - lim.tseg2Max && Wrap32(tseg - split.0) == lim.tseg2Max;
    } else if lim.tseg1Max <= tseg {
      assert Wrap32(tseg - lim.tseg1Max) == tseg - lim.tseg1Max;
    }
    PointFromLegal(lim, tseg, split.0, split.1);
  }

  /** The latest legal split has the best point, and asking for the end of the bit finds it. */
  lemma LatestIsBest(lim: Limits, nominal: U32, tseg: U32)
    requires Beyond(lim, nominal, tseg)
    ensures
      var last := LastQuantum(lim, tseg) - 1;
      && LegalSplit(lim, tseg, last) && PointOf(tseg, last) <= 1000
      && (forall sp: int :: BestPoint(lim, nominal, tseg, sp) <==> sp == PointOf(tseg, last))
      && SplitAt(lim, tseg, 0) == (last, tseg - last) && PointFrom(tseg, tseg - last) == PointOf(tseg, last)
  {
    var last := LastQuantum(lim, tseg) - 1;
    NearestSplit(lim, tseg, 1 + tseg);
    DivOfProduct(1000, 1 + tseg);
    DivMonotone(1000 * (1 + last), 1000 * (1 + tseg), 1 + tseg);
    forall tseg1: int | LegalSplit(lim, tseg, tseg1)
      ensures PointOf(tseg, tseg1) <= PointOf(tseg, last)
    {
      PointMonotone(tseg, tseg1, last);
    }
  }

  lemma OvershootExactly(lim: Limits, nominal: U32, tseg: U32)
    requires Beyond(lim, nominal, tseg)
    ensures PicksBest(lim, nominal, tseg, PickedOf(lim, nominal, tseg, 2)) <==> OvershootIsHarmless(lim, nominal, tseg)
  {
    hide PointOf, PointFrom, ProbeSplit, PickedOf, BestPoint, WrappedProbe, SplitAt;
    OvershootProbe(lim, nominal, tseg, 0);
    OvershootProbe(lim, nominal, tseg, 1);
    WrappedProbeFacts(lim, tseg);
    LatestIsBest(lim, nominal, tseg);
    PickedIsClosest(lim, nominal, tseg);
    var last := LastQuantum(lim, tseg) - 1;
    PointMonotone(tseg, last, lim.tseg1Max);
    PointMonotone(tseg, tseg - lim.tseg2Max, last);
  }

  /** For 100 percent exactly and bits of up to 1000 quanta: the best split is missed if and only if the
      second segment may be longer than the bit and the first one may leave it too little. */
  lemma FullPointExactly(lim: Limits, tseg: U32)
    requires Beyond(lim, 1000, tseg) && tseg < 1000
    ensures OvershootIsHarmless(lim, 1000, tseg) <==>
            !(tseg < lim.tseg2Max && lim.tseg1Max <= tseg && tseg - lim.tseg1Max < lim.tseg2Min)
  {
    hide PointOf;
    var last := LastQuantum(lim, tseg) - 1;
    if last < lim.tseg1Max {
      PointStrict(tseg, last, lim.tseg1Max);
    }
    FullPointOf(tseg);
    if tseg < lim.tseg1Max {
      PointStrict(tseg, tseg, lim.tseg1Max);
    } else {
      PointMonotone(tseg, lim.tseg1Max, tseg);
    }
  }

  lemma FullPointOf(tseg: nat)
    ensures PointOf(tseg, tseg) == 1000
  {
    DivOfProduct(1000, 1 + tseg);
  }

  lemma PointStrict(tseg: nat, a: int, b: int)
    requires a < b && tseg < 1000
    ensures PointOf(tseg, a) < PointOf(tseg, b)
  {
    DivMonotone(1000 * (1 + a) + (1 + tseg), 1000 * (1 + b), 1 + tseg);
    DivAddMultiple(1000 * (1 + a), 1 + tseg, 1);
  }

  lemma PointFromRange(tseg: U32, tseg2: U32)
    ensures 0 <= PointFrom(tseg, tseg2) < 0x1_0000_0000
  {
    DivShrinks(Wrap32(1000 * Wrap32(tseg + 1 - tseg2)), tseg + 1);
  }

  /** Bits of up to 1000 quanta have no two splits with the same sample point, so the best point determines
      the segments. */
  lemma SplitIsDetermined(tseg: nat, a: int, b: int)
    requires tseg < 1000 && PointOf(tseg, a) == PointOf(tseg, b)
    ensures a == b
  {
    if a < b {
      PointStrict(tseg, a, b);
    } else if b < a {
      PointStrict(tseg, b, a);
    }
  }

  /** Being the best of the two probes is being the best of all legal splits. */
  lemma ExhaustiveSearch(lim: Limits, nominal: U32, tseg: U32, tseg1: int, best: int, found: bool)
    requires InReach(lim, nominal, tseg)
    requires found ==> best <= nominal && LegalSplit(lim, tseg, tseg1) && best == PointOf(tseg, tseg1)
    requires found ==>
      forall j: nat :: j < 2 ==>
        var sp := PointFrom(tseg, ProbeSplit(lim, nominal, tseg, j).1);
        sp <= nominal ==> sp <= best
    requires !found ==>
      forall j: nat :: j < 2 ==> nominal < PointFrom(tseg, ProbeSplit(lim, nominal, tseg, j).1)
    ensures Feasible(lim, nominal, tseg) <==> found
    ensures found ==> BestPoint(lim, nominal, tseg, best)
  {
    hide PointOf, PointFrom, ProbeSplit;
    forall other: int | LegalSplit(lim, tseg, other) && PointOf(tseg, other) <= nominal
      ensures found && PointOf(tseg, other) <= best
    {
      var i := ProbesSuffice(lim, nominal, tseg, other);
      var sp := PointFrom(tseg, ProbeSplit(lim, nominal, tseg, i).1);
    }
  }

  /** Where any split is acceptable there is a best one. */
  lemma BestPointExists(lim: Limits, nominal: U32, tseg: U32)
    requires InReach(lim, nominal, tseg) && Feasible(lim, nominal, tseg)
    ensures exists sp: int :: BestPoint(lim, nominal, tseg, sp)
  {
    hide PointOf, PointFrom, ProbeSplit, NearestLegal;
    ProbeAsksFor(lim, nominal, tseg, 0);
    var split0, split1 := ProbeSplit(lim, nominal, tseg, 0), ProbeSplit(lim, nominal, tseg, 1);
    var sp0, sp1 := PointFrom(tseg, split0.1), PointFrom(tseg, split1.1);
    var tseg1 :| LegalSplit(lim, tseg, tseg1) && PointOf(tseg, tseg1) <= nominal;
    var i := ProbesSuffice(lim, nominal, tseg, tseg1);
    var best := if sp1 <= nominal && (sp0 > nominal || sp0 < sp1) then split1 else split0;
    ProbeMeaning(lim, nominal, tseg, if best == split1 then 1 else 0);
    assert LegalSplit(lim, tseg, best.0) && PointFrom(tseg, best.1) == PointOf(tseg, best.0) by {
      assert NearestLegal(lim, tseg, Target(nominal, tseg, 0), best)
          || NearestLegal(lim, tseg, Target(nominal, tseg, 1), best);
      NearestIsLegal(lim, tseg, Target(nominal, tseg, 0), best);
      NearestIsLegal(lim, tseg, Target(nominal, tseg, 1), best);
    }
    ExhaustiveSearch(lim, nominal, tseg, best.0, PointFrom(tseg, best.1), true);
  }

  lemma NearestIsLegal(lim: Limits, tseg: U32, x: int, split: (U32, U32))
    ensures NearestLegal(lim, tseg, x, split) ==>
              LegalSplit(lim, tseg, split.0) && PointFrom(tseg, split.1) == PointOf(tseg, split.0)
  {
    hide PointOf, PointFrom;
  }

  /** The distance of the best sample point from the nominal one. */
  ghost function PointError(lim: Limits, nominal: U32, tseg: U32): int
    requires InReach(lim, nominal, tseg) && Feasible(lim, nominal, tseg)
  {
    BestPointExists(lim, nominal, tseg);
    var sp :| BestPoint(lim, nominal, tseg, sp);
    nominal - sp
  }

  /** Acceptable bit lengths in closed form: the earliest possible sample point decides. */
  lemma FeasibleForm(lim: Limits, nominal: U32, tseg: U32)
    requires InReach(lim, nominal, tseg)
    ensures Feasible(lim, nominal, tseg) <==> 1000 * FirstQuantum(lim, tseg) < (nominal + 1) * (tseg + 1)
  {
    var first := FirstQuantum(lim, tseg) - 1;
    assert LegalSplit(lim, tseg, first);
    PointAtMost(tseg, nominal, first);
    forall tseg1: int | LegalSplit(lim, tseg, tseg1) && PointOf(tseg, tseg1) <= nominal
      ensures PointOf(tseg, first) <= nominal
    {
      PointMonotone(tseg, first, tseg1);
    }
  }

  lemma PointAtMost(tseg: nat, nominal: nat, tseg1: int)
    ensures PointOf(tseg, tseg1) <= nominal <==> 1000 * (1 + tseg1) < (nominal + 1) * (tseg + 1)
  {
    var T, a := tseg + 1, 1000 * (1 + tseg1);
    DivOfProduct(nominal + 1, T);
    if a < (nominal + 1) * T {
      var d := a / T - (nominal + 1);
      assert a == a / T * T + a % T;
      assert d * T == a / T * T - (nominal + 1) * T;
      assert d >= 0 ==> d * T >= 0;
    } else {
      DivMonotone((nominal + 1) * T, a, T);
    }
  }

  /** Acceptable bit lengths have no gaps: between two of them every length is acceptable. */
  lemma FeasibleIsConvex(lim: Limits, nominal: U32, low: U32, mid: U32, high: U32)
    requires low <= mid <= high
    requires InReach(lim, nominal, low) && InReach(lim, nominal, high)
    requires Feasible(lim, nominal, low) && Feasible(lim, nominal, high)
    ensures InReach(lim, nominal, mid) && Feasible(lim, nominal, mid)
  {
    hide Feasible;
    FeasibleForm(lim, nominal, low);
    FeasibleForm(lim, nominal, mid);
    FeasibleForm(lim, nominal, high);
    EarliestPointIsConvex(lim.tseg2Max, nominal, low, mid, high);
  }

  lemma EarliestPointIsConvex(tseg2Max: int, nominal: int, low: int, mid: int, high: int)
    requires 0 <= low <= mid <= high && 0 <= nominal <= 999
    requires 1000 * Max(1, 1 + low - tseg2Max) < (nominal + 1) * (low + 1)
    requires 1000 * Max(1, 1 + high - tseg2Max) < (nominal + 1) * (high + 1)
    ensures 1000 * Max(1, 1 + mid - tseg2Max) < (nominal + 1) * (mid + 1)
  {
    MulLe(low + 1, mid + 1, nominal + 1);
    MulLe(mid + 1, high + 1, 999 - nominal);
    assert (999 - nominal) * (mid + 1) == 1000 * (mid + 1) - (nominal + 1) * (mid + 1);
    assert (999 - nominal) * (high + 1) == 1000 * (high + 1) - (nominal + 1) * (high + 1);
  }
}

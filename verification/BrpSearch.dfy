/** The search for a prescaler and a bit length: the loop of `can_calc_bittiming` in calc_bittiming.c.

    For each bit length the search looks at the prescaler rounded down and the one after it only, and
    keeps the best pair of (bit rate error, sample point error) seen.  The main result is that this is
    the lexicographic minimum over all settings whose prescaler the search answers for; module
    LegalSettings says what that leaves out. */
module BrpSearch {
  import opened Words
  import opened SamplePoint
  import opened Div64

  // ----- candidates -----

  /** The bit rate a prescaler gives with `1 + tseg` quanta per bit. */
  function Rate(freq: U32, tseg: nat, brp: nat): int
    requires 0 < brp
  {
    MulLe(1, brp, 1 + tseg);
    freq / (brp * (1 + tseg))
  }

  function RateError(freq: U32, bitrate: U32, tseg: nat, brp: nat): int
    requires 0 < brp
  {
    var r := Rate(freq, tseg, brp);
    if r <= bitrate then bitrate - r else r - bitrate
  }

  /** The real-valued ideal prescaler, rounded down. */
  function IdealBrp(freq: U32, bitrate: U32, tseg: nat): int
    requires 0 < bitrate
  {
    MulLe(1, bitrate, 1 + tseg);
    freq / ((1 + tseg) * bitrate)
  }

  /** The prescaler tried for loop counter `t`: bit length `t / 2`, rounded down if `t` is even and one
      step further if it is odd. */
  function TriedBrp(lim: Limits, freq: U32, bitrate: U32, t: nat): int
    requires 0 < bitrate && 1 <= lim.brpInc
  {
    (IdealBrp(freq, bitrate, t / 2) + t % 2) / lim.brpInc * lim.brpInc
  }

  /** All that rules out 32-bit wrap-around and division by zero in the calculation. */
  predicate InRange(lim: Limits, bitrate: U32, nominal: int) {
    && lim.Sane() && 0 < bitrate && 1 <= nominal <= 999
    && (1 + lim.tseg1Max + lim.tseg2Max) * bitrate < 0x1_0000_0000
  }

  predicate CounterInRange(lim: Limits, t: int) {
    2 * (lim.tseg1Min + lim.tseg2Min) <= t < 2 * (lim.tseg1Max + lim.tseg2Max) + 2
  }

  // ----- why two prescalers are enough -----

  lemma MultiplyOut(freq: int, T: int, bitrate: int, F: int)
    requires 0 <= freq && 0 < T && 0 < bitrate && F == freq / (T * bitrate)
    ensures 0 <= F && 0 < T * bitrate && F * (T * bitrate) <= freq < (F + 1) * (T * bitrate)
  {
    MulLe(1, T, bitrate);
    DivShrinks(freq, T * bitrate);
    assert freq == F * (T * bitrate) + freq % (T * bitrate);
    assert (F + 1) * (T * bitrate) == F * (T * bitrate) + T * bitrate;
  }

  /** A prescaler up to the ideal one gives at least the requested rate, a larger one less. */
  lemma RateSide(freq: U32, bitrate: U32, tseg: nat, brp: nat)
    requires 0 < bitrate && 0 < brp
    ensures brp <= IdealBrp(freq, bitrate, tseg) ==> bitrate <= Rate(freq, tseg, brp)
    ensures brp > IdealBrp(freq, bitrate, tseg) ==> Rate(freq, tseg, brp) < bitrate
  {
    var T, F := 1 + tseg, IdealBrp(freq, bitrate, tseg);
    MultiplyOut(freq, T, bitrate, F);
    var d := brp * T;
    MulLe(1, brp, T);
    assert bitrate * d == brp * (T * bitrate);
    if brp <= F {
      MulLe(brp, F, T * bitrate);
      DivOfProduct(bitrate, d);
      DivMonotone(bitrate * d, freq, d);
    } else {
      MulLe(F + 1, brp, T * bitrate);
      QuotientBelow(freq, d, bitrate);
    }
  }

  lemma QuotientBelow(a: int, d: int, q: int)
    requires 0 < d && a < q * d
    ensures a / d < q
  {
    var e := a / d - q;
    assert a == a / d * d + a % d;
    assert e * d == a / d * d - q * d;
    assert e >= 0 ==> e * d >= 0;
  }

  /** A larger prescaler gives a lower rate. */
  lemma RateAntitone(freq: U32, tseg: nat, a: nat, b: nat)
    requires 0 < a <= b
    ensures 0 <= Rate(freq, tseg, b) <= Rate(freq, tseg, a)
  {
    var T := 1 + tseg;
    MulLe(1, a, T);
    MulLe(a, b, T);
    DivisorAntitone(freq, a * T, b * T);
    DivShrinks(freq, b * T);
  }

  lemma DivisorAntitone(x: nat, c: nat, d: nat)
    requires 0 < c <= d
    ensures x / d <= x / c
  {
    var q := x / d;
    DivShrinks(x, d);
    assert x == q * d + x % d;
    MulLe(c, d, q);
    DivOfProduct(q, c);
    DivMonotone(q * c, x, c);
  }

  /** Rounding down to the ideal prescaler beats every smaller one, rounding up every larger one. */
  lemma NearestBrpIsBest(freq: U32, bitrate: U32, tseg: nat, near: nat, brp: nat)
    requires 0 < bitrate && 0 < near && 0 < brp
    requires brp <= near <= IdealBrp(freq, bitrate, tseg) || IdealBrp(freq, bitrate, tseg) < near <= brp
    ensures RateError(freq, bitrate, tseg, near) <= RateError(freq, bitrate, tseg, brp)
  {
    RateSide(freq, bitrate, tseg, near);
    RateSide(freq, bitrate, tseg, brp);
    if brp <= near {
      RateAntitone(freq, tseg, brp, near);
    } else {
      RateAntitone(freq, tseg, near, brp);
    }
  }

  // ----- the search -----

  lemma StepMultiple(n: nat, inc: nat)
    requires 0 < inc
    ensures n / inc * inc <= n < n / inc * inc + inc && 0 <= n / inc * inc
    ensures (n / inc * inc) % inc == 0
  {
    DivShrinks(n, inc);
    MulLe(0, n / inc, inc);
    assert n == n / inc * inc + n % inc;
    DivOfProduct(n / inc, inc);
  }

  /** A multiple of `inc` that is not zero is at least `inc`. */
  lemma MultipleAtLeast(m: nat, inc: nat)
    requires 0 < inc && 0 < m && m % inc == 0
    ensures inc <= m
  {
    assert m == m / inc * inc;
    SignOfProduct(m / inc, inc);
    MulLe(1, m / inc, inc);
  }

  /** A tried prescaler gives less than twice the requested rate, so the error never exceeds it. */
  lemma TriedErrorBound(lim: Limits, freq: U32, bitrate: U32, t: nat)
    requires 0 < bitrate && 1 <= lim.brpInc && 0 < TriedBrp(lim, freq, bitrate, t)
    ensures
      var brp := TriedBrp(lim, freq, bitrate, t);
      && 0 <= Rate(freq, t / 2, brp) <= freq
      && 0 <= RateError(freq, bitrate, t / 2, brp) <= bitrate
  {
    var brp, F := TriedBrp(lim, freq, bitrate, t), IdealBrp(freq, bitrate, t / 2);
    MultiplyOut(freq, 1 + t / 2, bitrate, F);
    assert F + 1 <= 2 * brp by {
      StepMultiple(F + t % 2, lim.brpInc);
      MultipleAtLeast(brp, lim.brpInc);
    }
    RateBelowTwice(freq, bitrate, 1 + t / 2, F, brp);
  }

  lemma RateBelowTwice(freq: nat, bitrate: nat, T: nat, F: nat, brp: nat)
    requires 0 < bitrate && 0 < T && 0 < brp && freq < (F + 1) * (T * bitrate) && F + 1 <= 2 * brp
    ensures 0 < brp * T && 0 <= freq / (brp * T) <= freq && freq / (brp * T) < 2 * bitrate
  {
    MulLe(1, brp, T);
    DivShrinks(freq, brp * T);
    MulLe(0, T, bitrate);
    MulLe(F + 1, 2 * brp, T * bitrate);
    assert 2 * brp * (T * bitrate) == 2 * bitrate * (brp * T);
    QuotientBelow(freq, brp * T, 2 * bitrate);
  }

  /** Lines 139 to 150 of the source: the prescaler for counter `t`, and its bit rate error when the
      controller can be set to it. */
  method TryBrp(lim: Limits, freq: U32, bitrate: U32, nominal: int, t: nat)
    returns (usable: bool, brp: U32, error: U32)
    requires InRange(lim, bitrate, nominal) && CounterInRange(lim, t)
    ensures brp == TriedBrp(lim, freq, bitrate, t)
    ensures usable <==> lim.brpMin <= brp <= lim.brpMax
    ensures usable ==> error == RateError(freq, bitrate, t / 2, brp) <= bitrate
    ensures bitrate < 0x8000_0000
  {
    var tsegall: U32 := 1 + t / 2;
    ghost var longest := 1 + lim.tseg1Max + lim.tseg2Max;
    ProductBelow(2, bitrate, longest, bitrate, 0x1_0000_0000);
    ProductBelow(tsegall, bitrate, longest, bitrate, 0x1_0000_0000);
    IdealBrpFits(freq, bitrate, t / 2);
    var product: U32 := tsegall * bitrate;
    brp := freq / product + t % 2;
    StepMultiple(brp, lim.brpInc);
    brp := brp / lim.brpInc * lim.brpInc;
    usable, error := lim.brpMin <= brp <= lim.brpMax, 0;
    if usable {
      TriedErrorBound(lim, freq, bitrate, t);
      ProductBelow(brp, tsegall, lim.brpMax, longest, 0x1_0000_0000);
      error := MeasureError(freq, bitrate, brp, tsegall);
    }
  }

  method MeasureError(freq: U32, bitrate: U32, brp: U32, tsegall: U32) returns (error: U32)
    requires 0 < brp * tsegall < 0x1_0000_0000 && 0 < brp && 0 < tsegall && bitrate < 0x8000_0000
    requires 0 <= Rate(freq, tsegall - 1, brp) <= freq
    requires RateError(freq, bitrate, tsegall - 1, brp) <= bitrate
    ensures error == RateError(freq, bitrate, tsegall - 1, brp)
  {
    var quanta: U32 := brp * tsegall;
    var rate: U32 := freq / quanta;
    error := Abs32(Wrap32(bitrate - rate));
  }

  lemma ProductBelow(a: int, b: int, x: int, y: int, bound: int)
    requires 0 < a <= x && 0 < b <= y && x * y < bound
    ensures 0 < a * b < bound
  {
    MulLe(1, a, b);
    MulLe(a, x, b);
    MulLe(b, y, x);
  }

  lemma IdealBrpFits(freq: U32, bitrate: U32, tseg: nat)
    requires 0 < bitrate && 1 <= tseg
    ensures 0 <= IdealBrp(freq, bitrate, tseg) < 0x8000_0000
  {
    var F, d := IdealBrp(freq, bitrate, tseg), (1 + tseg) * bitrate;
    MultiplyOut(freq, 1 + tseg, bitrate, F);
    MulLe(2, 1 + tseg, bitrate);
    MulLe(2, d, F);
  }

  predicate LexLe(a: int, b: int, c: int, d: int) {
    a < c || (a == c && b <= d)
  }

  lemma CounterReach(lim: Limits, bitrate: U32, nominal: int, t: int)
    requires InRange(lim, bitrate, nominal) && CounterInRange(lim, t)
    ensures InReach(lim, nominal, t / 2) && 1 <= t / 2 < 0x1_0000_0000
  {}

  /** Counter values that compete: the prescaler is one the controller has, and some split of the bit
      has an acceptable sample point. */
  ghost predicate Competes(lim: Limits, freq: U32, bitrate: U32, nominal: int, t: nat)
    requires InRange(lim, bitrate, nominal)
  {
    && CounterInRange(lim, t)
    && lim.brpMin <= TriedBrp(lim, freq, bitrate, t) <= lim.brpMax
    && Feasible(lim, nominal, t / 2)
  }

  /** Counter `b` is at least as good as `t`: smaller bit rate error, or the same and no larger sample
      point error. */
  ghost predicate AsGood(lim: Limits, freq: U32, bitrate: U32, nominal: int, b: nat, t: nat)
    requires InRange(lim, bitrate, nominal)
    requires Competes(lim, freq, bitrate, nominal, b) && Competes(lim, freq, bitrate, nominal, t)
  {
    CounterReach(lim, bitrate, nominal, b);
    CounterReach(lim, bitrate, nominal, t);
    LexLe(RateError(freq, bitrate, b / 2, TriedBrp(lim, freq, bitrate, b)), PointError(lim, nominal, b / 2),
          RateError(freq, bitrate, t / 2, TriedBrp(lim, freq, bitrate, t)), PointError(lim, nominal, t / 2))
  }

  lemma BestPointIsUnique(lim: Limits, nominal: U32, tseg: U32, best: int)
    requires InReach(lim, nominal, tseg) && Feasible(lim, nominal, tseg) && BestPoint(lim, nominal, tseg, best)
    ensures PointError(lim, nominal, tseg) == nominal - best
  {
    hide PointOf;
    BestPointExists(lim, nominal, tseg);
  }

  /** Counter `b` leads among the counters from `t` on. */
  ghost predicate Leads(lim: Limits, freq: U32, bitrate: U32, nominal: int, b: nat, t: int)
    requires InRange(lim, bitrate, nominal)
  {
    && Competes(lim, freq, bitrate, nominal, b)
    && forall u: nat :: t <= u && Competes(lim, freq, bitrate, nominal, u) ==>
         AsGood(lim, freq, bitrate, nominal, b, u)
  }

  ghost predicate NoneFrom(lim: Limits, freq: U32, bitrate: U32, nominal: int, t: int)
    requires InRange(lim, bitrate, nominal)
  {
    forall u: nat :: t <= u ==> !Competes(lim, freq, bitrate, nominal, u)
  }

  /** No counter tried before `b` is as good: of equally good ones the search keeps the first. */
  ghost predicate First(lim: Limits, freq: U32, bitrate: U32, nominal: int, b: nat)
    requires InRange(lim, bitrate, nominal)
  {
    && Competes(lim, freq, bitrate, nominal, b)
    && forall u: nat :: b < u && Competes(lim, freq, bitrate, nominal, u) ==>
         !AsGood(lim, freq, bitrate, nominal, u, b)
  }

  lemma StrictlyBetterIsFirst(lim: Limits, freq: U32, bitrate: U32, nominal: int, b: nat, t: nat)
    requires InRange(lim, bitrate, nominal) && Leads(lim, freq, bitrate, nominal, b, t + 1)
    requires Competes(lim, freq, bitrate, nominal, t) && !AsGood(lim, freq, bitrate, nominal, b, t)
    ensures First(lim, freq, bitrate, nominal, t)
  {
    hide Competes, RateError, TriedBrp, PointError;
    forall u: nat | t < u && Competes(lim, freq, bitrate, nominal, u)
      ensures !AsGood(lim, freq, bitrate, nominal, u, t)
    {
      assert AsGood(lim, freq, bitrate, nominal, b, u);
    }
  }

  lemma OnlyIsFirst(lim: Limits, freq: U32, bitrate: U32, nominal: int, t: nat)
    requires InRange(lim, bitrate, nominal) && NoneFrom(lim, freq, bitrate, nominal, t + 1)
    requires Competes(lim, freq, bitrate, nominal, t)
    ensures First(lim, freq, bitrate, nominal, t)
  {
    hide Competes, AsGood;
  }

  /** One more counter that does not beat the leader. */
  lemma LeaderStays(lim: Limits, freq: U32, bitrate: U32, nominal: int, b: nat, t: nat)
    requires InRange(lim, bitrate, nominal) && Leads(lim, freq, bitrate, nominal, b, t + 1)
    requires Competes(lim, freq, bitrate, nominal, t) ==> AsGood(lim, freq, bitrate, nominal, b, t)
    ensures Leads(lim, freq, bitrate, nominal, b, t)
  {
    hide Competes, AsGood;
  }

  /** One more counter that does. */
  lemma LeaderChanges(lim: Limits, freq: U32, bitrate: U32, nominal: int, b: nat, t: nat)
    requires InRange(lim, bitrate, nominal) && Leads(lim, freq, bitrate, nominal, b, t + 1)
    requires Competes(lim, freq, bitrate, nominal, t) && AsGood(lim, freq, bitrate, nominal, t, b)
    ensures Leads(lim, freq, bitrate, nominal, t, t)
  {
    hide Competes, RateError, TriedBrp, PointError;
    forall u: nat | t <= u && Competes(lim, freq, bitrate, nominal, u)
      ensures AsGood(lim, freq, bitrate, nominal, t, u)
    {
      assert u == t || AsGood(lim, freq, bitrate, nominal, b, u);
    }
  }

  lemma FirstLeader(lim: Limits, freq: U32, bitrate: U32, nominal: int, t: nat)
    requires InRange(lim, bitrate, nominal) && NoneFrom(lim, freq, bitrate, nominal, t + 1)
    requires Competes(lim, freq, bitrate, nominal, t)
    ensures Leads(lim, freq, bitrate, nominal, t, t)
  {
    hide Competes, RateError, TriedBrp, PointError;
  }

  /** The loop of the source, lines 137 to 172.  `dead` is the bit length of a candidate that won on bit
      rate, and so reset the sample point error, but had no acceptable sample point: from there on no
      shorter bit has one either, so the reset is harmless. */
  method Search(lim: Limits, freq: U32, bitrate: U32, nominal: U32)
    returns (bestError: U32, bestTseg: U32, bestBrp: U32, ghost b: nat)
    requires InRange(lim, bitrate, nominal)
    ensures bestError == UINT_MAX ==> NoneFrom(lim, freq, bitrate, nominal, 0)
    ensures bestError != UINT_MAX ==>
      && Leads(lim, freq, bitrate, nominal, b, 0)
      && First(lim, freq, bitrate, nominal, b)
      && bestTseg == b / 2 && bestBrp == TriedBrp(lim, freq, bitrate, b) && 0 < bestBrp
      && bestError == RateError(freq, bitrate, bestTseg, bestBrp) <= bitrate
  {
    hide First, TriedBrp, RateError, Feasible, BestPoint, PointError, InReach;
    bestError, bestTseg, bestBrp, b := UINT_MAX, 0, 0, 0;
    var bestPointError: U32, tseg1: U32, tseg2: U32 := UINT_MAX, 0, 0;
    ghost var dead: U32 := 0;
    for t := 2 * (lim.tseg1Max + lim.tseg2Max) + 2 downto 2 * (lim.tseg1Min + lim.tseg2Min)
      invariant bestError == UINT_MAX ==>
        bestPointError == UINT_MAX && NoneFrom(lim, freq, bitrate, nominal, t)
      invariant bestError != UINT_MAX ==>
        && t <= b && Leads(lim, freq, bitrate, nominal, b, t) && First(lim, freq, bitrate, nominal, b)
        && bestTseg == b / 2 && bestBrp == TriedBrp(lim, freq, bitrate, b) && 0 < bestBrp
        && bestError == RateError(freq, bitrate, bestTseg, bestBrp) <= bitrate
        && InReach(lim, nominal, b / 2)
      invariant bestError != UINT_MAX ==>
        || (bestPointError == PointError(lim, nominal, b / 2) && bestPointError <= nominal)
        || (&& bestPointError == UINT_MAX && t <= 2 * dead + 1 && dead <= b / 2
            && InReach(lim, nominal, dead) && !Feasible(lim, nominal, dead))
    {
      CounterReach(lim, bitrate, nominal, t);
      var usable, brp, error := TryBrp(lim, freq, bitrate, nominal, t);
      if !usable || error > bestError {
        if bestError != UINT_MAX { LeaderStays(lim, freq, bitrate, nominal, b, t); }
        continue;
      }
      if error < bestError {
        bestPointError := UINT_MAX;
      }
      var point, pointError;
      point, tseg1, tseg2, pointError := UpdateSamplePoint(lim, nominal, t / 2, tseg1, tseg2);
      if pointError == UINT_MAX {
        dead := t / 2;
      } else {
        BestPointIsUnique(lim, nominal, t / 2, point);
        if bestError != UINT_MAX && bestPointError == UINT_MAX && error == bestError {
          FeasibleIsConvex(lim, nominal, t / 2, dead, b / 2);
        }
      }
      if pointError >= bestPointError {
        if bestError != UINT_MAX { LeaderStays(lim, freq, bitrate, nominal, b, t); }
        continue;
      }
      if bestError != UINT_MAX {
        LeaderChanges(lim, freq, bitrate, nominal, b, t);
        StrictlyBetterIsFirst(lim, freq, bitrate, nominal, b, t);
      } else {
        FirstLeader(lim, freq, bitrate, nominal, t);
        OnlyIsFirst(lim, freq, bitrate, nominal, t);
      }
      bestPointError, bestError, bestTseg, bestBrp, b := pointError, error, t / 2, brp, t;
      if error == 0 && pointError == 0 {
        NothingBeatsZero(lim, freq, bitrate, nominal, b);
        break;
      }
    }
    if bestError != UINT_MAX {
      CountersEnd(lim, freq, bitrate, nominal, b);
    }
  }

  /** No counter below the loop's last one is a candidate. */
  lemma CountersEnd(lim: Limits, freq: U32, bitrate: U32, nominal: int, b: nat)
    requires InRange(lim, bitrate, nominal)
    requires
      || Leads(lim, freq, bitrate, nominal, b, 2 * (lim.tseg1Min + lim.tseg2Min))
      || Leads(lim, freq, bitrate, nominal, b, 0)
    ensures Leads(lim, freq, bitrate, nominal, b, 0)
  {
    hide AsGood, TriedBrp, Feasible;
  }

  lemma NothingBeatsZero(lim: Limits, freq: U32, bitrate: U32, nominal: U32, b: nat)
    requires InRange(lim, bitrate, nominal) && Competes(lim, freq, bitrate, nominal, b)
    requires InReach(lim, nominal, b / 2)
    requires RateError(freq, bitrate, b / 2, TriedBrp(lim, freq, bitrate, b)) == 0
    requires PointError(lim, nominal, b / 2) == 0
    ensures Leads(lim, freq, bitrate, nominal, b, 0)
  {
    hide TriedBrp, Feasible;
    forall t: nat | Competes(lim, freq, bitrate, nominal, t)
      ensures AsGood(lim, freq, bitrate, nominal, b, t)
    {
      CounterReach(lim, bitrate, nominal, t);
      BestPointExists(lim, nominal, t / 2);
      assert 0 <= PointError(lim, nominal, t / 2);
    }
  }

  // ----- the search is exhaustive -----

  /** Prescalers the search answers for at bit length `tseg`.  With `brpInc == 1` these are all, unless
      the ideal prescaler lies outside the controller's range. */
  predicate Covered(lim: Limits, freq: U32, bitrate: U32, tseg: nat, brp: nat)
    requires 0 < bitrate && 1 <= lim.brpInc
  {
    var ideal := IdealBrp(freq, bitrate, tseg);
    && ideal / lim.brpInc * lim.brpInc <= lim.brpMax
    && (brp <= ideal + 1 || ((ideal + 1) % lim.brpInc == 0 && lim.brpMin <= ideal + 1))
  }

  predicate LengthInRange(lim: Limits, tseg: int) {
    lim.tseg1Min + lim.tseg2Min <= tseg <= lim.tseg1Max + lim.tseg2Max
  }

  /** Everything the source lets a controller be set to: a bit length, a prescaler and a split that samples
      no later than the nominal point.  Like the source, this does not ask for `tseg1Min`. */
  ghost predicate Legal(lim: Limits, nominal: int, tseg: nat, brp: nat, tseg1: int)
    requires 1 <= lim.brpInc
  {
    && LengthInRange(lim, tseg)
    && LegalSplit(lim, tseg, tseg1) && PointOf(tseg, tseg1) <= nominal
    && lim.brpMin <= brp <= lim.brpMax && brp % lim.brpInc == 0
  }

  /** The legal settings the search answers for. */
  ghost predicate Admissible(lim: Limits, freq: U32, bitrate: U32, nominal: int, tseg: nat, brp: nat, tseg1: int)
    requires InRange(lim, bitrate, nominal)
  {
    Legal(lim, nominal, tseg, brp, tseg1) && Covered(lim, freq, bitrate, tseg, brp)
  }

  /** No admissible setting has a smaller (bit rate error, sample point error) pair. */
  ghost predicate Minimal(lim: Limits, freq: U32, bitrate: U32, nominal: int, rateError: int, pointError: int)
    requires InRange(lim, bitrate, nominal)
  {
    forall tseg: nat, brp: nat, tseg1: int :: Admissible(lim, freq, bitrate, nominal, tseg, brp, tseg1) ==>
      LexLe(rateError, pointError, RateError(freq, bitrate, tseg, brp), nominal - PointOf(tseg, tseg1))
  }

  /** With prescalers 1, 2, 3, ... every legal prescaler is covered at every bit length whose ideal
      prescaler the controller can reach. */
  lemma UnitStepCoversAll(lim: Limits, freq: U32, bitrate: U32, tseg: nat, brp: nat)
    requires 0 < bitrate && lim.brpInc == 1 && lim.brpMin <= 1
    requires IdealBrp(freq, bitrate, tseg) <= lim.brpMax
    ensures Covered(lim, freq, bitrate, tseg, brp)
  {
    MultiplyOut(freq, 1 + tseg, bitrate, IdealBrp(freq, bitrate, tseg));
  }

  /** The counter that stands for a covered prescaler, and is at least as close to the bit rate. */
  lemma CounterFor(lim: Limits, freq: U32, bitrate: U32, nominal: int, tseg: nat, brp: nat, tseg1: int)
    returns (t: nat)
    requires InRange(lim, bitrate, nominal) && Admissible(lim, freq, bitrate, nominal, tseg, brp, tseg1)
    ensures t / 2 == tseg && Competes(lim, freq, bitrate, nominal, t)
    ensures RateError(freq, bitrate, tseg, TriedBrp(lim, freq, bitrate, t)) <= RateError(freq, bitrate, tseg, brp)
    ensures t % 2 == if brp <= IdealBrp(freq, bitrate, tseg) then 0 else 1
  {
    hide PointOf, RateError, Rate, IdealBrp;
    var ideal := IdealBrp(freq, bitrate, tseg);
    IdealBrpFits(freq, bitrate, tseg);
    t := if brp <= ideal then 2 * tseg else 2 * tseg + 1;
    var near := TriedBrp(lim, freq, bitrate, t);
    assert t % 2 == (if brp <= ideal then 0 else 1);
    NearestStep(ideal, lim.brpInc, lim.brpMin, lim.brpMax, brp);
    NearestBrpIsBest(freq, bitrate, tseg, near, brp);
  }

  /** The multiple of `inc` the search tries on the same side of the ideal as `m`. */
  lemma NearestStep(ideal: nat, inc: nat, lo: nat, hi: nat, m: nat)
    requires 0 < inc && lo <= m <= hi && m % inc == 0 && ideal / inc * inc <= hi
    requires m <= ideal + 1 || ((ideal + 1) % inc == 0 && lo <= ideal + 1)
    ensures
      var near := (ideal + if m <= ideal then 0 else 1) / inc * inc;
      lo <= near <= hi && (m <= near <= ideal || ideal < near <= m)
  {
    if m <= ideal {
      StepIsClosest(ideal, inc, m);
    } else {
      assert (ideal + 1) % inc == 0;
      assert ideal + 1 == (ideal + 1) / inc * inc;
    }
  }

  lemma StepIsClosest(n: nat, inc: nat, m: nat)
    requires 0 < inc && m % inc == 0 && m <= n
    ensures m <= n / inc * inc <= n
  {
    StepMultiple(n, inc);
    assert m == m / inc * inc;
    DivMonotone(m, n, inc);
    MulLe(m / inc, n / inc, inc);
  }

  /** The cheap search finds the minimum over all admissible settings. */
  lemma SearchIsExhaustive(lim: Limits, freq: U32, bitrate: U32, nominal: U32, b: nat)
    requires InRange(lim, bitrate, nominal) && Leads(lim, freq, bitrate, nominal, b, 0)
    requires InReach(lim, nominal, b / 2)
    ensures Minimal(lim, freq, bitrate, nominal,
                    RateError(freq, bitrate, b / 2, TriedBrp(lim, freq, bitrate, b)), PointError(lim, nominal, b / 2))
  {
    hide PointOf, RateError, TriedBrp, Covered;
    forall tseg: nat, brp: nat, tseg1: int | Admissible(lim, freq, bitrate, nominal, tseg, brp, tseg1)
      ensures LexLe(RateError(freq, bitrate, b / 2, TriedBrp(lim, freq, bitrate, b)), PointError(lim, nominal, b / 2),
                    RateError(freq, bitrate, tseg, brp), nominal - PointOf(tseg, tseg1))
    {
      var t := CounterFor(lim, freq, bitrate, nominal, tseg, brp, tseg1);
      CounterReach(lim, bitrate, nominal, t);
      assert AsGood(lim, freq, bitrate, nominal, b, t);
      PointErrorIsLeast(lim, nominal, tseg, tseg1);
    }
  }

  /** Of all admissible settings with the same pair of errors, `(tseg, brp)` has the longest bit; of those
      with the same bit, it takes a prescaler above the ideal one if there is any, and the one nearest to
      the ideal. */
  ghost predicate Preferred(lim: Limits, freq: U32, bitrate: U32, nominal: int, tseg: nat, brp: nat,
                            rateError: int, pointError: int)
    requires InRange(lim, bitrate, nominal)
  {
    var ideal := IdealBrp(freq, bitrate, tseg);
    forall tseg': nat, brp': nat, tseg1': int ::
      Admissible(lim, freq, bitrate, nominal, tseg', brp', tseg1')
      && RateError(freq, bitrate, tseg', brp') == rateError && nominal - PointOf(tseg', tseg1') == pointError ==>
        || tseg' < tseg
        || (tseg' == tseg && (brp' <= brp <= ideal || (ideal < brp && (brp' <= ideal || brp <= brp'))))
  }

  /** What the search settles on is preferred among its equals. */
  lemma FirstIsPreferred(lim: Limits, freq: U32, bitrate: U32, nominal: U32, b: nat)
    requires InRange(lim, bitrate, nominal) && Leads(lim, freq, bitrate, nominal, b, 0)
    requires First(lim, freq, bitrate, nominal, b) && InReach(lim, nominal, b / 2)
    ensures
      var brp := TriedBrp(lim, freq, bitrate, b);
      Preferred(lim, freq, bitrate, nominal, b / 2, brp,
                RateError(freq, bitrate, b / 2, brp), PointError(lim, nominal, b / 2))
  {
    hide PointOf, RateError, TriedBrp, IdealBrp, Covered;
    var rateError := RateError(freq, bitrate, b / 2, TriedBrp(lim, freq, bitrate, b));
    var pointError := PointError(lim, nominal, b / 2);
    forall tseg: nat, brp: nat, tseg1: int | Admissible(lim, freq, bitrate, nominal, tseg, brp, tseg1)
      && RateError(freq, bitrate, tseg, brp) == rateError && nominal - PointOf(tseg, tseg1) == pointError
      ensures
        var ideal, chosen := IdealBrp(freq, bitrate, b / 2), TriedBrp(lim, freq, bitrate, b);
        || tseg < b / 2
        || (tseg == b / 2 && (brp <= chosen <= ideal || (ideal < chosen && (brp <= ideal || chosen <= brp))))
    {
      var t := CounterFor(lim, freq, bitrate, nominal, tseg, brp, tseg1);
      CounterReach(lim, bitrate, nominal, t);
      PointErrorIsLeast(lim, nominal, tseg, tseg1);
      assert t <= b by {
        assert AsGood(lim, freq, bitrate, nominal, t, b);
      }
      if tseg == b / 2 {
        NearestOnItsSide(lim, freq, bitrate, b, brp);
      }
    }
  }

  lemma NearestOnItsSide(lim: Limits, freq: U32, bitrate: U32, b: nat, brp: nat)
    requires 0 < bitrate && 1 <= lim.brpInc && brp % lim.brpInc == 0
    requires Covered(lim, freq, bitrate, b / 2, brp) && lim.brpMin <= brp <= lim.brpMax
    requires brp > IdealBrp(freq, bitrate, b / 2) ==> b % 2 == 1
    ensures
      var ideal, chosen := IdealBrp(freq, bitrate, b / 2), TriedBrp(lim, freq, bitrate, b);
      brp <= chosen <= ideal || (ideal < chosen && (brp <= ideal || chosen <= brp))
  {
    hide IdealBrp;
    var ideal, inc := IdealBrp(freq, bitrate, b / 2), lim.brpInc;
    IdealIsNatural(freq, bitrate, b / 2);
    var chosen := (ideal + b % 2) / inc * inc;
    StepMultiple(ideal + b % 2, inc);
    if brp <= ideal {
      StepIsClosest(ideal + b % 2, inc, brp);
    } else {
      NearestStep(ideal, inc, lim.brpMin, lim.brpMax, brp);
    }
  }

  lemma IdealIsNatural(freq: U32, bitrate: U32, tseg: nat)
    requires 0 < bitrate
    ensures 0 <= IdealBrp(freq, bitrate, tseg)
  {
    MultiplyOut(freq, 1 + tseg, bitrate, IdealBrp(freq, bitrate, tseg));
  }

  lemma PointErrorIsLeast(lim: Limits, nominal: U32, tseg: U32, tseg1: int)
    requires InReach(lim, nominal, tseg) && LegalSplit(lim, tseg, tseg1) && PointOf(tseg, tseg1) <= nominal
    ensures PointError(lim, nominal, tseg) <= nominal - PointOf(tseg, tseg1)
  {
    hide PointOf;
    BestPointExists(lim, nominal, tseg);
  }

  /** Where no counter competes there is nothing admissible. */
  lemma NothingAdmissible(lim: Limits, freq: U32, bitrate: U32, nominal: int)
    requires InRange(lim, bitrate, nominal) && NoneFrom(lim, freq, bitrate, nominal, 0)
    ensures forall tseg: nat, brp: nat, tseg1: int :: !Admissible(lim, freq, bitrate, nominal, tseg, brp, tseg1)
  {
    hide Competes;
    forall tseg: nat, brp: nat, tseg1: int | Admissible(lim, freq, bitrate, nominal, tseg, brp, tseg1)
      ensures false
    {
      var t := CounterFor(lim, freq, bitrate, nominal, tseg, brp, tseg1);
    }
  }

  /** What the search settles on is itself admissible. */
  lemma LeaderIsAdmissible(lim: Limits, freq: U32, bitrate: U32, nominal: int, b: nat, tseg1: int)
    requires InRange(lim, bitrate, nominal) && Competes(lim, freq, bitrate, nominal, b)
    requires LegalSplit(lim, b / 2, tseg1) && PointOf(b / 2, tseg1) <= nominal
    ensures Admissible(lim, freq, bitrate, nominal, b / 2, TriedBrp(lim, freq, bitrate, b), tseg1)
  {
    hide PointOf;
    var ideal := IdealBrp(freq, bitrate, b / 2);
    MultiplyOut(freq, 1 + b / 2, bitrate, ideal);
    StepMultiple(ideal + b % 2, lim.brpInc);
    DivMonotone(ideal, ideal + b % 2, lim.brpInc);
    MulLe(ideal / lim.brpInc, (ideal + b % 2) / lim.brpInc, lim.brpInc);
  }

  lemma IdealAntitone(freq: U32, bitrate: U32, short: nat, long: nat)
    requires 0 < bitrate && short <= long
    ensures IdealBrp(freq, bitrate, long) <= IdealBrp(freq, bitrate, short)
  {
    MulLe(1, bitrate, 1 + short);
    MulLe(1 + short, 1 + long, bitrate);
    DivisorAntitone(freq, (1 + short) * bitrate, (1 + long) * bitrate);
  }
}

/** The search against everything the controller can be set to.

    At a bit length whose ideal prescaler lies beyond the largest one the search tries nothing, and with
    a prescaler step above one it may try nothing above the ideal one.  With step one it nevertheless
    finds the least bit rate error of all legal settings, if and only if the longest acceptable bit is
    long enough for the clock. */
module LegalSettings {
  import opened Words
  import opened SamplePoint
  import opened BrpSearch

  /** Within the accepted 5 percent (the source compares whole tenths of a percent). */
  predicate CloseEnough(bitrate: int, error: int) {
    1000 * error < 51 * bitrate
  }

  /** No admissible setting is within 5 percent of the requested bit rate. */
  ghost predicate Unreachable(lim: Limits, freq: U32, bitrate: U32, nominal: int)
    requires InRange(lim, bitrate, nominal)
  {
    forall tseg: nat, brp: nat, tseg1: int :: Admissible(lim, freq, bitrate, nominal, tseg, brp, tseg1) ==>
      !CloseEnough(bitrate, RateError(freq, bitrate, tseg, brp))
  }

  // ----- one setting -----

  /** The search tries a prescaler between `brp` and the ideal one, at the same bit length. */
  ghost predicate TriesNearer(lim: Limits, freq: U32, bitrate: U32, tseg: nat, brp: nat, t: nat)
    requires 0 < bitrate && 1 <= lim.brpInc
  {
    var near, ideal := TriedBrp(lim, freq, bitrate, t), IdealBrp(freq, bitrate, tseg);
    t / 2 == tseg && lim.brpMin <= near <= lim.brpMax && (brp <= near <= ideal || ideal < near <= brp)
  }

  /** Exactly the covered prescalers are answered for on their own side of the ideal one. */
  lemma CoveredExactly(lim: Limits, freq: U32, bitrate: U32, nominal: int, tseg: nat, brp: nat, tseg1: int)
    requires InRange(lim, bitrate, nominal) && Legal(lim, nominal, tseg, brp, tseg1)
    ensures Covered(lim, freq, bitrate, tseg, brp) <==>
            exists t: nat :: TriesNearer(lim, freq, bitrate, tseg, brp, t)
  {
    hide PointOf, IdealBrp;
    var ideal := IdealBrp(freq, bitrate, tseg);
    IdealBrpFits(freq, bitrate, tseg);
    if Covered(lim, freq, bitrate, tseg, brp) {
      NearestStep(ideal, lim.brpInc, lim.brpMin, lim.brpMax, brp);
      var t := if brp <= ideal then 2 * tseg else 2 * tseg + 1;
      assert t % 2 == (if brp <= ideal then 0 else 1) && t / 2 == tseg;
      assert TriesNearer(lim, freq, bitrate, tseg, brp, t);
    } else {
      forall t: nat | t / 2 == tseg
        ensures !TriesNearer(lim, freq, bitrate, tseg, brp, t)
      {
        UncoveredStep(ideal, lim.brpInc, lim.brpMin, lim.brpMax, brp, t % 2);
      }
    }
  }

  lemma UncoveredStep(ideal: nat, inc: nat, lo: nat, hi: nat, m: nat, i: nat)
    requires 0 < inc && m <= hi && i <= 1
    requires ideal / inc * inc > hi || (m > ideal + 1 && ((ideal + 1) % inc != 0 || lo > ideal + 1))
    ensures
      var near := (ideal + i) / inc * inc;
      !(lo <= near <= hi) || near <= ideal < m
  {
    StepMultiple(ideal + i, inc);
    StepMultiple(ideal, inc);
    DivMonotone(ideal, ideal + i, inc);
    MulLe(ideal / inc, (ideal + i) / inc, inc);
  }

  // ----- step one: the bit rate error -----

  /** Prescalers 1, 2, 3 and so on up to the largest. */
  predicate UnitStep(lim: Limits) { lim.brpInc == 1 && lim.brpMin == 1 <= lim.brpMax }

  lemma CancelFactor(a: int, b: int, f: int)
    requires 0 < f && a * f < b * f
    ensures a < b
  {
    if b <= a {
      MulLe(b, a, f);
    }
  }

  /** If a bit wants a prescaler beyond the largest and the next longer one does not, then that one has
      its ideal prescaler at least as close as the shorter bit has the largest. */
  lemma NextLengthIsCloser(freq: U32, bitrate: U32, tseg: nat, brpMax: nat)
    requires 0 < bitrate && 0 < brpMax
    requires IdealBrp(freq, bitrate, tseg + 1) <= brpMax < IdealBrp(freq, bitrate, tseg)
    ensures 0 < IdealBrp(freq, bitrate, tseg + 1)
    ensures RateError(freq, bitrate, tseg + 1, IdealBrp(freq, bitrate, tseg + 1))
         <= RateError(freq, bitrate, tseg, brpMax)
  {
    var T, ideal, next := 1 + tseg, IdealBrp(freq, bitrate, tseg), IdealBrp(freq, bitrate, tseg + 1);
    MultiplyOut(freq, T, bitrate, ideal);
    MultiplyOut(freq, T + 1, bitrate, next);
    MulLe(brpMax + 1, ideal, T * bitrate);
    QuantaGrow(brpMax, next, T, bitrate);
    NextRate(freq, brpMax, next, T);
    RateSide(freq, bitrate, tseg, brpMax);
    RateSide(freq, bitrate, tseg + 1, next);
  }

  /** The bit of one quantum more takes at least as many clock cycles. */
  lemma QuantaGrow(brpMax: nat, next: nat, T: nat, bitrate: nat)
    requires 0 < bitrate && (brpMax + 1) * (T * bitrate) < (next + 1) * ((T + 1) * bitrate)
    ensures brpMax * T <= next * (T + 1)
  {
    assert (brpMax + 1) * (T * bitrate) == (brpMax + 1) * T * bitrate;
    assert (next + 1) * ((T + 1) * bitrate) == (next + 1) * (T + 1) * bitrate;
    CancelFactor((brpMax + 1) * T, (next + 1) * (T + 1), bitrate);
  }

  lemma NextRate(freq: nat, brpMax: nat, next: nat, T: nat)
    requires 0 < brpMax && 0 < T && brpMax * T <= next * (T + 1)
    ensures 0 < next && 0 < brpMax * T && 0 < next * (T + 1) && freq / (next * (T + 1)) <= freq / (brpMax * T)
  {
    MulLe(1, brpMax, T);
    DivisorAntitone(freq, brpMax * T, next * (T + 1));
  }

  /** The same prescaler gives a longer bit a lower rate. */
  lemma LongerIsSlower(freq: U32, bitrate: U32, tseg: nat, brp: nat)
    requires 0 < bitrate && 0 < brp <= IdealBrp(freq, bitrate, tseg + 1)
    requires brp <= IdealBrp(freq, bitrate, tseg)
    ensures RateError(freq, bitrate, tseg + 1, brp) <= RateError(freq, bitrate, tseg, brp)
  {
    hide Rate, IdealBrp;
    RateSide(freq, bitrate, tseg, brp);
    RateSide(freq, bitrate, tseg + 1, brp);
    LongerRate(freq, tseg, brp);
  }

  lemma LongerRate(freq: U32, tseg: nat, brp: nat)
    requires 0 < brp
    ensures Rate(freq, tseg + 1, brp) <= Rate(freq, tseg, brp)
  {
    MulLe(1, 1 + tseg, brp);
    MulLe(1 + tseg, 2 + tseg, brp);
    DivisorAntitone(freq, brp * (1 + tseg), brp * (2 + tseg));
  }

  /** A skipped bit length is never closer than some longer one that is not skipped. */
  lemma {:induction false} LongerIsCloser(freq: U32, bitrate: U32, tseg: nat, brp: nat, long: nat, brpMax: nat)
    returns (mid: nat)
    requires 0 < bitrate && 0 < brp <= brpMax < IdealBrp(freq, bitrate, tseg)
    requires tseg <= long && IdealBrp(freq, bitrate, long) <= brpMax
    ensures tseg < mid <= long && 0 < IdealBrp(freq, bitrate, mid) <= brpMax
    ensures RateError(freq, bitrate, mid, IdealBrp(freq, bitrate, mid)) <= RateError(freq, bitrate, tseg, brp)
    decreases long - tseg
  {
    hide RateError, IdealBrp;
    if IdealBrp(freq, bitrate, tseg + 1) <= brpMax {
      mid := tseg + 1;
      NextLengthIsCloser(freq, bitrate, tseg, brpMax);
      NearestBrpIsBest(freq, bitrate, tseg, brpMax, brp);
    } else {
      LongerIsSlower(freq, bitrate, tseg, brp);
      mid := LongerIsCloser(freq, bitrate, tseg + 1, brp, long, brpMax);
    }
  }

  /** With step one, some counter is at least as close as any legal setting, as soon as one bit length
      that is at least as long is not skipped. */
  lemma CounterForAny(lim: Limits, freq: U32, bitrate: U32, nominal: U32,
                      tseg: nat, brp: nat, tseg1: int, long: nat)
    returns (t: nat)
    requires InRange(lim, bitrate, nominal) && UnitStep(lim) && Legal(lim, nominal, tseg, brp, tseg1)
    requires LengthInRange(lim, long) && Feasible(lim, nominal, long) && IdealBrp(freq, bitrate, long) <= lim.brpMax
    ensures Competes(lim, freq, bitrate, nominal, t)
    ensures RateError(freq, bitrate, t / 2, TriedBrp(lim, freq, bitrate, t)) <= RateError(freq, bitrate, tseg, brp)
  {
    hide PointOf, RateError, IdealBrp;
    if IdealBrp(freq, bitrate, tseg) <= lim.brpMax {
      UnitStepCoversAll(lim, freq, bitrate, tseg, brp);
      t := CounterFor(lim, freq, bitrate, nominal, tseg, brp, tseg1);
    } else {
      if long <= tseg {
        IdealAntitone(freq, bitrate, long, tseg);
      }
      var mid := LongerIsCloser(freq, bitrate, tseg, brp, long, lim.brpMax);
      FeasibleIsConvex(lim, nominal, tseg, mid, long);
      t := 2 * mid;
      assert t / 2 == mid && t % 2 == 0;
    }
  }

  /** No legal setting is closer to the bit rate. */
  ghost predicate LeastError(lim: Limits, freq: U32, bitrate: U32, nominal: int, error: int)
    requires InRange(lim, bitrate, nominal)
  {
    forall tseg: nat, brp: nat, tseg1: int :: Legal(lim, nominal, tseg, brp, tseg1) ==>
      error <= RateError(freq, bitrate, tseg, brp)
  }

  /** With step one, whatever the search settles on is closest of all legal settings. */
  lemma LeaderIsClosest(lim: Limits, freq: U32, bitrate: U32, nominal: U32, b: nat)
    requires InRange(lim, bitrate, nominal) && UnitStep(lim) && Leads(lim, freq, bitrate, nominal, b, 0)
    ensures LeastError(lim, freq, bitrate, nominal, RateError(freq, bitrate, b / 2, TriedBrp(lim, freq, bitrate, b)))
  {
    hide PointOf, RateError, IdealBrp, Feasible;
    forall tseg: nat, brp: nat, tseg1: int | Legal(lim, nominal, tseg, brp, tseg1)
      ensures RateError(freq, bitrate, b / 2, TriedBrp(lim, freq, bitrate, b)) <= RateError(freq, bitrate, tseg, brp)
    {
      var t := CounterForAny(lim, freq, bitrate, nominal, tseg, brp, tseg1, b / 2);
      assert AsGood(lim, freq, bitrate, nominal, b, t);
    }
  }

  /** The longest bit length with an acceptable sample point. */
  ghost predicate LongestFeasible(lim: Limits, nominal: int, tseg: nat) {
    && LengthInRange(lim, tseg) && Feasible(lim, nominal, tseg)
    && forall other: nat :: LengthInRange(lim, other) && Feasible(lim, nominal, other) ==> other <= tseg
  }

  /** The clock is too fast even for the longest acceptable bit and the largest prescaler. */
  ghost predicate TooSlow(lim: Limits, freq: U32, bitrate: U32, nominal: int)
    requires 0 < bitrate
  {
    exists tseg: nat :: LongestFeasible(lim, nominal, tseg) && lim.brpMax < IdealBrp(freq, bitrate, tseg)
  }

  lemma {:induction false} LongestExists(lim: Limits, nominal: int, tseg: nat, bound: nat) returns (longest: nat)
    requires LengthInRange(lim, tseg) && Feasible(lim, nominal, tseg)
    requires tseg <= bound <= lim.tseg1Max + lim.tseg2Max
    requires forall other: nat :: bound < other && LengthInRange(lim, other) ==> !Feasible(lim, nominal, other)
    ensures LongestFeasible(lim, nominal, longest)
    decreases bound - tseg
  {
    hide Feasible;
    if Feasible(lim, nominal, bound) {
      longest := bound;
    } else {
      longest := LongestExists(lim, nominal, tseg, bound - 1);
    }
  }

  /** With step one, the search finds nothing if and only if no bit length is acceptable or the longest
      acceptable one is too short for the clock. */
  lemma FindsNothingExactly(lim: Limits, freq: U32, bitrate: U32, nominal: U32)
    requires InRange(lim, bitrate, nominal) && UnitStep(lim)
    ensures NoneFrom(lim, freq, bitrate, nominal, 0) <==>
      || (forall tseg: nat :: LengthInRange(lim, tseg) ==> !Feasible(lim, nominal, tseg))
      || TooSlow(lim, freq, bitrate, nominal)
  {
    hide Feasible, IdealBrp;
    if tseg: nat :| LengthInRange(lim, tseg) && Feasible(lim, nominal, tseg) {
      var longest := LongestExists(lim, nominal, tseg, lim.tseg1Max + lim.tseg2Max);
      var ideal := IdealBrp(freq, bitrate, longest);
      IdealBrpFits(freq, bitrate, longest);
      if ideal <= lim.brpMax {
        var t := if ideal == 0 then 2 * longest + 1 else 2 * longest;
        assert t / 2 == longest && Competes(lim, freq, bitrate, nominal, t);
        LongestIsUnique(lim, freq, bitrate, nominal, longest);
      } else {
        assert TooSlow(lim, freq, bitrate, nominal);
        forall t: nat
          ensures !Competes(lim, freq, bitrate, nominal, t)
        {
          if CounterInRange(lim, t) && Feasible(lim, nominal, t / 2) {
            IdealAntitone(freq, bitrate, t / 2, longest);
          }
        }
      }
    } else {
      assert forall t: nat :: CounterInRange(lim, t) ==> LengthInRange(lim, t / 2);
    }
  }

  lemma LongestIsUnique(lim: Limits, freq: U32, bitrate: U32, nominal: int, longest: nat)
    requires 0 < bitrate && LongestFeasible(lim, nominal, longest)
    ensures TooSlow(lim, freq, bitrate, nominal) <==> lim.brpMax < IdealBrp(freq, bitrate, longest)
  {
    hide Feasible, IdealBrp;
    forall tseg: nat | LongestFeasible(lim, nominal, tseg)
      ensures tseg == longest
    {
    }
  }

  /** The search finds the least bit rate error over all legal settings, or nothing when there is none. */
  ghost predicate FindsClosest(lim: Limits, freq: U32, bitrate: U32, nominal: int)
    requires InRange(lim, bitrate, nominal)
  {
    && (NoneFrom(lim, freq, bitrate, nominal, 0) ==>
          forall tseg: nat, brp: nat, tseg1: int :: !Legal(lim, nominal, tseg, brp, tseg1))
    && forall b: nat :: Leads(lim, freq, bitrate, nominal, b, 0) ==>
         LeastError(lim, freq, bitrate, nominal, RateError(freq, bitrate, b / 2, TriedBrp(lim, freq, bitrate, b)))
  }

  /** With step one it does so exactly when the longest acceptable bit, if there is one, is long enough
      for the clock. */
  lemma FindsClosestExactly(lim: Limits, freq: U32, bitrate: U32, nominal: U32)
    requires InRange(lim, bitrate, nominal) && UnitStep(lim)
    ensures FindsClosest(lim, freq, bitrate, nominal) <==> !TooSlow(lim, freq, bitrate, nominal)
  {
    hide PointOf, RateError, IdealBrp, TriedBrp, AsGood, NoneFrom, LeastError;
    FindsNothingExactly(lim, freq, bitrate, nominal);
    forall b: nat | Leads(lim, freq, bitrate, nominal, b, 0)
      ensures LeastError(lim, freq, bitrate, nominal, RateError(freq, bitrate, b / 2, TriedBrp(lim, freq, bitrate, b)))
    {
      LeaderIsClosest(lim, freq, bitrate, nominal, b);
    }
    if tseg: nat :| LongestFeasible(lim, nominal, tseg) && lim.brpMax < IdealBrp(freq, bitrate, tseg) {
      var tseg1 :| LegalSplit(lim, tseg, tseg1) && PointOf(tseg, tseg1) <= nominal;
      assert Legal(lim, nominal, tseg, 1, tseg1);
    } else {
      forall tseg: nat, brp: nat, tseg1: int | Legal(lim, nominal, tseg, brp, tseg1)
        ensures Feasible(lim, nominal, tseg)
      {
      }
    }
  }

  /** No legal setting at all is within 5 percent of the requested bit rate. */
  ghost predicate NoLegalClose(lim: Limits, freq: U32, bitrate: U32, nominal: int)
    requires InRange(lim, bitrate, nominal)
  {
    forall tseg: nat, brp: nat, tseg1: int :: Legal(lim, nominal, tseg, brp, tseg1) ==>
      !CloseEnough(bitrate, RateError(freq, bitrate, tseg, brp))
  }

  /** With step one, a request is refused if and only if no legal setting is within 5 percent, or the
      clock is too fast. */
  lemma RefusedExactly(lim: Limits, freq: U32, bitrate: U32, nominal: U32)
    requires InRange(lim, bitrate, nominal) && UnitStep(lim)
    ensures Unreachable(lim, freq, bitrate, nominal) <==>
      NoLegalClose(lim, freq, bitrate, nominal) || TooSlow(lim, freq, bitrate, nominal)
  {
    hide PointOf, RateError, IdealBrp, TriedBrp, NoneFrom, Feasible;
    if TooSlow(lim, freq, bitrate, nominal) {
      FindsNothingExactly(lim, freq, bitrate, nominal);
      NothingAdmissible(lim, freq, bitrate, nominal);
    } else {
      forall tseg: nat, brp: nat, tseg1: int | Legal(lim, nominal, tseg, brp, tseg1)
        ensures CloseEnough(bitrate, RateError(freq, bitrate, tseg, brp)) ==>
                !Unreachable(lim, freq, bitrate, nominal)
      {
        LegalIsFeasible(lim, nominal, tseg, brp, tseg1);
        var longest := LongestExists(lim, nominal, tseg, lim.tseg1Max + lim.tseg2Max);
        var t := CounterForAny(lim, freq, bitrate, nominal, tseg, brp, tseg1, longest);
        var split := AcceptableSplit(lim, nominal, t / 2);
        LeaderIsAdmissible(lim, freq, bitrate, nominal, t, split);
      }
    }
  }

  lemma LegalIsFeasible(lim: Limits, nominal: int, tseg: nat, brp: nat, tseg1: int)
    requires 1 <= lim.brpInc && Legal(lim, nominal, tseg, brp, tseg1)
    ensures LengthInRange(lim, tseg) && Feasible(lim, nominal, tseg)
  {
    hide PointOf;
  }

  lemma AcceptableSplit(lim: Limits, nominal: int, tseg: nat) returns (tseg1: int)
    requires Feasible(lim, nominal, tseg)
    ensures LegalSplit(lim, tseg, tseg1) && PointOf(tseg, tseg1) <= nominal
  {
    hide PointOf;
    tseg1 :| LegalSplit(lim, tseg, tseg1) && PointOf(tseg, tseg1) <= nominal;
  }

  // ----- step one: the sample point -----

  /** No legal setting has a smaller (bit rate error, sample point error) pair. */
  ghost predicate LeastPair(lim: Limits, freq: U32, bitrate: U32, nominal: int, rateError: int, pointError: int)
    requires InRange(lim, bitrate, nominal)
  {
    forall tseg: nat, brp: nat, tseg1: int :: Legal(lim, nominal, tseg, brp, tseg1) ==>
      LexLe(rateError, pointError, RateError(freq, bitrate, tseg, brp), nominal - PointOf(tseg, tseg1))
  }

  /** A bit length the search skips ties on the bit rate, with the largest prescaler. */
  ghost predicate SkippedTie(lim: Limits, freq: U32, bitrate: U32, nominal: int, tseg: nat, error: int)
    requires 0 < bitrate && 0 < lim.brpMax
  {
    && LengthInRange(lim, tseg) && Feasible(lim, nominal, tseg) && lim.brpMax < IdealBrp(freq, bitrate, tseg)
    && RateError(freq, bitrate, tseg, lim.brpMax) == error
  }

  /** The search tries something at least as good as a skipped length with the largest prescaler. */
  ghost predicate MatchesSkipped(lim: Limits, freq: U32, bitrate: U32, nominal: U32, u: nat, tseg: U32)
    requires InRange(lim, bitrate, nominal) && 0 < lim.brpMax
    requires InReach(lim, nominal, tseg) && Feasible(lim, nominal, tseg)
  {
    && Competes(lim, freq, bitrate, nominal, u)
    && (CounterReach(lim, bitrate, nominal, u);
        LexLe(RateError(freq, bitrate, u / 2, TriedBrp(lim, freq, bitrate, u)), PointError(lim, nominal, u / 2),
              RateError(freq, bitrate, tseg, lim.brpMax), PointError(lim, nominal, tseg)))
  }

  /** With step one, the setting found is also best by sample point if and only if for every skipped length
      something at least as good is tried; only the largest prescaler has to be looked at there. */
  lemma LeastPairExactly(lim: Limits, freq: U32, bitrate: U32, nominal: U32, b: nat)
    requires InRange(lim, bitrate, nominal) && UnitStep(lim) && Leads(lim, freq, bitrate, nominal, b, 0)
    requires InReach(lim, nominal, b / 2)
    ensures
      LeastPair(lim, freq, bitrate, nominal,
                RateError(freq, bitrate, b / 2, TriedBrp(lim, freq, bitrate, b)), PointError(lim, nominal, b / 2)) <==>
      forall tseg: U32 ::
        InReach(lim, nominal, tseg) && LengthInRange(lim, tseg) && Feasible(lim, nominal, tseg)
        && lim.brpMax < IdealBrp(freq, bitrate, tseg) ==>
          exists u: nat :: MatchesSkipped(lim, freq, bitrate, nominal, u, tseg)
  {
    hide PointOf, RateError, IdealBrp, TriedBrp, LeastError, Feasible, BestPoint, PointError;
    var error := RateError(freq, bitrate, b / 2, TriedBrp(lim, freq, bitrate, b));
    var point := PointError(lim, nominal, b / 2);
    if LeastPair(lim, freq, bitrate, nominal, error, point) {
      forall tseg: U32 | InReach(lim, nominal, tseg) && LengthInRange(lim, tseg) && Feasible(lim, nominal, tseg)
        ensures MatchesSkipped(lim, freq, bitrate, nominal, b, tseg)
      {
        var tseg1 := BestSplit(lim, nominal, tseg);
        assert Legal(lim, nominal, tseg, lim.brpMax, tseg1);
      }
    } else {
      var tseg: nat, brp: nat, tseg1: int :| Legal(lim, nominal, tseg, brp, tseg1)
        && !LexLe(error, point, RateError(freq, bitrate, tseg, brp), nominal - PointOf(tseg, tseg1));
      UnbeatenIsSkipped(lim, freq, bitrate, nominal, b, tseg, brp, tseg1);
      PointErrorIsLeast(lim, nominal, tseg, tseg1);
      forall u: nat | Competes(lim, freq, bitrate, nominal, u)
        ensures !MatchesSkipped(lim, freq, bitrate, nominal, u, tseg)
      {
        assert AsGood(lim, freq, bitrate, nominal, b, u);
      }
    }
  }

  lemma BestSplit(lim: Limits, nominal: U32, tseg: U32) returns (tseg1: int)
    requires InReach(lim, nominal, tseg) && Feasible(lim, nominal, tseg)
    ensures LegalSplit(lim, tseg, tseg1) && PointOf(tseg, tseg1) <= nominal
    ensures nominal - PointOf(tseg, tseg1) == PointError(lim, nominal, tseg)
  {
    hide PointOf;
    BestPointExists(lim, nominal, tseg);
    var best :| BestPoint(lim, nominal, tseg, best);
    BestPointIsUnique(lim, nominal, tseg, best);
    tseg1 :| LegalSplit(lim, tseg, tseg1) && PointOf(tseg, tseg1) == best;
  }

  /** A legal setting that beats the one found is one of a skipped length, and ties on the bit rate. */
  lemma UnbeatenIsSkipped(lim: Limits, freq: U32, bitrate: U32, nominal: U32, b: nat, tseg: nat, brp: nat, tseg1: int)
    requires InRange(lim, bitrate, nominal) && UnitStep(lim) && Leads(lim, freq, bitrate, nominal, b, 0)
    requires InReach(lim, nominal, b / 2) && Legal(lim, nominal, tseg, brp, tseg1)
    requires !LexLe(RateError(freq, bitrate, b / 2, TriedBrp(lim, freq, bitrate, b)), PointError(lim, nominal, b / 2),
                    RateError(freq, bitrate, tseg, brp), nominal - PointOf(tseg, tseg1))
    ensures tseg < 0x1_0000_0000 && InReach(lim, nominal, tseg)
    ensures SkippedTie(lim, freq, bitrate, nominal, tseg,
                       RateError(freq, bitrate, b / 2, TriedBrp(lim, freq, bitrate, b)))
    ensures RateError(freq, bitrate, b / 2, TriedBrp(lim, freq, bitrate, b)) == RateError(freq, bitrate, tseg, brp)
  {
    hide PointOf, RateError, IdealBrp, TriedBrp, AsGood;
    LegalIsFeasible(lim, nominal, tseg, brp, tseg1);
    LeaderIsClosest(lim, freq, bitrate, nominal, b);
    SearchIsExhaustive(lim, freq, bitrate, nominal, b);
    if IdealBrp(freq, bitrate, tseg) <= lim.brpMax {
      UnitStepCoversAll(lim, freq, bitrate, tseg, brp);
    }
    assert Legal(lim, nominal, tseg, lim.brpMax, tseg1);
    assert IdealBrp(freq, bitrate, tseg) > lim.brpMax;
    NearestBrpIsBest(freq, bitrate, tseg, lim.brpMax, brp);
  }

  // ----- inputs on which the search misses a legal setting -----

  /** Too fast a clock: with the SJA1000's limits and an 8 MHz clock, 4900 bit/s is refused although
      prescaler 64 and 25 quanta give 5000 bit/s. */
  lemma RefusalMissesLegalSetting()
    ensures
      var lim := Limits(1, 16, 1, 8, 4, 1, 64, 1);
      && InRange(lim, 4900, 875) && UnitStep(lim) && TooSlow(lim, 8_000_000, 4900, 875)
      && Legal(lim, 875, 24, 64, 16) && CloseEnough(4900, RateError(8_000_000, 4900, 24, 64))
      && Unreachable(lim, 8_000_000, 4900, 875)
  {
    var lim := Limits(1, 16, 1, 8, 4, 1, 64, 1);
    assert IdealBrp(8_000_000, 4900, 24) == 65;
    assert LegalSplit(lim, 24, 16) && PointOf(24, 16) == 680;
    assert LongestFeasible(lim, 875, 24);
    RefusedExactly(lim, 8_000_000, 4900, 875);
  }

  /** A step above one: nothing above the ideal prescaler is tried, and the request is refused although
      prescaler 44 at 9 quanta is 3 percent off. */
  lemma StepMissesLegalSetting()
    ensures
      var lim := Limits(1, 5, 1, 4, 4, 4, 44, 4);
      && InRange(lim, 29989, 875)
      && Legal(lim, 875, 8, 44, 5) && CloseEnough(29989, RateError(11_522_980, 29989, 8, 44))
      && Unreachable(lim, 11_522_980, 29989, 875)
  {
    var lim := Limits(1, 5, 1, 4, 4, 4, 44, 4);
    assert LegalSplit(lim, 8, 5) && PointOf(8, 5) == 666 && Rate(11_522_980, 8, 44) == 29098;
    assert IdealBrp(11_522_980, 29989, 7) == 48;
    assert IdealBrp(11_522_980, 29989, 8) == 42 && Rate(11_522_980, 8, 40) == 32008;
    assert IdealBrp(11_522_980, 29989, 9) == 38 && Rate(11_522_980, 9, 36) == 32008;
    forall tseg: nat, brp: nat, tseg1: int | Admissible(lim, 11_522_980, 29989, 875, tseg, brp, tseg1)
      ensures !CloseEnough(29989, RateError(11_522_980, 29989, tseg, brp))
    {
      if tseg <= 7 {
        IdealAntitone(11_522_980, 29989, tseg, 7);
      } else {
        NearestBrpIsBest(11_522_980, 29989, tseg, if tseg == 8 then 40 else 36, brp);
      }
    }
  }

  /** A tie: a bit of 10 quanta hits both targets exactly, but is skipped, and nothing tried does. */
  lemma TieMissesSamplePoint()
    ensures
      var lim := Limits(2, 7, 1, 3, 4, 1, 3, 1);
      && InRange(lim, 2, 800) && UnitStep(lim) && !TooSlow(lim, 82, 2, 800)
      && Legal(lim, 800, 9, 3, 7) && RateError(82, 2, 9, 3) == 0 && PointOf(9, 7) == 800
      && forall tseg: nat, brp: nat, tseg1: int :: Admissible(lim, 82, 2, 800, tseg, brp, tseg1) ==>
           !LexLe(RateError(82, 2, tseg, brp), 800 - PointOf(tseg, tseg1), 0, 0)
  {
    var lim := Limits(2, 7, 1, 3, 4, 1, 3, 1);
    assert LegalSplit(lim, 9, 7) && PointOf(9, 7) == 800 && Rate(82, 9, 3) == 2;
    assert LegalSplit(lim, 10, 7) && PointOf(10, 7) == 727;
    assert LongestFeasible(lim, 800, 10);
    assert IdealBrp(82, 2, 10) == 3 && IdealBrp(82, 2, 9) == 4;
    LongestIsUnique(lim, 82, 2, 800, 10);
    forall tseg: nat, brp: nat, tseg1: int | Admissible(lim, 82, 2, 800, tseg, brp, tseg1)
      ensures RateError(82, 2, tseg, brp) > 0 || PointOf(tseg, tseg1) < 800
    {
      if tseg <= 9 {
        IdealAntitone(82, 2, tseg, 9);
      } else {
        assert tseg == 10 && tseg1 == 7;
      }
    }
  }
}

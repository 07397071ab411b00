/**
 * The deadline-information calculator that deadlines.go reaches through
 * dline.NewInfo and Info.NextNotElapsed (package go-state-types/dline).
 * That package is not part of this model: its arithmetic is written out
 * here as documented assumptions, for an in-range deadline index only.
 *
 *   Open        = PeriodStart + Index * ChallengeWindow
 *   Close       = Open + ChallengeWindow
 *   Challenge   = Open - ChallengeLookback
 *   FaultCutoff = Open - FaultDeclarationCutoff
 *   IsOpen      = Open <= CurrentEpoch < Close
 *   HasElapsed  = CurrentEpoch >= Close
 *   Last        = Close - 1
 *
 * Epochs are unbounded integers: 64-bit overflow is not modelled.
 */
module Dline {

  import Arith

  /** The proving-schedule constants that deadlines.go passes to dline.NewInfo. */
  datatype Params = Params(
    periodDeadlines: nat,         // WPoStPeriodDeadlines
    provingPeriod: int,           // WPoStProvingPeriod
    challengeWindow: int,         // WPoStChallengeWindow
    challengeLookback: int,       // WPoStChallengeLookback
    faultDeclarationCutoff: int)  // FaultDeclarationCutoff
  {
    /** What the model assumes of the network policy: positive constants, and a
        proving period made of exactly one challenge window per deadline. */
    predicate Valid() {
      periodDeadlines > 0 && challengeWindow > 0 && challengeLookback > 0 &&
      faultDeclarationCutoff > 0 &&
      provingPeriod == periodDeadlines * challengeWindow
    }
  }

  /** One occurrence of a deadline, seen from CurrentEpoch. */
  datatype Info = Info(
    currentEpoch: int,
    periodStart: int,
    index: nat,
    open: int,
    close: int,
    challenge: int,
    faultCutoff: int,
    params: Params)
  {
    /** The shape NewInfo gives an occurrence of an in-range deadline index. */
    predicate Valid() {
      params.Valid() && index < params.periodDeadlines &&
      open == periodStart + index * params.challengeWindow &&
      close == open + params.challengeWindow &&
      challenge == open - params.challengeLookback &&
      faultCutoff == open - params.faultDeclarationCutoff
    }

    /** The challenge window is open at the current epoch. */
    predicate IsOpen() {
      open <= currentEpoch < close
    }

    /** The challenge window has closed by the current epoch. */
    predicate HasElapsed() {
      currentEpoch >= close
    }

    /** The last epoch of the challenge window. */
    function Last(): int {
      close - 1
    }

    /**
     * The same deadline index in the earliest proving period, at or after this
     * one, whose challenge window has not closed by the current epoch. The
     * number of periods to skip is computed directly, not by a loop; the gap
     * is non-negative here, so Go's truncating division is Dafny's division.
     */
    function NextNotElapsed(): (r: Info)
      requires Valid()
      ensures r.Valid()
      ensures r.index == index && r.currentEpoch == currentEpoch && r.params == params
      ensures !r.HasElapsed()
      ensures r.periodStart >= periodStart && (r.periodStart - periodStart) % params.provingPeriod == 0
      ensures r.periodStart == periodStart || r.close - params.provingPeriod <= currentEpoch
      ensures !HasElapsed() ==> r == this
    {
      PeriodHoldsWindow(params);
      if !HasElapsed() then
        this
      else
        var gap := currentEpoch - close;
        var delta := (gap / params.provingPeriod + 1) * params.provingPeriod;
        AdvanceIsWholePeriods(gap, params.provingPeriod);
        var r := NewInfo(periodStart + delta, index, currentEpoch, params);
        assert r.close == close + delta;
        r
    }
  }

  /**
   * dline.NewInfo for an in-range index: the index-th challenge window of the
   * proving period that starts at periodStart. The window lies inside the
   * period, and the challenge epoch comes before the window opens.
   */
  function NewInfo(periodStart: int, deadlineIdx: nat, currEpoch: int, params: Params): (r: Info)
    requires params.Valid() && deadlineIdx < params.periodDeadlines
    ensures r.Valid()
    ensures r.periodStart == periodStart && r.index == deadlineIdx
    ensures r.currentEpoch == currEpoch && r.params == params
    ensures r.challenge < r.open < r.close && r.close - r.open == params.challengeWindow
    ensures periodStart <= r.open && r.close <= periodStart + params.provingPeriod
  {
    WindowWithinPeriod(deadlineIdx, params);
    var open := periodStart + deadlineIdx * params.challengeWindow;
    Info(currEpoch, periodStart, deadlineIdx, open, open + params.challengeWindow,
         open - params.challengeLookback, open - params.faultDeclarationCutoff, params)
  }

  /** A proving period is at least one challenge window long. */
  lemma PeriodHoldsWindow(params: Params)
    requires params.Valid()
    ensures 0 < params.challengeWindow <= params.provingPeriod
  {
  }

  /** The window of an in-range deadline index fits inside the proving period. */
  lemma WindowWithinPeriod(i: nat, params: Params)
    requires params.Valid() && i < params.periodDeadlines
    ensures 0 <= i * params.challengeWindow
    ensures i * params.challengeWindow + params.challengeWindow <= params.provingPeriod
  {
    Arith.MulLeq(0, i, params.challengeWindow);
    Arith.MulLeq(i + 1, params.periodDeadlines, params.challengeWindow);
  }

  /** Skipping gap / period + 1 whole periods passes the gap, and one period fewer does not. */
  lemma AdvanceIsWholePeriods(gap: int, period: int)
    requires 0 <= gap && 0 < period
    ensures var delta := (gap / period + 1) * period;
      gap < delta && delta - period <= gap && delta % period == 0
  {
    var q := gap / period;
    assert gap == q * period + gap % period;
    assert (q + 1) * period == q * period + period;
    Arith.MulMod(q + 1, period);
  }
}

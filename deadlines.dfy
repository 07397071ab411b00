/**
 * Deadline scheduling for a storage miner (actors/builtin/miner/deadlines.go).
 *
 * A miner's proving time is a repeating grid: each proving period holds
 * WPoStPeriodDeadlines consecutive challenge windows, one per deadline index.
 * The gates below decide, from (provingPeriodStart, dlIdx, currentEpoch) alone,
 * whether a deadline may take new sectors, whether optimistically accepted
 * proofs submitted to it may still be disputed, and whether its partitions may
 * be compacted. Each gate is characterised against Occurrence{Open,Close}: the
 * windows of the deadline in every proving period, written out directly.
 */
module Deadlines {

  import Arith
  import Dline
  import Quantize

  /** The network policy constants the scheduling code reads. */
  datatype Policy = Policy(
    params: Dline.Params,  // the constants passed to dline.NewInfo
    disputeWindow: int)    // WPoStDisputeWindow
  {
    predicate Valid() {
      params.Valid() && disputeWindow > 0
    }

    function ProvingPeriod(): int { params.provingPeriod }

    function ChallengeWindow(): int { params.challengeWindow }
  }

  /**
   * NewDeadlineInfo: the occurrence of deadline deadlineIdx in the proving
   * period that starts at periodStart, under the network policy.
   */
  function NewDeadlineInfo(pol: Policy, periodStart: int, deadlineIdx: nat, currEpoch: int): (r: Dline.Info)
    requires pol.Valid() && deadlineIdx < pol.params.periodDeadlines
    ensures r.Valid() && r.params == pol.params
    ensures r.periodStart == periodStart && r.index == deadlineIdx && r.currentEpoch == currEpoch
    ensures r.open == OccurrenceOpen(pol, periodStart, deadlineIdx, 0)
    ensures r.close == OccurrenceClose(pol, periodStart, deadlineIdx, 0)
    ensures periodStart <= r.open && r.close <= periodStart + pol.ProvingPeriod()
  {
    Dline.NewInfo(periodStart, deadlineIdx, currEpoch, pol.params)
  }

  /**
   * QuantSpecForDeadline: rounds epochs up to the last epoch of an occurrence
   * of the deadline, one proving period apart.
   */
  function QuantSpecForDeadline(pol: Policy, di: Dline.Info): (q: Quantize.QuantSpec)
    requires pol.Valid() && di.Valid() && di.params == pol.params
    ensures q.unit == pol.ProvingPeriod() && q.offset == di.Last()
  {
    Dline.PeriodHoldsWindow(pol.params);
    Quantize.QuantSpec(pol.ProvingPeriod(), di.Last())
  }

  // ---------------------------------------------------------------------------
  // Reference schedule: the k-th occurrence of a deadline, counted in whole
  // proving periods from provingPeriodStart (k = -1 is the period before it).
  // ---------------------------------------------------------------------------

  function OccurrenceOpen(pol: Policy, provingPeriodStart: int, dlIdx: nat, k: int): int {
    provingPeriodStart + k * pol.ProvingPeriod() + dlIdx * pol.ChallengeWindow()
  }

  function OccurrenceClose(pol: Policy, provingPeriodStart: int, dlIdx: nat, k: int): int {
    OccurrenceOpen(pol, provingPeriodStart, dlIdx, k) + pol.ChallengeWindow()
  }

  /** The challenge window of occurrence k is open at epoch e. */
  predicate OpenAt(pol: Policy, provingPeriodStart: int, dlIdx: nat, k: int, e: int) {
    OccurrenceOpen(pol, provingPeriodStart, dlIdx, k) <= e < OccurrenceClose(pol, provingPeriodStart, dlIdx, k)
  }

  /** Epoch e is within one challenge window before occurrence k opens, or inside its window. */
  predicate FrozenAt(pol: Policy, provingPeriodStart: int, dlIdx: nat, k: int, e: int) {
    OccurrenceOpen(pol, provingPeriodStart, dlIdx, k) - pol.ChallengeWindow() <= e <
      OccurrenceClose(pol, provingPeriodStart, dlIdx, k)
  }

  // ---------------------------------------------------------------------------
  // The three gates
  // ---------------------------------------------------------------------------

  /** deadlineIsMutable: new sectors may be assigned to the deadline. */
  predicate DeadlineIsMutable(pol: Policy, provingPeriodStart: int, dlIdx: nat, currentEpoch: int): (r: bool)
    requires pol.Valid() && dlIdx < pol.params.periodDeadlines
    ensures r ==> !NewDeadlineInfo(pol, provingPeriodStart, dlIdx, currentEpoch).NextNotElapsed().IsOpen()
  {
    var dlInfo := NewDeadlineInfo(pol, provingPeriodStart, dlIdx, currentEpoch).NextNotElapsed();
    currentEpoch < dlInfo.open - pol.ChallengeWindow()
  }

  /** deadlineAvailableForOptimisticPoStDispute: accepted proofs may still be disputed. */
  predicate DeadlineAvailableForOptimisticPoStDispute(pol: Policy, provingPeriodStart: int, dlIdx: nat, currentEpoch: int): (r: bool)
    requires pol.Valid() && dlIdx < pol.params.periodDeadlines
    ensures r ==> provingPeriodStart <= currentEpoch
    ensures r ==> !NewDeadlineInfo(pol, provingPeriodStart, dlIdx, currentEpoch).NextNotElapsed().IsOpen()
  {
    if provingPeriodStart > currentEpoch then
      false
    else
      var dlInfo := NewDeadlineInfo(pol, provingPeriodStart, dlIdx, currentEpoch).NextNotElapsed();
      !dlInfo.IsOpen() && currentEpoch < (dlInfo.close - pol.ProvingPeriod()) + pol.disputeWindow
  }

  /** deadlineAvailableForCompaction: the deadline's partitions may be compacted. */
  predicate DeadlineAvailableForCompaction(pol: Policy, provingPeriodStart: int, dlIdx: nat, currentEpoch: int): (r: bool)
    requires pol.Valid() && dlIdx < pol.params.periodDeadlines
    ensures r ==> !DeadlineAvailableForOptimisticPoStDispute(pol, provingPeriodStart, dlIdx, currentEpoch)
    ensures r ==> currentEpoch < NewDeadlineInfo(pol, provingPeriodStart, dlIdx, currentEpoch).NextNotElapsed().open - pol.ChallengeWindow()
  {
    DeadlineIsMutable(pol, provingPeriodStart, dlIdx, currentEpoch) &&
    !DeadlineAvailableForOptimisticPoStDispute(pol, provingPeriodStart, dlIdx, currentEpoch)
  }

  // ---------------------------------------------------------------------------
  // The schedule
  // ---------------------------------------------------------------------------

  /** Occurrences come one proving period apart, so a later one opens at least a period later. */
  lemma OccurrencesOrdered(pol: Policy, provingPeriodStart: int, dlIdx: nat, j: int, k: int)
    requires pol.Valid() && j < k
    ensures OccurrenceOpen(pol, provingPeriodStart, dlIdx, j) + pol.ProvingPeriod() <=
            OccurrenceOpen(pol, provingPeriodStart, dlIdx, k)
  {
    var pp := pol.ProvingPeriod();
    Dline.PeriodHoldsWindow(pol.params);
    assert k * pp - j * pp == (k - j) * pp;
    Arith.MulLeq(1, k - j, pp);
  }

  /** Consecutive occurrences are exactly one proving period apart. */
  lemma OccurrenceStep(pol: Policy, provingPeriodStart: int, dlIdx: nat, k: int)
    ensures OccurrenceOpen(pol, provingPeriodStart, dlIdx, k + 1) ==
            OccurrenceOpen(pol, provingPeriodStart, dlIdx, k) + pol.ProvingPeriod()
  {
  }

  /**
   * NextNotElapsed, seen on the reference schedule: it is occurrence kN, whose
   * window has not closed, while occurrence kN - 1 has closed, unless kN = 0
   * and proving has not started.
   */
  lemma NextOccurrence(pol: Policy, provingPeriodStart: int, dlIdx: nat, currentEpoch: int) returns (kN: nat)
    requires pol.Valid() && dlIdx < pol.params.periodDeadlines
    ensures var n := NewDeadlineInfo(pol, provingPeriodStart, dlIdx, currentEpoch).NextNotElapsed();
      n.open == OccurrenceOpen(pol, provingPeriodStart, dlIdx, kN) &&
      n.close == OccurrenceClose(pol, provingPeriodStart, dlIdx, kN)
    ensures currentEpoch < OccurrenceClose(pol, provingPeriodStart, dlIdx, kN)
    ensures kN > 0 || provingPeriodStart <= currentEpoch ==>
      OccurrenceClose(pol, provingPeriodStart, dlIdx, kN - 1) <= currentEpoch
  {
    var pp := pol.ProvingPeriod();
    var d := NewDeadlineInfo(pol, provingPeriodStart, dlIdx, currentEpoch);
    var n := d.NextNotElapsed();
    Dline.PeriodHoldsWindow(pol.params);
    var gap := n.periodStart - provingPeriodStart;
    kN := gap / pp;
    assert gap == kN * pp + gap % pp;
    assert n.periodStart == provingPeriodStart + kN * pp;
    OccurrenceStep(pol, provingPeriodStart, dlIdx, kN - 1);
    if kN == 0 {
      assert OccurrenceOpen(pol, provingPeriodStart, dlIdx, -1) == d.open - pp;
      Dline.WindowWithinPeriod(dlIdx, pol.params);
    }
  }

  /** Every occurrence before kN has closed by the current epoch (when occurrence kN - 1 has). */
  lemma EarlierOccurrencesClosed(pol: Policy, provingPeriodStart: int, dlIdx: nat, currentEpoch: int, kN: int, k: int)
    requires pol.Valid() && k < kN
    requires OccurrenceClose(pol, provingPeriodStart, dlIdx, kN - 1) <= currentEpoch
    ensures OccurrenceClose(pol, provingPeriodStart, dlIdx, k) <= currentEpoch
  {
  }

  /** Every occurrence from kN on is still to close, and opens no earlier than kN. */
  lemma LaterOccurrencesPending(pol: Policy, provingPeriodStart: int, dlIdx: nat, kN: int, k: int)
    requires pol.Valid() && kN <= k
    ensures OccurrenceOpen(pol, provingPeriodStart, dlIdx, kN) <= OccurrenceOpen(pol, provingPeriodStart, dlIdx, k)
    ensures kN < k ==>
      OccurrenceOpen(pol, provingPeriodStart, dlIdx, kN) + pol.ProvingPeriod() <= OccurrenceOpen(pol, provingPeriodStart, dlIdx, k)
  {
    if kN < k {
      OccurrencesOrdered(pol, provingPeriodStart, dlIdx, kN, k);
    }
  }

  /**
   * Within a proving period exactly one deadline is open at each epoch: the
   * deadlines' challenge windows tile the period.
   */
  lemma ExactlyOneDeadlineOpen(pol: Policy, periodStart: int, currEpoch: int)
    requires pol.Valid() && periodStart <= currEpoch < periodStart + pol.ProvingPeriod()
    ensures var i := (currEpoch - periodStart) / pol.ChallengeWindow();
      0 <= i < pol.params.periodDeadlines &&
      NewDeadlineInfo(pol, periodStart, i, currEpoch).IsOpen() &&
      forall j: nat :: j < pol.params.periodDeadlines && j != i ==>
        !NewDeadlineInfo(pol, periodStart, j, currEpoch).IsOpen()
  {
    var cw := pol.ChallengeWindow();
    var i := (currEpoch - periodStart) / cw;
    Arith.DivSlot(currEpoch - periodStart, cw, pol.params.periodDeadlines);
    forall j: nat | j < pol.params.periodDeadlines && j != i
      ensures !NewDeadlineInfo(pol, periodStart, j, currEpoch).IsOpen()
    {
      OtherDeadlineClosed(pol, periodStart, currEpoch, i, j);
    }
  }

  /** A deadline other than the one whose window holds the current epoch is not open. */
  lemma OtherDeadlineClosed(pol: Policy, periodStart: int, currEpoch: int, i: nat, j: nat)
    requires pol.Valid() && i < pol.params.periodDeadlines && j < pol.params.periodDeadlines && i != j
    requires periodStart + i * pol.ChallengeWindow() <= currEpoch < periodStart + i * pol.ChallengeWindow() + pol.ChallengeWindow()
    ensures !NewDeadlineInfo(pol, periodStart, j, currEpoch).IsOpen()
  {
    var cw := pol.ChallengeWindow();
    if j < i {
      Arith.MulLeq(j + 1, i, cw);
      assert (j + 1) * cw == j * cw + cw;
    } else {
      Arith.MulLeq(i + 1, j, cw);
      assert (i + 1) * cw == i * cw + cw;
    }
  }

  // ---------------------------------------------------------------------------
  // Mutability
  // ---------------------------------------------------------------------------

  /**
   * A deadline is mutable exactly when the current epoch is not within one
   * challenge window before, or inside, any occurrence of its challenge window
   * from the proving period at provingPeriodStart on.
   */
  lemma MutableIffNotFrozen(pol: Policy, provingPeriodStart: int, dlIdx: nat, currentEpoch: int)
    requires pol.Valid() && dlIdx < pol.params.periodDeadlines
    ensures DeadlineIsMutable(pol, provingPeriodStart, dlIdx, currentEpoch) <==>
      forall k: nat :: !FrozenAt(pol, provingPeriodStart, dlIdx, k, currentEpoch)
  {
    var kN := NextOccurrence(pol, provingPeriodStart, dlIdx, currentEpoch);
    if DeadlineIsMutable(pol, provingPeriodStart, dlIdx, currentEpoch) {
      forall k: nat ensures !FrozenAt(pol, provingPeriodStart, dlIdx, k, currentEpoch) {
        if k < kN {
          EarlierOccurrencesClosed(pol, provingPeriodStart, dlIdx, currentEpoch, kN, k);
        } else {
          LaterOccurrencesPending(pol, provingPeriodStart, dlIdx, kN, k);
        }
      }
    } else {
      assert FrozenAt(pol, provingPeriodStart, dlIdx, kN, currentEpoch);
    }
  }

  /** A mutable deadline is not open now, in any proving period from provingPeriodStart on. */
  lemma MutableIsNotOpen(pol: Policy, provingPeriodStart: int, dlIdx: nat, currentEpoch: int)
    requires pol.Valid() && dlIdx < pol.params.periodDeadlines
    requires DeadlineIsMutable(pol, provingPeriodStart, dlIdx, currentEpoch)
    ensures forall k: nat :: !OpenAt(pol, provingPeriodStart, dlIdx, k, currentEpoch)
    ensures !NewDeadlineInfo(pol, provingPeriodStart, dlIdx, currentEpoch).NextNotElapsed().IsOpen()
  {
    MutableIffNotFrozen(pol, provingPeriodStart, dlIdx, currentEpoch);
    forall k: nat ensures !OpenAt(pol, provingPeriodStart, dlIdx, k, currentEpoch) {
      assert !FrozenAt(pol, provingPeriodStart, dlIdx, k, currentEpoch);
    }
  }

  /**
   * When the challenge lookback is at most one challenge window, a mutable
   * deadline's next challenge epoch is still in the future: sector assignment
   * is frozen before the challenge is drawn.
   */
  lemma MutableBeforeChallenge(pol: Policy, provingPeriodStart: int, dlIdx: nat, currentEpoch: int)
    requires pol.Valid() && dlIdx < pol.params.periodDeadlines
    requires pol.params.challengeLookback <= pol.ChallengeWindow()
    requires DeadlineIsMutable(pol, provingPeriodStart, dlIdx, currentEpoch)
    ensures currentEpoch < NewDeadlineInfo(pol, provingPeriodStart, dlIdx, currentEpoch).NextNotElapsed().challenge
  {
  }

  // ---------------------------------------------------------------------------
  // Disputes
  // ---------------------------------------------------------------------------

  /** Before the proving period starts there is nothing to dispute. */
  lemma NoDisputeBeforeStart(pol: Policy, provingPeriodStart: int, dlIdx: nat, currentEpoch: int)
    requires pol.Valid() && dlIdx < pol.params.periodDeadlines
    requires provingPeriodStart > currentEpoch
    ensures !DeadlineAvailableForOptimisticPoStDispute(pol, provingPeriodStart, dlIdx, currentEpoch)
  {
  }

  /** Proofs may not be disputed while any occurrence k >= 0 of the deadline's window is open. */
  lemma NoDisputeWhileOpen(pol: Policy, provingPeriodStart: int, dlIdx: nat, currentEpoch: int, k: nat)
    requires pol.Valid() && dlIdx < pol.params.periodDeadlines
    requires OpenAt(pol, provingPeriodStart, dlIdx, k, currentEpoch)
    ensures !DeadlineAvailableForOptimisticPoStDispute(pol, provingPeriodStart, dlIdx, currentEpoch)
  {
    var kN := NextOccurrence(pol, provingPeriodStart, dlIdx, currentEpoch);
    if k < kN {
      EarlierOccurrencesClosed(pol, provingPeriodStart, dlIdx, currentEpoch, kN, k);
    } else if kN < k {
      LaterOccurrencesPending(pol, provingPeriodStart, dlIdx, kN, k);
      Dline.PeriodHoldsWindow(pol.params);
    }
  }

  /**
   * Proofs may be disputed exactly when proving has started, no occurrence of
   * the window is open, and fewer than WPoStDisputeWindow epochs have passed
   * since some occurrence closed (the one in the period before
   * provingPeriodStart included).
   */
  lemma DisputableIff(pol: Policy, provingPeriodStart: int, dlIdx: nat, currentEpoch: int)
    requires pol.Valid() && dlIdx < pol.params.periodDeadlines
    ensures DeadlineAvailableForOptimisticPoStDispute(pol, provingPeriodStart, dlIdx, currentEpoch) <==>
      provingPeriodStart <= currentEpoch &&
      (forall k: nat :: !OpenAt(pol, provingPeriodStart, dlIdx, k, currentEpoch)) &&
      (exists k: int :: -1 <= k && OccurrenceClose(pol, provingPeriodStart, dlIdx, k) <= currentEpoch <
        OccurrenceClose(pol, provingPeriodStart, dlIdx, k) + pol.disputeWindow)
  {
    var kN := NextOccurrence(pol, provingPeriodStart, dlIdx, currentEpoch);
    var prev := kN - 1;
    OccurrenceStep(pol, provingPeriodStart, dlIdx, prev);
    Dline.PeriodHoldsWindow(pol.params);
    if DeadlineAvailableForOptimisticPoStDispute(pol, provingPeriodStart, dlIdx, currentEpoch) {
      forall k: nat ensures !OpenAt(pol, provingPeriodStart, dlIdx, k, currentEpoch) {
        if k < kN {
          EarlierOccurrencesClosed(pol, provingPeriodStart, dlIdx, currentEpoch, kN, k);
        } else {
          LaterOccurrencesPending(pol, provingPeriodStart, dlIdx, kN, k);
        }
      }
      assert OccurrenceClose(pol, provingPeriodStart, dlIdx, prev) <= currentEpoch <
        OccurrenceClose(pol, provingPeriodStart, dlIdx, prev) + pol.disputeWindow;
    } else if provingPeriodStart <= currentEpoch && forall k: nat :: !OpenAt(pol, provingPeriodStart, dlIdx, k, currentEpoch) {
      assert !OpenAt(pol, provingPeriodStart, dlIdx, kN, currentEpoch);
      forall k: int | -1 <= k && OccurrenceClose(pol, provingPeriodStart, dlIdx, k) <= currentEpoch
        ensures currentEpoch >= OccurrenceClose(pol, provingPeriodStart, dlIdx, k) + pol.disputeWindow
      {
        if kN <= k {
          LaterOccurrencesPending(pol, provingPeriodStart, dlIdx, kN, k);
        } else if k < prev {
          OccurrencesOrdered(pol, provingPeriodStart, dlIdx, k, prev);
        }
      }
    }
  }

  // ---------------------------------------------------------------------------
  // Compaction
  // ---------------------------------------------------------------------------

  /**
   * Compaction is never allowed while proofs may be disputed, nor while any
   * occurrence of the deadline is open or due to open within one challenge
   * window.
   */
  lemma CompactionIsSafe(pol: Policy, provingPeriodStart: int, dlIdx: nat, currentEpoch: int)
    requires pol.Valid() && dlIdx < pol.params.periodDeadlines
    requires DeadlineAvailableForCompaction(pol, provingPeriodStart, dlIdx, currentEpoch)
    ensures !DeadlineAvailableForOptimisticPoStDispute(pol, provingPeriodStart, dlIdx, currentEpoch)
    ensures forall k: nat :: !FrozenAt(pol, provingPeriodStart, dlIdx, k, currentEpoch)
    ensures forall k: nat :: !OpenAt(pol, provingPeriodStart, dlIdx, k, currentEpoch)
  {
    MutableIffNotFrozen(pol, provingPeriodStart, dlIdx, currentEpoch);
    MutableIsNotOpen(pol, provingPeriodStart, dlIdx, currentEpoch);
  }

  /**
   * Once proving has started, compaction is allowed exactly in the gap between
   * the end of the dispute window that follows a close of the deadline and one
   * challenge window before the next occurrence opens.
   */
  lemma CompactionWindow(pol: Policy, provingPeriodStart: int, dlIdx: nat, currentEpoch: int)
    requires pol.Valid() && dlIdx < pol.params.periodDeadlines
    requires provingPeriodStart <= currentEpoch
    ensures DeadlineAvailableForCompaction(pol, provingPeriodStart, dlIdx, currentEpoch) <==>
      exists k: int :: -1 <= k &&
        OccurrenceClose(pol, provingPeriodStart, dlIdx, k) + pol.disputeWindow <= currentEpoch <
        OccurrenceOpen(pol, provingPeriodStart, dlIdx, k + 1) - pol.ChallengeWindow()
  {
    var kN := NextOccurrence(pol, provingPeriodStart, dlIdx, currentEpoch);
    var prev := kN - 1;
    OccurrenceStep(pol, provingPeriodStart, dlIdx, prev);
    Dline.PeriodHoldsWindow(pol.params);
    if DeadlineAvailableForCompaction(pol, provingPeriodStart, dlIdx, currentEpoch) {
      assert OccurrenceClose(pol, provingPeriodStart, dlIdx, prev) + pol.disputeWindow <= currentEpoch;
    } else {
      forall k: int | -1 <= k && OccurrenceClose(pol, provingPeriodStart, dlIdx, k) + pol.disputeWindow <= currentEpoch
        ensures currentEpoch >= OccurrenceOpen(pol, provingPeriodStart, dlIdx, k + 1) - pol.ChallengeWindow()
      {
        OccurrenceStep(pol, provingPeriodStart, dlIdx, k);
        if kN <= k {
          LaterOccurrencesPending(pol, provingPeriodStart, dlIdx, kN, k);
        } else if k < prev {
          OccurrencesOrdered(pol, provingPeriodStart, dlIdx, k, prev);
        }
      }
    }
  }

  /**
   * With a dispute window reaching to within two challenge windows of the next
   * opening, a deadline in a started proving period can never be compacted.
   */
  lemma NoCompactionWithLongDisputeWindow(pol: Policy, provingPeriodStart: int, dlIdx: nat, currentEpoch: int)
    requires pol.Valid() && dlIdx < pol.params.periodDeadlines
    requires provingPeriodStart <= currentEpoch
    requires pol.ProvingPeriod() - 2 * pol.ChallengeWindow() <= pol.disputeWindow
    ensures !DeadlineAvailableForCompaction(pol, provingPeriodStart, dlIdx, currentEpoch)
  {
  }

  // ---------------------------------------------------------------------------
  // Quantization to the deadline
  // ---------------------------------------------------------------------------

  /**
   * Every epoch inside occurrence j of the deadline's challenge window is
   * quantized up to that occurrence's last epoch; in particular the deadline's
   * own last epoch is a fixed point.
   */
  lemma QuantizeToDeadlineLast(pol: Policy, di: Dline.Info, j: int, e: int)
    requires pol.Valid() && di.Valid() && di.params == pol.params
    requires di.open + j * pol.ProvingPeriod() <= e < di.close + j * pol.ProvingPeriod()
    ensures QuantSpecForDeadline(pol, di).QuantizeUp(e) == di.Last() + j * pol.ProvingPeriod()
  {
    var q := QuantSpecForDeadline(pol, di);
    var c := di.Last() + j * pol.ProvingPeriod();
    Arith.MulMod(j, pol.ProvingPeriod());
    assert q.OnGrid(c);
    Quantize.QuantizeUpUnique(q, e, c);
  }
}

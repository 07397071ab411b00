# Miner deadline scheduling and sector lookup

This project models the scheduling arithmetic and the sector lookup of a
storage miner's `deadlines.go` (`actors/builtin/miner/deadlines.go`). It proves
properties of that model in Dafny.

A miner's proving time is a repeating grid. Each proving period
(`WPoStProvingPeriod` epochs) is cut into `WPoStPeriodDeadlines` consecutive
challenge windows (`WPoStChallengeWindow` epochs each), one per deadline index.
From `(provingPeriodStart, dlIdx, currentEpoch)` alone, the core decides three
things:

- **Mutable**: whether new sectors may be assigned to the deadline.
- **Disputable**: whether optimistically accepted window proofs submitted to the
  deadline may still be disputed.
- **Compactable**: whether the deadline's partitions may be compacted.

It also finds the deadline and partition that hold a given sector number.

Files:

- `dline.dfy` (module `Dline`): deadline information (`Info`, `NewInfo`,
  `NextNotElapsed`). The library that provides it is not part of this model.
  Its arithmetic is written out as stated assumptions:
  - `Open = PeriodStart + Index * ChallengeWindow`
  - `Close = Open + ChallengeWindow`
  - `Challenge = Open - ChallengeLookback`
  - `FaultCutoff = Open - FaultDeclarationCutoff`
  - `IsOpen` is `Open <= CurrentEpoch < Close`; `HasElapsed` is `CurrentEpoch >= Close`
  - `Last = Close - 1`
  - `NextNotElapsed` skips `(CurrentEpoch - Close) / ProvingPeriod + 1` whole periods when the occurrence has elapsed.
- `quantize.dfy` (module `Quantize`): the quantization rule (`QuantSpec`,
  `QuantizeUp`). The miner's quantization code is not part of this model. Its
  rounding is stated as an assumption: round up to the nearest epoch that lies
  a whole number of units from the offset.
- `deadlines.dfy` (module `Deadlines`): the policy constants,
  `NewDeadlineInfo`, `QuantSpecForDeadline` and the three gates. Every gate is
  characterised against an independent reference schedule:
  - `OccurrenceOpen(k) = provingPeriodStart + k * ProvingPeriod + dlIdx * ChallengeWindow`
  - `OccurrenceClose(k) = OccurrenceOpen(k) + ChallengeWindow`
- `find_sector.dfy` (module `SectorLocator`): `FindSector`, written as nested
  loops over an in-memory store, with a declarative specification of the
  first-match search and of its error outcomes.
- `arith.dfy` (module `Arith`): multiplication facts the epoch arithmetic needs.

The policy constants are parameters (`Dline.Params`, `Deadlines.Policy`). The
model assumes they are all positive and that the proving period is exactly
`WPoStPeriodDeadlines * WPoStChallengeWindow`. Every function is pure, so
evaluating a gate twice on the same inputs always gives the same answer.

Two facts about the code that are easy to get wrong:

- The challenge epoch is not inside the challenge window.
  `Challenge = Open - ChallengeLookback` lies before `Open`, and
  `Dline.NewInfo` proves `challenge < open < close`.
- `QuantSpecForDeadline` is anchored at `di.Last()`, the last epoch of the
  deadline's own challenge window, not at the end of the proving period.

The occurrence in the period just before `provingPeriodStart` (`k = -1` on the
reference schedule) plays a part in two gates:

- The dispute gate treats it as having existed (`k = -1` in `DisputableIff`).
  So once proving has started, a deadline can be disputable for up to
  `WPoStDisputeWindow` epochs after that occurrence's close, even in a miner's
  first proving period.
- The mutability gate ignores it. When `provingPeriodStart > currentEpoch`, a
  deadline can be mutable while occurrence `-1`'s window holds the current
  epoch. That is why `MutableIffNotFrozen` and `MutableIsNotOpen` speak of the
  occurrences `k >= 0` only.

## Model

| member | source | states |
|---|---|---|
| `Dline.NewInfo` | actors/builtin/miner/deadlines.go:14-16 | An in-range deadline's window is `ChallengeWindow` long, lies inside the proving period `[periodStart, periodStart + ProvingPeriod]`, and its challenge epoch comes before it opens |
| `Dline.Info.NextNotElapsed` | actors/builtin/miner/deadlines.go:63-65 | The result has the same index and current epoch. It lies a whole number (at least zero) of proving periods later and has not elapsed. The occurrence one period before it has elapsed, unless no period was skipped. It is the info itself when that has not elapsed |
| `Quantize.QuantSpec.QuantizeUp` | actors/builtin/miner/deadlines.go:18-20 | Assumed rounding of the spec built here: the result is on the grid, at or after the epoch, and less than one unit after it |
| `Quantize.QuantizeUpUnique` | actors/builtin/miner/deadlines.go:18-20 | The quantized epoch is the only grid epoch in `[e, e + unit)` |
| `Quantize.QuantizeUpIdempotent` | actors/builtin/miner/deadlines.go:18-20 | Quantizing twice gives the same result as quantizing once |
| `Quantize.QuantizeUpMonotonic` | actors/builtin/miner/deadlines.go:18-20 | `e1 <= e2` implies `QuantizeUp(e1) <= QuantizeUp(e2)` |
| `Deadlines.NewDeadlineInfo` | actors/builtin/miner/deadlines.go:13-16 | Returns the reference schedule's occurrence 0 of the deadline, built with the policy constants. It lies inside the proving period |
| `Deadlines.ExactlyOneDeadlineOpen` | actors/builtin/miner/deadlines.go:13-16 | At each epoch of a proving period, exactly one deadline index is open: `(currEpoch - periodStart) / ChallengeWindow` |
| `Deadlines.QuantSpecForDeadline` | actors/builtin/miner/deadlines.go:18-20 | The spec's unit is `WPoStProvingPeriod` and its offset is `di.Last() = Close - 1` |
| `Deadlines.QuantizeToDeadlineLast` | actors/builtin/miner/deadlines.go:18-20 | Every epoch inside the j-th occurrence of the deadline's window (any integer j) is quantized to that occurrence's last epoch |
| `Deadlines.NextOccurrence` | actors/builtin/miner/deadlines.go:65 | `NextNotElapsed` is reference occurrence kN. Its window has not closed. Occurrence kN - 1 has closed, unless kN = 0 and proving has not started |
| `Deadlines.DeadlineIsMutable` | actors/builtin/miner/deadlines.go:60-69 | A mutable deadline's next not-elapsed occurrence is not open. The full characterisation is `MutableIffNotFrozen` |
| `Deadlines.DeadlineAvailableForOptimisticPoStDispute` | actors/builtin/miner/deadlines.go:71-84 | A disputable deadline has a started proving period and its next not-elapsed occurrence is not open. The full characterisation is `DisputableIff` |
| `Deadlines.DeadlineAvailableForCompaction` | actors/builtin/miner/deadlines.go:86-96 | A compactable deadline is not disputable, and its next occurrence opens more than one challenge window from now. The full characterisation is `CompactionWindow`, with `CompactionIsSafe` |
| `Deadlines.MutableIffNotFrozen` | actors/builtin/miner/deadlines.go:60-69 | Mutable if and only if, for every occurrence k >= 0, the current epoch is neither inside its window nor within one challenge window before it opens |
| `Deadlines.MutableIsNotOpen` | actors/builtin/miner/deadlines.go:60-69 | A mutable deadline has no open occurrence k >= 0, and the next not-elapsed occurrence is not open |
| `Deadlines.MutableBeforeChallenge` | actors/builtin/miner/deadlines.go:66-68 | If the challenge lookback is at most one challenge window, a mutable deadline's next challenge epoch is still in the future |
| `Deadlines.NoDisputeBeforeStart` | actors/builtin/miner/deadlines.go:77-80 | Not disputable when `provingPeriodStart > currentEpoch` |
| `Deadlines.NoDisputeWhileOpen` | actors/builtin/miner/deadlines.go:71-83 | Not disputable while any occurrence k >= 0 of the deadline's window is open |
| `Deadlines.DisputableIff` | actors/builtin/miner/deadlines.go:71-84 | Disputable if and only if all three hold: proving has started; no occurrence is open; and fewer than `WPoStDisputeWindow` epochs have passed since some occurrence k >= -1 closed. So disputes lapse `WPoStDisputeWindow` epochs after the previous close |
| `Deadlines.CompactionIsSafe` | actors/builtin/miner/deadlines.go:86-96 | A compactable deadline is not disputable. No occurrence k >= 0 of it is open, and none opens within one challenge window |
| `Deadlines.CompactionWindow` | actors/builtin/miner/deadlines.go:86-96 | Once proving has started, compaction is allowed if and only if the current epoch lies in `[Close(k) + DisputeWindow, Open(k+1) - ChallengeWindow)` for some k >= -1 |
| `Deadlines.NoCompactionWithLongDisputeWindow` | actors/builtin/miner/deadlines.go:93-96 | If `DisputeWindow >= ProvingPeriod - 2 * ChallengeWindow`, a deadline is never compactable once proving has started |
| `SectorLocator.FindSector` | actors/builtin/miner/deadlines.go:22-58 | Success exactly when the search meets the sector, before any unreadable deadline or partition. The result is that deadline and partition index. "Not due" exactly when every deadline and partition was read and none holds the sector. A store error exactly when an unreadable node comes first. Every error returns `(0, 0)` |
| `SectorLocator.FirstHitExcludesOthers` | actors/builtin/miner/deadlines.go:44-51 | A first match rules out a store error, the not-due outcome and any other first match, so the specified result is unique |
| `SectorLocator.BrokenExcludesOthers` | actors/builtin/miner/deadlines.go:26-34 | A store failure met first rules out any match and the not-due outcome |
| `SectorLocator.NoHitInCleanStore` | actors/builtin/miner/deadlines.go:57 | When every node is readable and nothing holds the sector, there is no match and no failure |
| `SectorLocator.FoundIsFirst` | actors/builtin/miner/deadlines.go:37-51 | The found partition holds the sector. No lower deadline holds it, and no lower-indexed partition of the found deadline holds it |
| `SectorLocator.NotDueIffAbsent` | actors/builtin/miner/deadlines.go:52-57 | On a readable store, a store error cannot happen. "Not due" happens if and only if no partition of any deadline holds the sector |
| `SectorLocator.FoundWhereAssigned` | actors/builtin/miner/deadlines.go:22-23 | On a readable store where no sector is in two partitions, the search finds each sector exactly where it is assigned |

## Left out

- `NewInfo` with an index `>= WPoStPeriodDeadlines`: the model requires an in-range index. The library's out-of-range branch (a no-duty deadline after the period) is not modelled.
- 64-bit epochs: epochs are unbounded integers. Overflow of `abi.ChainEpoch` is not modelled.
- The deadline-information library and the quantization code are not part of this model. Their arithmetic is stated as assumptions, not verified as ports. `Info` fields and methods that the core does not use (`PeriodEnd`, `FaultCutoffPassed`, ...) are left out. The quantization unit is a `nat`, so a negative unit is not modelled.
- Quantize.QuantSpec.QuantizeUp: a zero unit returns the epoch unchanged. That is a choice of this model, not a statement about the quantization code, which is not part of it. The core never builds a spec with a zero unit, because `QuantSpecForDeadline` passes `WPoStProvingPeriod`, which is positive.
- Policy constant values: the file that defines them is not part of this model. They are parameters, assumed positive, with `WPoStProvingPeriod = WPoStPeriodDeadlines * WPoStChallengeWindow`.
- Store plumbing in `FindSector` (`adt.Store`, `LoadDeadline`, `adt.AsArray`, the partition array's `ForEach`, the `stopErr` sentinel): it becomes an in-memory sequence of deadlines, each holding its partitions in increasing index order. The sentinel becomes an early return. Every load or decode failure becomes one `StoreError` value, so the error's identity and message text are not modelled.
- The length of `deadlines.Due` (a fixed array of `WPoStPeriodDeadlines` entries in the source) is not constrained. The search is modelled for any number of deadlines.
- Bitfield internals: a partition's `Sectors` is a set of sector numbers, and `IsSet` is set membership.
- The sector commitment workflow (pre-commit, prove-commit, window PoSt submission, cron, penalties, power and pledge accounting) exercised by `actors/test/commit_post_test.go`: that code is not part of this model.

# dev-can-linux: a Dafny model of its arithmetic, queues and buffers

dev-can-linux runs Linux CAN-bus drivers as a QNX resource manager. This project models the parts of it
where correctness is not visible from one function, and proves what those parts are relied on for:

* **64-bit division on 32-bit targets** (`Words`, `Div64`, `Math64`). `do_div` divides by shift-and-subtract
  or by multiplying with a reciprocal that checks itself and falls back to a biased form. All four branches
  are proved equal to `/` and `%` on every 64-bit dividend and non-zero 32-bit divisor, with every
  intermediate value stored in a 32- or 64-bit type. The bit tricks (`m & -m`, masks, the power-of-two test)
  are proved from a bit-by-bit definition of `&` and `|`.
* **CAN bit timing** (`SamplePoint`, `BrpSearch`, `LegalSettings`, `CalcBittiming`, `FixupBittiming`), the
  subject of section 11.3.1.1 "Bit time" of ISO 11898-1:2015. The calculation looks at two prescalers and two
  segment splits per bit length, and skips bit lengths whose ideal prescaler is beyond the largest. It is
  proved to find the lexicographic minimum of (bit rate error, sample point error) over the settings it
  answers for. With prescaler step one, which all controllers of this repository have, what it finds has the
  least bit rate error of all legal settings, and it finds something exactly when there is an acceptable bit
  length and the longest one is long enough for the clock. The fix-up is its inverse, with the exact condition
  for the round trip.
* **The overwriting circular queue** (`Rings`, `CanQueue`, `QueueRuns`). Every operation against the stored
  sequence, the one state in which an enqueue empties the queue, the sizes that work, and for whole runs:
  conservation, order, and how long a dequeued slot stays readable.
* **Block pool, socket buffers and bus-off recovery** (`Pool`, `Device`, `PoolThreads`). Up to the first
  looped-back error frame each buffer is freed exactly once, blocks never overlap, and the recursion
  between reception and restart ends and nests exactly `NestingDepth` deep. The pool is safe under every
  interleaving of threads at the granularity of its mutex.
* **Byte streams** (`ByteStream`): splitting a write into frames and reassembling reads of any sizes.
* **Pointer structures**: the doubly linked list of blocked clients (`BlockedClients`) and the map from
  interrupts to groups whose pointers are redirected on every reallocation (`IrqGroups`).

Operations that change state in the source are methods, with a `class` where the source updates a structure in
place. The specification functions they are proved against are what the lemmas speak about.

Findings about the code, each with its exact condition:

* An enqueue into a queue with `begin == 1` and `end == size` leaves `begin == end`, so all stored messages and
  the new one are lost, without a report: `Rings.AppendsUnlessCollapsed`. Filling a queue and taking one message
  out gets there: `QueueRuns.CollapseRun`. Queues of size 1 or 2 leave their buffer: `Rings.SafeSizes`.
* A request with a legal setting close enough is refused exactly when the longest acceptable bit wants a
  prescaler beyond the largest (step one): `LegalSettings.FindsClosestExactly`, `LegalSettings.RefusedExactly`.
* The line that resets the sample point error for a candidate that is then rejected
  (`calc_bittiming.c:157`) looks as if it could spoil the result. It cannot, because acceptable bit lengths
  have no gaps: `SamplePoint.FeasibleIsConvex`, used in `BrpSearch.Search`.
* With an error count of 256 or more, one error frame in bus-off state restarts the controller once for every
  two free blocks of the pool, and once more: `Device.StartsPerFrame`.
* A looped-back error frame is freed twice. The identifier a client sets may have the error bit, which
  `netif_tx` passes on for extended identifiers. The pool stays intact exactly for other frames:
  `Device.NetDevice.GetEchoSkb`, `Device.LoopErrorBack`.
* `alloc_can_skb` loses a block when its second allocation fails. The first such loss needs another allocation
  or release under way; with none, an allocation loses a block exactly when one is free, which takes earlier
  losses: `PoolThreads.FirstLeakNeedsOverlap`, `PoolThreads.LoneAllocation`, `PoolThreads.QuietParity`.
* A client that is interrupted leaves the bytes gathered for it behind. The next read loses them exactly when it
  asks for more than the buffer holds, 4096 bytes at first: `ByteStream.ReadConservesExactly`.
* When the queue overwrites a partly read frame, the offset into it applies to the frame then in front. Reading
  stays inside that frame exactly if the offset does: `ByteStream.CopyStaysInside`, `ByteStream.OverflowMidFrame`.

Preconditions of the bit-timing members (`Limits.Sane`, `InRange`) exclude 32-bit wrap-around and division by
zero, which the source leaves to the controller limits: bit time times bit rate and bit time times prescaler
stay below 2^32, and the nominal sample point of the whole calculation lies strictly inside the bit. No caller
in this repository passes a sample point to it; the ones it chooses itself are 75, 80 and 87.5 percent.

Verify with `dafny verify dfyconfig.toml`.

## Model

| member | source | states |
|---|---|---|
| Words.PowerOf2Test | src/kernel/include/linux/log2.h:68-71 | `n & (n - 1)` is zero exactly for `2^ilog2(n)` |
| Words.LowestSetBit | src/kernel/include/asm-generic/div64.h:138-139 | `m & -m` in 64 bits is the largest power of two dividing `m` |
| Words.AndMask | src/kernel/include/asm-generic/div64.h:210 | `n & (2^k - 1)` is the remainder modulo `2^k` |
| Words.OrDisjoint | src/kernel/include/linux/math64.h:255 | the bitwise or of values without common bits is their sum |
| Div64.ArchXprod64 | src/kernel/include/asm-generic/div64.h:166-194 | both branches give the high 64 bits of `m * n`, plus `m` if biased, without overflow |
| Div64.HighProduct | src/kernel/include/asm-generic/div64.h:114-119 | the four partial products of the compile-time test give the high 64 bits of `m * x` |
| Div64.TestMeaning | src/kernel/include/asm-generic/div64.h:111-122 | the test of the reciprocal passes if and only if the rounding it accumulates stays below `2^64 * p` |
| Div64.FailedTestRounding | src/kernel/include/asm-generic/div64.h:122-132 | a failed test means that at least `p` was rounded away, which bounds the error of the biased form |
| Div64.LowBitDividesP | src/kernel/include/asm-generic/div64.h:137-139 | the reciprocal, being inexact, never has more trailing zeros than `p` |
| Div64.UnbiasedIsExact | src/kernel/include/asm-generic/div64.h:107-122 | if the test passes, multiplying by the rounded-up reciprocal divides every 64-bit number |
| Div64.BiasedIsExact | src/kernel/include/asm-generic/div64.h:129-134 | if it fails, the rounded-down reciprocal with bias divides every 64-bit number |
| Div64.ChooseReciprocal | src/kernel/include/asm-generic/div64.h:100-135 | the chosen reciprocal fits 64 bits, is never exact, and divides every 64-bit number |
| Div64.ReductionIsExact | src/kernel/include/asm-generic/div64.h:137-139 | dividing by `m & -m` is exact in `m` and `p` and never makes `p` zero |
| Div64.Div64Const32 | src/kernel/include/asm-generic/div64.h:89-148 | equals `n / b` for every 64-bit `n` and every `b` that is not a power of two |
| Div64.DoubleDivisor | src/kernel/lib/math/div64.c:51-54 | doubling ends without overflow with more than half of the remainder reached, also at bit 63 |
| Div64.SubtractShifted | src/kernel/lib/math/div64.c:56-63 | the halving loop keeps `n = res * base + rem` and ends with `rem < base` |
| Div64.Div64By32 | src/kernel/lib/math/div64.c:36-67 | quotient and remainder of every 64-bit number by every non-zero 32-bit divisor |
| Div64.LowWordRemainder | src/kernel/include/asm-generic/div64.h:214-218 | the remainder is recovered from the low words with 32-bit wrap-around |
| Div64.DoDiv | src/kernel/include/asm-generic/div64.h:204-226 | on every branch the new `n` is `n / base` and the result `n % base` |
| Math64.MulU64U64Shr | src/kernel/include/linux/math64.h:217-257 | the low 64 bits of `a * b >> shift` for every shift below 128 |
| Math64.FullProduct | src/kernel/include/linux/math64.h:234-246 | the carried words are both halves of the 128-bit product |
| Math64.ShiftWordsRight | src/kernel/include/linux/math64.h:252-256 | the three branches give the low 64 bits of the shifted 128-bit value |
| Math64.MulU64U32Shr | src/kernel/include/linux/math64.h:204-213 | the low 64 bits of `a * mul >> shift` for every defined shift |
| Math64.MulU64U32Div | src/kernel/include/linux/math64.h:281-306 | the low 64 bits of `a * mul / divisor` |
| Math64.DivideWords | src/kernel/include/linux/math64.h:298-305 | two 64-bit divisions divide a 96-bit value |
| Math64.LongDivision | src/kernel/include/linux/math64.h:298-305 | two steps of long division in base 2^32 |
| SamplePoint.ProbeMeaning | src/kernel/drivers/net/can/dev/calc_bittiming.c:66-75 | each probe is the legal split nearest to the quantum it asks for, or wrapped and will be rejected |
| SamplePoint.ProbesSuffice | src/kernel/drivers/net/can/dev/calc_bittiming.c:66-88 | every legal split at or below the nominal point is matched or beaten by one of the two probes |
| SamplePoint.ExhaustiveSearch | src/kernel/drivers/net/can/dev/calc_bittiming.c:66-88 | the best of the two probes is the best of all legal splits; none acceptable among the probes means none at all |
| SamplePoint.UpdateSamplePoint | src/kernel/drivers/net/can/dev/calc_bittiming.c:56-94 | inside the bit, finds the sample point of an exhaustive search over all legal splits, for every bit length, and none exactly when there is none; for 100 percent and more, does so exactly under `OvershootIsHarmless` |
| SamplePoint.FeasibleForm | src/kernel/drivers/net/can/dev/calc_bittiming.c:66-88 | which bit lengths have an acceptable split, in closed form |
| SamplePoint.FeasibleIsConvex | src/kernel/drivers/net/can/dev/calc_bittiming.c:156-163 | acceptable bit lengths have no gaps |
| SamplePoint.PicksExactly | src/kernel/drivers/net/can/dev/calc_bittiming.c:66-88 | inside the bit, the pick of the loop is the best legal split, and there is one exactly when some split is acceptable |
| SamplePoint.SplitIsDetermined | src/kernel/drivers/net/can/dev/calc_bittiming.c:77-78 | in bits of up to 1000 quanta the sample point determines the segments |
| SamplePoint.OvershootExactly | src/kernel/drivers/net/can/dev/calc_bittiming.c:67-75 | for nominal points of 100 percent and more, where the asked-for segment wraps, exactly when the pick is still the best legal split |
| SamplePoint.FullPointExactly | src/kernel/drivers/net/can/dev/calc_bittiming.c:67-75 | at 100 percent and up to 1000 quanta, the best split is missed if and only if the second segment may exceed the bit and the first may leave it too little |
| BrpSearch.NearestBrpIsBest | src/kernel/drivers/net/can/dev/calc_bittiming.c:141-150 | on either side of the ideal prescaler the nearest one has the smallest bit rate error |
| BrpSearch.RateSide | src/kernel/drivers/net/can/dev/calc_bittiming.c:141-149 | prescalers up to the ideal one are too fast or exact, larger ones too slow |
| BrpSearch.TriedErrorBound | src/kernel/drivers/net/can/dev/calc_bittiming.c:149-150 | a tried prescaler is off by at most the requested bit rate |
| BrpSearch.TryBrp | src/kernel/drivers/net/can/dev/calc_bittiming.c:139-150 | the prescaler tried and its error, which never exceeds the bit rate, so `abs` is exact |
| BrpSearch.Search | src/kernel/drivers/net/can/dev/calc_bittiming.c:137-172 | the loop ends with the lexicographically best of all candidates it visits, of equally good ones the first, or reports that none competes |
| BrpSearch.CounterFor | src/kernel/drivers/net/can/dev/calc_bittiming.c:136-147 | every setting the search answers for is represented by a loop counter at least as close to the bit rate |
| BrpSearch.SearchIsExhaustive | src/kernel/drivers/net/can/dev/calc_bittiming.c:137-172 | the winner is the lexicographic minimum of (bit rate error, sample point error) over all settings the search answers for |
| BrpSearch.FirstIsPreferred | src/kernel/drivers/net/can/dev/calc_bittiming.c:137-172 | of all settings answered for with the same pair of errors, the winner has the longest bit, and at that length the prescaler above the ideal one if any, nearest to it |
| BrpSearch.NothingAdmissible | src/kernel/drivers/net/can/dev/calc_bittiming.c:174-179 | when the search finds nothing it answers for no setting |
| BrpSearch.LeaderIsAdmissible | src/kernel/drivers/net/can/dev/calc_bittiming.c:144-147 | the winner is itself admissible: prescaler in range, a multiple of the step, never zero |
| BrpSearch.UnitStepCoversAll | src/kernel/drivers/net/can/dev/calc_bittiming.c:141-147 | with step 1 every prescaler is covered at every bit length whose ideal prescaler is in reach |
| LegalSettings.CoveredExactly | src/kernel/drivers/net/can/dev/calc_bittiming.c:141-147 | a legal setting is answered for, for any prescaler step, exactly when a usable prescaler between it and the ideal one is tried at its bit length |
| LegalSettings.NextLengthIsCloser | src/kernel/drivers/net/can/dev/calc_bittiming.c:141-150 | where a bit wants a prescaler beyond the largest and the next longer does not, the longer one is at least as close |
| LegalSettings.LeaderIsClosest | src/kernel/drivers/net/can/dev/calc_bittiming.c:137-172 | with prescaler step one, whatever is found has the least bit rate error of all legal settings |
| LegalSettings.FindsNothingExactly | src/kernel/drivers/net/can/dev/calc_bittiming.c:142-147 | with step one, nothing is found if and only if no bit length is acceptable or the longest acceptable one wants a prescaler beyond the largest |
| LegalSettings.FindsClosestExactly | src/kernel/drivers/net/can/dev/calc_bittiming.c:137-172 | with step one, the search gives the least bit rate error over all legal settings, or nothing when there is none, if and only if the longest acceptable bit is long enough for the clock |
| LegalSettings.RefusedExactly | src/kernel/drivers/net/can/dev/calc_bittiming.c:174-188 | with step one, a request is refused if and only if no legal setting is within the limit or the clock is too fast |
| LegalSettings.LeastPairExactly | src/kernel/drivers/net/can/dev/calc_bittiming.c:152-172 | with step one, the sample point is best as well if and only if for every skipped bit length, taken with the largest prescaler, something at least as good is tried |
| LegalSettings.RefusalMissesLegalSetting | src/kernel/drivers/net/can/sja1000/sja1000.c:84-91 | an input for too fast a clock: with SJA1000 limits, 4900 bit/s at 8 MHz is refused although a legal setting is 2 percent off |
| LegalSettings.StepMissesLegalSetting | src/kernel/drivers/net/can/dev/calc_bittiming.c:144-147 | an input for a step above one: a request is refused although a legal setting is 3 percent off |
| LegalSettings.TieMissesSamplePoint | src/kernel/drivers/net/can/dev/calc_bittiming.c:152-172 | an input for a tie: a skipped bit length meets both targets exactly, and nothing tried does |
| CalcBittiming.SetDefaultJumpWidth | src/kernel/drivers/net/can/dev/bittiming.c:32-39 | a given jump width is kept, a missing one gets the default, never zero |
| CalcBittiming.DefaultJumpWidthIsLargest | src/kernel/drivers/net/can/dev/bittiming.c:32-39 | the default is the largest width that fits the first phase segment and half of the second, or one |
| CalcBittiming.CheckJumpWidth | src/kernel/drivers/net/can/dev/bittiming.c:41-65 | succeeds exactly when the jump width fits the limit and both phase segments |
| CalcBittiming.ErrorTooHigh | src/kernel/drivers/net/can/dev/calc_bittiming.c:174-188 | rejects exactly errors of 5.1 percent and more, and a search that found nothing |
| CalcBittiming.UnfoundIsTooHigh | src/kernel/drivers/net/can/dev/calc_bittiming.c:174-179 | cutting the per-mille value of UINT_MAX to 32 bits never makes it look acceptable |
| CalcBittiming.CheckFound | src/kernel/drivers/net/can/dev/calc_bittiming.c:174-188 | gives up exactly when no setting the search answers for is close enough |
| CalcBittiming.FinalSplit | src/kernel/drivers/net/can/dev/calc_bittiming.c:190-197 | the second run of the sample point search gives the minimal error again, and the quantum is exact |
| CalcBittiming.SetSegments | src/kernel/drivers/net/can/dev/calc_bittiming.c:190-202 | the stored segments, sample point, quantum and jump width belong to a minimal setting |
| CalcBittiming.RealRate | src/kernel/drivers/net/can/dev/calc_bittiming.c:210-212 | the rate of the stored prescaler and bit time, without overflow |
| CalcBittiming.QuantumFits | src/kernel/drivers/net/can/dev/calc_bittiming.c:195-197 | the time quantum fits 32 bits |
| CalcBittiming.CalcBittiming | src/kernel/drivers/net/can/dev/calc_bittiming.c:108-215 | success gives a setting within limits, lexicographically minimal over all settings the search answers for, of the longest bit among its equals and, with step one, of least bit rate error over all legal settings, whose reported rate and sample point are the real ones; a missing sample point is aimed at 87.5, 80 or 75 percent by bit rate; failure exactly when none is close enough, leaving all fields (with step one: when no legal setting is, or the clock is too fast), or when the jump width does not fit, leaving the chosen segments with the old prescaler and rate |
| CalcBittiming.FirstSegmentIsReached | src/kernel/drivers/net/can/dev/calc_bittiming.c:190-208 | a solution meets the lower limit of the first segment, which the source never checks, when that is at most one |
| FixupBittiming.RecoveryCondition | src/kernel/drivers/net/can/dev/bittiming.c:116-123 | exactly which time quanta are read back as a given prescaler |
| FixupBittiming.RoundedDownRecovery | src/kernel/drivers/net/can/dev/bittiming.c:116-123 | a quantum rounded down names its prescaler exactly when less than half a second per step was lost |
| FixupBittiming.FastClockLosesPrescaler | src/kernel/drivers/net/can/dev/bittiming.c:116-123 | at 800 MHz prescaler 3 comes back as 2 |
| FixupBittiming.RecoverBrp | src/kernel/drivers/net/can/dev/bittiming.c:116-123 | the recovered prescaler, without 64-bit overflow |
| FixupBittiming.RecoveredNeedsClock | src/kernel/drivers/net/can/dev/bittiming.c:116-123 | the 64-bit value cannot overflow, and is zero when the clock is |
| FixupBittiming.BitTime | src/kernel/include/linux/can/bittiming.h:184-187 | the bit time wraps back to the number of quanta when the first segment wrapped |
| FixupBittiming.FixupPoint | src/kernel/drivers/net/can/dev/bittiming.c:137 | the sample point in tenths of a percent, without overflow |
| FixupBittiming.ClosestTq | src/kernel/drivers/net/can/dev/bittiming.c:138-139 | the quantum rounded to the nearest nanosecond, cut to 32 bits |
| FixupBittiming.FixupBittiming | src/kernel/drivers/net/can/dev/bittiming.c:80-142 | accepts exactly timings within all limits, with all resulting fields for either outcome, also when `prop_seg + phase_seg1` wraps |
| FixupBittiming.CalcThenFixup | src/kernel/drivers/net/can/dev/calc_bittiming.c:195-212 | the fix-up gives a calculated timing back, with only the quantum rounded to the nearest, if and only if its quantum is recoverable and its first segment reaches `tseg1_min` |
| FixupBittiming.SlowClockIsRecoverable | src/kernel/drivers/net/can/dev/bittiming.c:116-123 | for clocks up to 500 MHz it always is |
| FixupBittiming.FixupTwice | src/kernel/drivers/net/can/dev/bittiming.c:116-139 | when nothing is cut to 32 bits, the fix-up is idempotent if and only if the recomputed quantum is within the slack of `RecoveryCondition` |
| FixupBittiming.UnitStepAgain | src/kernel/drivers/net/can/dev/bittiming.c:116-139 | with step one it is, for every clock |
| FixupBittiming.SlowClockAgain | src/kernel/drivers/net/can/dev/bittiming.c:116-139 | with any step it is for clocks up to 1 GHz |
| FixupBittiming.UserPrescaler | src/resmgr.c:65 | for a quantum that fits an `int`, a user's prescaler comes back unchanged exactly when less than half a second was rounded away, so up to 500 MHz always |
| Rings.PutContents | src/queue.c:124-151 | indices stay in bounds; none, one or two oldest messages are dropped and the new one appended, unless the ring collapses to empty |
| Rings.NotifiesExactly | src/queue.c:135-147 | a drop is reported if and only if the number stored stays the same and the oldest message does not move to the first slot |
| Rings.PutWhenFull | src/queue.c:135-147 | a full queue drops exactly its oldest message |
| Rings.PutWithRoom | src/queue.c:124-151 | otherwise, unless the index wraps, nothing is dropped |
| Rings.HeadroomMeansLossless | src/queue.c:124-151 | an enqueue loses nothing exactly with headroom, a closed form of the indices, and takes one of it |
| Rings.RoomMeansHeadroom | src/queue.c:124-151 | there is headroom for all free slots but one, in any position |
| Rings.AppendsUnlessCollapsed | src/queue.c:124-151 | the new message is stored, after a suffix of the old ones, if and only if not `begin == 1 && end == size` |
| Rings.FillThenPopCollapses | src/queue.c:124-125 | filling any new queue and taking one message out reaches that state |
| Rings.PopContents | src/queue.c:197-215 | exactly the oldest message is removed |
| Rings.SafeSizes | src/queue.c:127-128 | the indices stay in bounds on all enqueue sequences if and only if the size is at least 3 |
| Rings.PutAllContents | src/queue.c:124-151 | messages all arrive, in order, if and only if there is headroom for them |
| Rings.PutMovesGap | src/queue.c:124-151 | each enqueue brings the write position one step closer to a slot, and overwrites it only when it gets there |
| Rings.PopKeepsGap | src/queue.c:197-215 | a dequeue neither writes a slot nor moves the write position |
| Rings.GapAfterPop | src/queue.c:197-215 | after a dequeue the slot just read is `size - len - 1` enqueues away from being overwritten |
| CanQueue.StalePrefixIsLongest | src/queue.c:246-252 | the discarded prefix is the longest one that is stale under 32-bit modular age |
| CanQueue.StaleMeansOlder | src/queue.c:249 | on a clock that does not wrap, stale means older than the limit up to an age of 2^32 milliseconds; from there the age counts modulo 2^32 |
| CanQueue.Queue.constructor | src/queue.c:33-73 | a new queue is empty, and valid for size 0 and sizes from 3 |
| CanQueue.Queue.Enqueue | src/queue.c:102-157 | error codes, new contents, and when a drop is reported |
| CanQueue.Queue.MakeRoom | src/queue.c:124-148 | the indices follow the specification, and a drop is reported only in the full branch |
| CanQueue.Queue.TakeOldest | src/queue.c:197-215 | returns and removes the oldest message |
| CanQueue.Queue.Dequeue | src/queue.c:170-218 | one round after the wait: removes the oldest message and returns it unless it is stale |
| CanQueue.Queue.DequeueNoblock | src/queue.c:223-268 | ends; removes exactly the stale prefix and the first fresh message; null only when it emptied the queue |
| CanQueue.Queue.PeekNoblock | src/queue.c:311-336 | the oldest message, or null when there is none |
| QueueRuns.RunAccounts | src/queue.c:102-268 | every step of a run keeps the account of messages, their order and the drop count |
| QueueRuns.EveryRunAccounts | src/queue.c:102-268 | accepted = delivered + stale + stored + lost; delivered then stored is in order; reported drops never exceed losses |
| QueueRuns.CollapseRun | src/queue.c:124-151 | the run into that state: with the next enqueue all stored messages and the new one are lost, and no drop is reported |
| QueueRuns.UnreadReports | src/queue.c:124-151 | after any number of enqueues into a new queue that nobody reads: how many messages are stored, lost and reported, in closed form |
| QueueRuns.CallsAccount | src/queue.c:102-268 | runs of the real calls, with latency limits and clock readings, keep the account |
| QueueRuns.EnqueueAccounts | src/queue.c:102-157 | an enqueue keeps the account |
| QueueRuns.TakeAccounts | src/queue.c:159-268 | so does taking a message out, delivered or stale |
| QueueRuns.SlotSurvives | src/queue.c:124-151 | a slot keeps its message while fewer enqueues happen than its distance, whatever is dequeued |
| QueueRuns.DequeuedSlotIsStable | src/netif.c:44-102 | the slot `netif_tx` reads survives the next `size - len - 1` enqueues, and not one more |
| QueueRuns.Drive | src/queue.c:102-268 | the queue object follows the run through any calls: what it stores, what it delivers, how many drops it reports; so its own drop count never exceeds its losses |
| Pool.BlockPool.constructor | src/fixed.c:31-48 | all blocks are free |
| Pool.BlockPool.Malloc | src/fixed.c:50-84 | pops the free stack, or fails when it is empty |
| Pool.BlockPool.Free | src/fixed.c:86-107 | pushes the free stack; without an outstanding block the index goes negative and the write falls outside the array |
| Pool.TakeTwo | src/kernel/drivers/net/can/dev/skb.c:213-228 | a new buffer of two free blocks keeps free blocks and buffers apart |
| Pool.GiveBack | src/kernel/include/linux/skbuff.h:52-56 | so does freeing one |
| Pool.Relabel | src/kernel/include/linux/can/skb.h:90-95 | so does changing what a buffer carries |
| Device.NestingDepth | src/netif.c:163-225 | recovery nests at most once for counts below 256, and until the pool is empty from 256 on |
| Device.TriggersExactly | src/netif.c:163-206 | an error frame sets off a restart exactly when the errors possible in the state may have reached the count; bus-off, when the count is in that range; stopped or sleeping, always |
| Device.FlagsAreBits | src/kernel/include/uapi/linux/can.h:65-66 | error and remote frames are told by the two flag bits |
| Device.StartsPerFrame | src/kernel/drivers/net/can/dev/dev.c:218-229 | how often one error frame starts the controller |
| Device.LedgerAlloc | src/kernel/drivers/net/can/dev/skb.c:208-232 | a new buffer gets a serial number that was never freed |
| Device.LedgerFree | src/kernel/include/linux/skbuff.h:52-56 | freeing retires a serial number that was in use, so none is freed twice |
| Device.NetDevice.constructor | src/fixed.c:31-48 | a new device has no buffers and an intact pool |
| Device.NetDevice.AllocCanSkb | src/kernel/drivers/net/can/dev/skb.c:208-232 | succeeds exactly with two free blocks; with exactly one it loses that block; an intact pool never gets there and stays intact |
| Device.NetDevice.AllocCanErrSkb | src/kernel/drivers/net/can/dev/skb.c:234-246 | on an intact pool, an error frame unless no block is left |
| Device.NetDevice.KfreeSkb | src/kernel/include/linux/skbuff.h:52-56 | both blocks return to the pool and the buffer is recorded as freed once |
| Device.NetDevice.KfreeAgain | src/kernel/include/linux/skbuff.h:52-56 | the same two frees of a buffer not in use: the index is two short, and below zero when nothing is in use |
| Device.NetDevice.PutEchoSkb | src/kernel/drivers/net/can/dev/skb.c:77-119 | the buffer ends in the slot or is freed, with the error code of each case |
| Device.NetDevice.MarkEcho | src/kernel/include/linux/can/skb.h:90-95 | marks the buffer and touches nothing else |
| Device.NetDevice.FreeEchoSkb | src/kernel/drivers/net/can/dev/skb.c:184-205 | an occupied slot is emptied and its buffer freed |
| Device.NetDevice.FlushEchoSkb | src/kernel/drivers/net/can/dev/skb.c:55-69 | all slots are emptied, exactly their buffers freed, and each counted as dropped |
| Device.NetDevice.FlushSlot | src/kernel/drivers/net/can/dev/skb.c:61-68 | one slot is emptied, its buffer freed and counted, and nothing else |
| Device.NetDevice.GetEchoSkb | src/kernel/drivers/net/can/dev/skb.c:161-177 | the pool stays intact if and only if the looped-back frame is no error frame; otherwise the index is two short and both blocks are free twice, or the index is -2 if no other buffer is in use |
| Device.NetDevice.ConsumeSkb | src/kernel/drivers/net/can/dev/skb.c:171-174 | the release after reception, with the two outcomes |
| Device.LoopErrorBack | src/kernel/drivers/net/can/dev/skb.c:77-177 | it happens: on a new device an error frame put into the echo slot and looped back leaves the index at -2, or both blocks free twice when another buffer is in use |
| Device.NetDevice.NetifRx | src/netif.c:115-327 | ends; restores the restart delay; restarts exactly when due; frees exactly what it must; issues one buffer per nested error frame; forwards exactly the data frames that are no echoes, and echoes if wanted; exact depth of nested recovery |
| Device.NetDevice.RxError | src/netif.c:163-229 | the same for an error frame, whose blocks end on top of the free stack |
| Device.NetDevice.Recover | src/netif.c:208-224 | a forced restart, with the restart delay restored |
| Device.NetDevice.CanRestartNow | src/kernel/drivers/net/can/dev/dev.c:241-256 | error codes of every case, a restart only in bus-off state with automatic restart off, and the carrier by its outcome |
| Device.NetDevice.CanRestart | src/kernel/drivers/net/can/dev/dev.c:193-232 | flushes, reports, starts; carrier and counters follow the outcome |
| Device.NetDevice.ReportRestart | src/kernel/drivers/net/can/dev/dev.c:211-216 | leaves the buffers as they were |
| Device.RunAny | src/fixed.c:66-100 | over any sequence of operations, up to the first looped-back error frame: each step has exactly its effect on buffers, slots, numbering and forwarded frames, and every state on the way has each buffer freed exactly once, blocks apart and none lost |
| Device.RunOne | src/kernel/drivers/net/can/dev/skb.c:55-232 | one operation has its effect, and stops exactly at a looped-back error frame |
| PoolThreads.NextConserves | src/fixed.c:66-100 | no call creates, destroys or duplicates a block |
| PoolThreads.RunConserves | src/fixed.c:66-100 | nor does any sequence of calls |
| PoolThreads.EveryInterleaving | src/fixed.c:66-100 | under every interleaving the pool index is two per buffer plus one per call under way and per leak, and no block is in two places |
| PoolThreads.DrivePool | src/fixed.c:50-107 | the allocator follows the calls: its free stack is the one of the run |
| PoolThreads.BuffersApart | src/fixed.c:66-100 | so buffers in use share no block with each other or with the free stack |
| PoolThreads.LeaksStay | src/kernel/drivers/net/can/dev/skb.c:217-219 | a leaked block never comes back |
| PoolThreads.OverlapLeaks | src/kernel/drivers/net/can/dev/skb.c:213-219 | two overlapping allocations over the last two blocks lose both, one after the other they do not |
| PoolThreads.FirstLeakNeedsOverlap | src/kernel/drivers/net/can/dev/skb.c:213-219 | from a pool with an even number of blocks, the first leak needs another allocation or release under way |
| PoolThreads.LoneAllocation | src/kernel/drivers/net/can/dev/skb.c:213-228 | an allocation with no call in between leaks if and only if exactly one block is free |
| PoolThreads.QuietParity | src/fixed.c:66-100 | between calls an odd number of blocks is free exactly when an odd number was lost |
| PoolThreads.ReleaseOverlapLeaks | src/kernel/include/linux/skbuff.h:52-56 | an allocation between the two calls of a release loses a block as well |
| ByteStream.WriteIsComplete | src/resmgr.c:971-982 | the frames carry exactly the written bytes if and only if their number fits the `len` field |
| ByteStream.FrameCountIsLeast | src/resmgr.c:971 | no frame is empty and no byte is without one |
| ByteStream.IoWrite | src/resmgr.c:955-1000 | frame `i` has the identifier and flags set up for the write and its eight bytes, the last one the rest; none is empty; bytes behind a short frame are those of the one before; enqueued in order |
| ByteStream.ReadConservesExactly | src/resmgr.c:822-838 | a read conserves the stream, whatever new memory holds, if and only if it does not replace a buffer with gathered bytes in it |
| ByteStream.ReplyTooLong | src/resmgr.c:896-899 | a read of less than was gathered is answered with more bytes than asked for |
| ByteStream.BuffersAddUp | src/resmgr.c:829-830 | once a read has outgrown the buffer, gathered bytes are kept by every later read of up to both sizes together |
| ByteStream.Reader.IoRead | src/resmgr.c:816-913 | for any number of bytes and any bytes gathered before, the answer and what is held afterwards are those of the specification |
| ByteStream.Reader.constructor | src/resmgr.c:534-545 | a descriptor that can be read starts with nothing gathered and a buffer of 4096 bytes |
| ByteStream.Reader.EnsureBuffer | src/resmgr.c:822-838 | a larger buffer takes the place of the old one, without its contents |
| ByteStream.Reader.Gather | src/resmgr.c:840-870 | the loop moves bytes from the queue until there are enough or the queue is empty, in order |
| ByteStream.Reader.CopyFront | src/resmgr.c:848-869 | one round moves bytes from the front frame to the buffer and leaves the stream unchanged |
| ByteStream.Reader.CopyRest | src/resmgr.c:848-859 | a frame that fits is used up |
| ByteStream.Reader.CopyPart | src/resmgr.c:861-869 | of a frame that does not, exactly as much is taken as was asked for |
| ByteStream.Reader.Copy | src/resmgr.c:851-854 | the copied bytes extend the buffer |
| ByteStream.Reader.Receive | src/queue.c:102-157 | an arriving frame extends the stream by its payload, and loses nothing exactly with headroom; the reader stays valid exactly if its offset lies inside the frame then in front |
| ByteStream.RunConserves | src/resmgr.c:816-913 | over any arrivals and read sizes in which no read replaces gathered bytes, replied bytes followed by pending ones are the pending ones of the start followed by all that arrived |
| ByteStream.InterruptedReadLoses | src/resmgr.c:1063-1076 | an input that loses bytes on a newly opened descriptor: an unanswered read of ten is followed by one of 4097 |
| ByteStream.RunStream | src/resmgr.c:816-913 | the reader follows the run: each read gets exactly its bytes, until an arrival without headroom |
| ByteStream.CopyStaysInside | src/resmgr.c:848-869 | with `size_t` wrap-around, a copy stays inside the front frame if and only if the offset does, and copies something otherwise |
| ByteStream.OverflowMidFrame | src/resmgr.c:848-869 | the run that gets there: after five of eight bytes, three arrivals at a queue of three put a shorter frame in front |
| ByteStream.WriteInto | src/resmgr.c:955-1000 | the frames of the write reach the queue, and extend a reader's stream by exactly its bytes if its length fits the field and its frames fit the headroom |
| ByteStream.WriteThenRead | src/resmgr.c:840-1000 | splitting and reassembly are inverse under that condition |
| BlockedClients.ClientList.Store | src/include/resmgr.h:215-233 | appends and keeps all links |
| BlockedClients.ClientList.Last | src/include/resmgr.h:224-228 | the walk ends at the last client |
| BlockedClients.ClientList.Get | src/include/resmgr.h:235-249 | the first client with the identifier, or null exactly when there is none |
| BlockedClients.ClientList.Unlink | src/include/resmgr.h:256-268 | removes one node and closes the chain around it |
| BlockedClients.ClientList.UnlinkFirst | src/include/resmgr.h:256-261 | removing the root moves it and clears the back link |
| BlockedClients.ClientList.UnlinkInner | src/include/resmgr.h:262-268 | removing an inner or last node joins its neighbours |
| BlockedClients.ClientList.Remove | src/include/resmgr.h:251-284 | removes every client with the identifier and no other, keeping order, links and root |
| BlockedClients.IdsOthers | src/include/resmgr.h:251-284 | filtering clients is filtering their identifiers |
| BlockedClients.Run | src/include/resmgr.h:215-284 | any sequence of stores and removals refines append and filter on a plain sequence |
| IrqGroups.LastListingIsLast | src/config.c:125-127 | the specified entry is the most recent group listing the interrupt, and none exactly when no group does |
| IrqGroups.IrqTable.Redirect | src/config.c:154-164 | every pointer into the old array becomes the pointer to the same element of the new one |
| IrqGroups.IrqTable.MapSize | src/config.c:98-104 | one more than the largest interrupt number, or zero |
| IrqGroups.IrqTable.Grow | src/config.c:106-123 | the map grows to exactly the size needed, never shrinks, and loses no entry; new ones are null |
| IrqGroups.IrqTable.PointTo | src/config.c:93-128 | the new group becomes the entry of exactly the interrupts it lists |
| IrqGroups.IrqTable.Add | src/config.c:130-174 | one group appended, every entry pointing into the current array at the right group |
| IrqGroups.AddAll | src/config.c:93-174 | after any additions no entry dangles, and each names the most recently added group listing it |

## Left out

- Div64.DoDiv: a divisor of zero, which is undefined in the source.
- SamplePoint.UpdateSamplePoint: a nominal sample point of zero, which the caller replaces, and ones whose product with the bit time exceeds 32 bits.
- CalcBittiming.CalcBittiming: limits and bit rates for which 32-bit products wrap, and nominal sample points of 100 percent or more; `tseg1_min` is not among the limits met, since the source never checks it in the calculation.
- LegalSettings.FindsClosestExactly: for prescaler steps above one, which no controller here has, the exact condition is stated per setting (`LegalSettings.CoveredExactly`), not for the outcome.
- FixupBittiming.UserPrescaler: the source computes the quantum in floating point; the model uses the exact floor. Quanta beyond an `int` are undefined in the source.
- CanQueue.Queue.constructor: a failing allocation.
- Pool.BlockPool.constructor: a failing `malloc`.
- CanQueue.Queue.Dequeue: one round of the loop, which in the source goes on until a message is fresh (runs repeat it); waiting on the condition variable, shutdown signalling and the stopped flag; each mutex-held section is one atomic step.
- Device.NetDevice.AllocCanErrSkb: a pool that has lost blocks, where it is `Device.NetDevice.AllocCanSkb` with error flags.
- Device.RunAny: what happens after an error frame was looped back and the pool is no longer intact.
- Device.NetDevice.NetifRx: identifier shifting, timestamps and the copy into client queues; forwarded frames are recorded by identifier.
- Device.NetDevice.SetModeStart: the driver's `do_set_mode` is an arbitrary callback that leaves the buffers and the restart delay alone.
- ByteStream.IoWrite: the width of `can_msg.len` is in a QNX header that is not part of this model, so it is a parameter; the second copy of the loop for long writes is the same code.
- ByteStream.RunStream: what is read once the offset lies beyond the frame in front, and a failing `malloc`.
- `can_get_bittiming` and `can_validate_bitrate`: dispatch and a list lookup.
- `can_calc_tdco`, control modes, `can_change_state` and the state-to-frame tables: short branches.
- QNX message passing, resource-manager dispatch, thread pools, timers, PCI and register access: calls into unseen code.
- Option parsing, logging, help text and the command-line tools.

# Verified model of the Kaspa Stratum bridge core

The bridge sits between a Kaspa node and mining hardware.  Most of it is plumbing; this project models
the parts that keep state or do exact arithmetic, and proves properties that hold over whole runs.

| file | models |
|---|---|
| DuplicateSubmit.dfy | the duplicate-submit guard, as a class and as runs of its calls |
| VarDiff.dfy | the difficulty controller, its convergence, and the power-of-two clamp |
| VarDiffThread.dfy | the workers' VarDiff windows, as a class, and the accesses to one worker's fields, as interleavings |
| Nonces.dfy | the nonce stride of the CPU miner |
| CpuMiner.dfy | work sharing between the template publisher and the mining threads, as interleavings |
| BlockAccounting.dfy | block confirmation, the two block counters and the stats pruner, as interleavings |
| Bytes.dfy, Preimage.dfy | the pre-PoW header preimage: serializer, reader, unique decodability |
| JobParams.dfy | the two job-string encoders |
| Float64.dfy, Targets.dfy | rounding to double precision; difficulty-to-target and compact-bits arithmetic |
| JobRing.dfy | the 300-slot job store of a connection |
| PostLimiter.dfy | the 60-second window on configuration POSTs |
| LineCodec.dfy | line framing of the Stratum stream |
| SeqFacts.dfy, Powers.dfy | small facts about sequences and powers |

State that the source updates in place is a class whose methods are proved equal to a function of the
old state; the run-level theorems are about those functions.  In the interleavings a lock-protected section
is one step.  Where every field has a lock of its own, as in a worker's stats, every access is a step.
Clock readings are numbers; several of them are taken before the lock is acquired, so the guard and the
limiter are not assumed to see them in order.  Node answers, clock readings and window contents are inputs.

## Results that correct an expectation

- Expiry of duplicate keys is lazy: an expired key behind a refreshed one is still answered
  (`ExpiredKeyBehindFreshKeySurvives`, a run of four calls); `PruneKeeps` says exactly which keys survive.  A re-admission
  still always has a cause (`ReadmissionNeedsExpiryOrEviction`).
- With the power-of-two clamp the controller does not always come to rest: it alternates between two
  difficulties exactly when some power of two has its ratio in [1.25, 1.5]
  (`ClampedSteadyRunRestsUnlessCycle`).  With windows of a minute showing 10 and 5 shares at a target of 8 it
  goes round between 1 and 2 for ever (`EndlessAlternation`).
- The VarDiff counter is not the number of shares found in the window.  It falls short of it by exactly the
  shares found between the reading of the clock that opened the window and the reset of the counter
  (`WindowLaw`, `CounterIsExactIffGapIsEmpty`); `ShareCanBeLost` is a run that loses one.
- Two adjustments of a worker are 30 s apart in all runs exactly when window starts are written in the order
  of their clock readings; a start written `skew` late can shorten the distance by `skew`, and by no more.
- With the power-of-two clamp a difficulty that is not a power of two is one that was set or seeded
  (`ClampedDifficultyIsExplained`); that every change is a factor of two is a claim about consecutive ticks.
- Mining threads have disjoint nonces below 2^64 exactly for thread counts coprime to 1_000_000_007, for all
  thread counts whose first nonces are below 2^64, and through wrap-around exactly for divisors of 2^64.
- The printed "Blocks" of the live workers can exceed the printed all-time "Total" while no task is between
  its two increments, because the total is read first (`PrintCanShowMoreLiveThanTotal`).  All prints during
  which at most `k` blocks are counted keep "no more than the tasks between their increments" if and only if
  `k` is zero (`PrintsOkIffQuiet`); `PrintOkIffEnoughIsLeftOut` says which single prints do.
- The difficulty times 10^18 is rounded to double precision, so the target of an integer difficulty is the
  exact floored quotient if and only if that product has a 53-bit significand; 2363 is the first to miss.
- `calculate_target` departs from its formula exactly when the shift is cut to 32 bits and the mantissa is
  not zero; never for 32-bit bits.
- The limiter keeps "at most `limit` in every 60 seconds" over all runs exactly when readings arrive in
  order or the limit is one.
- The comment on `diff_to_target` names 0xffff * 2^208; the code, and so the model, uses 2^224 - 1.

## Model

| member | source | states |
|---|---|---|
| DuplicateSubmit.DuplicateSubmitGuard.Prune | bridge/src/share_handler/duplicate_submit.rs:35-57 | the two loops terminate and drop exactly the max(all-expired prefix, excess) oldest keys, from queue and map alike |
| DuplicateSubmit.PruneKeeps | bridge/src/share_handler/duplicate_submit.rs:35-57 | a key survives a prune if and only if some key admitted no later was touched at most ttl ago and fewer than max_entries were admitted after it |
| DuplicateSubmit.PruneBounds | bridge/src/share_handler/duplicate_submit.rs:35-57 | a prune leaves at most max_entries keys, unchanged entries, and a suffix of the queue |
| DuplicateSubmit.ExpiredKeyBehindFreshKeySurvives | bridge/src/share_handler/duplicate_submit.rs:36-85 | a run of four calls from the empty guard in which a look-up is answered from an entry that expired long ago |
| DuplicateSubmit.DuplicateSubmitGuard.Get | bridge/src/share_handler/duplicate_submit.rs:59-62 | look-up after a prune: the abstract table and the outcome returned |
| DuplicateSubmit.DuplicateSubmitGuard.InsertInflight | bridge/src/share_handler/duplicate_submit.rs:64-77 | adds the key at the back of the queue, or leaves a known key alone |
| DuplicateSubmit.DuplicateSubmitGuard.SetOutcome | bridge/src/share_handler/duplicate_submit.rs:79-85 | refreshes timestamp and outcome without moving the key; ignores unknown keys |
| DuplicateSubmit.DuplicateSubmitGuard.RespondOnDuplicate | bridge/src/share_handler/submit/duplicate.rs:12-58 | atomic check-and-register: handled exactly when the key was retained, and then answered true for in-flight and accepted, stale, bad, or low-difficulty if the request has an id; otherwise the key is now in flight |
| DuplicateSubmit.EveryCallSequenceRuns | bridge/src/share_handler/duplicate_submit.rs:35-86 | every sequence of calls, with any clock readings, is a run of consistent tables |
| DuplicateSubmit.ReachableTables | bridge/src/share_handler/duplicate_submit.rs:35-77 | in every reachable state the queue has no repeats, equals the key set of the map (so the missing-entry arm of prune is dead), and has at most max_entries + 1 keys |
| DuplicateSubmit.TableRemembersLastTouch | bridge/src/share_handler/duplicate_submit.rs:64-85 | every retained entry is exactly what the last call that touched its key wrote |
| DuplicateSubmit.QueueIsInAdmissionOrder | bridge/src/share_handler/duplicate_submit.rs:64-77 | the queue is sorted by admission, although timestamps along it are not |
| DuplicateSubmit.ForgottenForAReason | bridge/src/share_handler/duplicate_submit.rs:35-57 | a key is only dropped after its own ttl passed or after max_entries newer keys were admitted |
| DuplicateSubmit.RememberedIff | bridge/src/share_handler/duplicate_submit.rs:35-85 | over any run, a key in the table outlives a call's prune if and only if some key of the table admitted no later was last touched at most ttl ago and fewer than max_entries keys of the table were admitted after it |
| DuplicateSubmit.ReadmissionNeedsExpiryOrEviction | bridge/src/share_handler/duplicate_submit.rs:35-85 | between two admissions of a key some call dropped it, more than ttl after its last touch or with max_entries distinct other keys admitted since |
| DuplicateSubmit.DuplicateGetsLastOutcome | bridge/src/share_handler/submit/duplicate.rs:18-57 | while there is no such reason, no other submitter is admitted and each sees the outcome last recorded |
| DuplicateSubmit.OtherSubmittersAreAnswered | bridge/src/share_handler/submit/duplicate.rs:29-55 | other submitters of an admitted key are answered true until its outcome is recorded, and afterwards true, stale, low-difficulty or bad as the outcome last recorded says |
| VarDiff.FloorPow2Brackets | bridge/src/stratum/stratum_server.rs:86-89 | rounding down gives the power of two that brackets the value |
| VarDiff.QuietTick | bridge/src/share_handler/vardiff.rs:36-60 | a window that is short, or has fewer than 3 shares without being silent for 90 s, changes nothing |
| VarDiff.SilentTick | bridge/src/share_handler/vardiff.rs:43-56 | a window silent for 90 s aims at half the difficulty, raised to 1 and rounded to a power of two with the clamp, and reports it unless it is the present one |
| VarDiff.BusyTick | bridge/src/share_handler/vardiff.rs:62-90 | a window of 30 s with 3 shares changes nothing strictly inside (3/4, 5/4); outside it aims at the difficulty times the root of the ratio, at most doubled or halved, raised to 1 and rounded, and reports it if it is 10% away |
| VarDiff.RatioMeans | bridge/src/share_handler/vardiff.rs:62-63 | the ratio times the configured rate (at least 1) times the window is 60 times the shares |
| VarDiff.SilenceHalves | bridge/src/share_handler/vardiff.rs:43-56 | silence halves a power of two and leaves 1 alone, with the clamp or without |
| VarDiff.SilenceHalvesUnclamped | bridge/src/share_handler/vardiff.rs:43-56 | silence halves any difficulty from 2 up without the clamp |
| VarDiff.SilentRunComesDown | bridge/src/share_handler/vardiff.rs:43-56 | a worker that stays silent is at 2^(k-i) after i windows from 2^k, and at 1 from then on |
| VarDiff.SteadyTickUp | bridge/src/share_handler/vardiff.rs:58-90 | above the band the new ratio is the root of the old one, or half of it above 4; the 10% filter never blocks |
| VarDiff.SteadyTickDown | bridge/src/share_handler/vardiff.rs:58-90 | below the band the new ratio is the root, or twice the old one below 1/4, unless the difficulty lands on the floor |
| VarDiff.OneStepCloser | bridge/src/share_handler/vardiff.rs:58-90 | a tick leaves the difficulty alone if and only if it is at rest, otherwise gets strictly closer, and never crosses ratio 1 |
| VarDiff.SteadyRunConverges | bridge/src/share_handler/vardiff.rs:58-90 | a steady unclamped run never overshoots and is at rest after at most 3 adjustments plus the halvings or doublings into [1/4, 4] |
| VarDiff.TickStaysWithinDouble | bridge/src/share_handler/vardiff.rs:43-90 | under any window an unclamped tick stays within half and double and at 1 or more; silence never raises it |
| VarDiff.StartDiffIsPow2 | bridge/src/stratum/stratum_server.rs:86-92 | the clamped start difficulty is the power of two that brackets the configured value from below, the unclamped one is the value, and zero stands for 4 |
| VarDiff.ClampedTick | bridge/src/share_handler/vardiff.rs:15-91 | under any window a clamped tick from a power of two keeps, doubles or halves it, and never halves 1 |
| VarDiff.ClampedRunStaysOnPowersOfTwo | bridge/src/share_handler/vardiff.rs:15-91 | every difficulty of every clamped run of consecutive ticks is a power of two of at least 1, every change exactly a factor of two |
| VarDiff.ClampedSteadyRunSettles | bridge/src/share_handler/vardiff.rs:15-91 | a steady clamped run is at rest or in a two-step cycle once it has made enough ticks |
| VarDiff.ClampedSteadyRunRestsUnlessCycle | bridge/src/share_handler/vardiff.rs:15-91 | it is at rest for good if and only if no power of two has its ratio in [1.25, 1.5]; otherwise it alternates for ever between one and its double |
| VarDiff.SmallestCycle | bridge/src/share_handler/vardiff.rs:67-90 | 1.25 has a cycle, between difficulties 1 and 2, and no smaller c has one |
| VarDiff.EndlessAlternation | bridge/src/share_handler/vardiff.rs:15-91 | for every n, n ticks on concrete windows of 10 and 5 shares in a minute at a target of 8 that go round between 1 and 2 |
| VarDiffThread.VarDiffHandler.VarDiffTick | bridge/src/share_handler/lifecycle.rs:664-682 | uninterrupted, the loop gives every live worker either a new difficulty, start time and zero counter, or no change |
| VarDiffThread.VarDiffHandler.SetClientVarDiff | bridge/src/share_handler/lifecycle.rs:104-115 | uninterrupted, sets the difficulty, opens a new window and returns the previous difficulty; a pruned worker is left alone and the connection's difficulty returned |
| VarDiffThread.VarDiffHandler.StartClientVarDiff | bridge/src/share_handler/lifecycle.rs:124-132 | uninterrupted, opens the first window only, and only of a live worker |
| VarDiffThread.LoneTickIsThreadTick | bridge/src/share_handler/lifecycle.rs:665-681 | the tick's accesses, one after the other with nothing in between, are the tick of the class |
| VarDiffThread.LoneSetIsSetClientVarDiff | bridge/src/share_handler/lifecycle.rs:109-114 | so are the accesses of a set, and the previous difficulty it holds |
| VarDiffThread.LoneStartIsStartClientVarDiff | bridge/src/share_handler/lifecycle.rs:128-131 | and those of a start |
| VarDiffThread.ThreadTickMeans | bridge/src/share_handler/lifecycle.rs:667-681 | a tick leaves a worker alone that has no window or calls for no change, and otherwise sets difficulty, start and counter |
| VarDiffThread.SilentWorkerIsHalved | bridge/src/share_handler/lifecycle.rs:667-681 | a worker at a power of two whose window was silent for 90 s gets half of it and a fresh window |
| VarDiffThread.TickActsOnWhatItRead | bridge/src/share_handler/lifecycle.rs:671-676 | with anything in between, the tick decides on the start and the counter it has read |
| VarDiffThread.TickWritesWhatItDecided | bridge/src/share_handler/lifecycle.rs:678-680 | and writes that decision, its own reading of the clock and zero |
| VarDiffThread.WindowLaw | bridge/src/share_handler/lifecycle.rs:665-681 | in every state of every interleaving: shares found since the clock reading that opened the window = counter + shares found between that reading and the last reset |
| VarDiffThread.CounterIsExactIffGapIsEmpty | bridge/src/share_handler/lifecycle.rs:665-681 | whenever nobody is opening a window, the counter is the window's number of shares if and only if none was found between the opening reading and the reset; it is never more |
| VarDiffThread.AdjustmentGap | bridge/src/share_handler/lifecycle.rs:665-681 | the shares between an adjusting tick's clock reading and its reset are those charged to the old window, before its reading of the counter, and those counted nowhere, after it |
| VarDiffThread.ShareCanBeLost | bridge/src/share_handler/lifecycle.rs:672-680 | a run that ends settled with counter 0 and one share found in the open window |
| VarDiffThread.DecisionNeedsAWindow | bridge/src/share_handler/vardiff.rs:43-60 | a decision to adjust needs a window of 30 s with 3 shares or of 90 s with none, and its difficulty is new and at least 1 |
| VarDiffThread.AdjustmentsAreSpaced | bridge/src/share_handler/lifecycle.rs:664-681 | if no window start is written more than skew out of order, two adjustments of a worker are at least 30 s less skew apart |
| VarDiffThread.LateSetShortensSpacing | bridge/src/share_handler/lifecycle.rs:109-113 | for any skew up to 30 s, a run in which a set that read the clock before an adjustment and wrote after it lets two adjustments come exactly 30 s less skew apart |
| VarDiffThread.SpacingKeptIffStartsInOrder | bridge/src/share_handler/lifecycle.rs:104-132 | the 30 s are kept in all runs with a given skew if and only if the skew is zero |
| VarDiffThread.ClampedDifficultyIsExplained | bridge/src/share_handler/lifecycle.rs:109-132 | with the clamp on, in every state of every interleaving the difficulty is a power of two, the seed, or one set before; an adjustment writes a power of two whatever was set |
| VarDiffThread.ClampedDifficultyStaysOnPow2 | bridge/src/share_handler/lifecycle.rs:109-132 | so a seed and sets of 0 or powers of two keep it 0 or a power of two |
| VarDiffThread.ClampedDecisionIsAFactorOfTwo | bridge/src/share_handler/vardiff.rs:15-91 | a clamped decision made at a power of two doubles or halves the difficulty it read |
| Nonces.SteppingIsNonceAt | bridge/src/cpu_miner/rkstratum_cpu_miner.rs:253-284 | the wrapping start and increments compute (i * 1_000_000_007 + k * T) mod 2^64 |
| Nonces.DisjointBeforeWrapIffCoprime | bridge/src/cpu_miner/rkstratum_cpu_miner.rs:240-284 | as long as no thread starts beyond 2^64: the threads share no nonce below the first wrap if and only if the thread count is coprime to 1_000_000_007 |
| Nonces.DisjointThroughWrapIffPowerOfTwo | bridge/src/cpu_miner/rkstratum_cpu_miner.rs:240-284 | through wrap-around they share none if and only if the thread count divides 2^64 |
| CpuMiner.SharedWork.Publish | bridge/src/cpu_miner/rkstratum_cpu_miner.rs:68-73 | bumps the wrapping version and stores the work |
| CpuMiner.SharedWork.PollUpdate | bridge/src/cpu_miner/rkstratum_cpu_miner.rs:75-91 | one turn of the wait: wait exactly when the version is the one seen and no shutdown is flagged, return the last seen version on shutdown, or version and work if it is newer |
| CpuMiner.StepsFollowTheWait | bridge/src/cpu_miner/rkstratum_cpu_miner.rs:75-91 | the enabled steps of a waiting thread are those the source decides on, and a thread that gets work mines it |
| CpuMiner.ExecutionKeepsInv | bridge/src/cpu_miner/rkstratum_cpu_miner.rs:57-91 | the protocol invariant holds in every state of every interleaving until 2^64 publications |
| CpuMiner.NoPublishedWorkIsMissed | bridge/src/cpu_miner/rkstratum_cpu_miner.rs:68-91 | a parked thread has seen the current version, work is present exactly from version 1 on, and a mining thread holds the work published under its version |
| CpuMiner.OneBlockPerVersion | bridge/src/cpu_miner/rkstratum_cpu_miner.rs:255-299 | each thread sees strictly increasing versions and sends at most one block per version, which solves that version's work |
| CpuMiner.SentExactlyTheSolved | bridge/src/cpu_miner/rkstratum_cpu_miner.rs:272-281 | in every execution the blocks sent are exactly the attempts whose nonce solves the work of their version |
| CpuMiner.MiningTurn | bridge/src/cpu_miner/rkstratum_cpu_miner.rs:272-284 | a nonce that passes is sent and ends the work on the version; one that does not moves the thread one stride on |
| CpuMiner.ThreadsComeToTheWait | bridge/src/cpu_miner/rkstratum_cpu_miner.rs:75-79 | a thread at the top of its loop goes to the wait, and a sleeping one can wake into it |
| CpuMiner.LookAtTheSlot | bridge/src/cpu_miner/rkstratum_cpu_miner.rs:293-297 | after a miss the thread goes on mining if and only if it has seen the current version |
| CpuMiner.NoNonceIsSkipped | bridge/src/cpu_miner/rkstratum_cpu_miner.rs:251-284 | what a thread has tried are its nonces from the first on, without a gap |
| CpuMiner.VersionsAreThePublications | bridge/src/cpu_miner/rkstratum_cpu_miner.rs:68-73 | version v of the work is the v-th block published; no thread leaves before shutdown is flagged |
| CpuMiner.ShutdownReachesEveryThread | bridge/src/cpu_miner/rkstratum_cpu_miner.rs:93-95 | once shutdown is flagged and the waiters are notified, every thread can leave by at most three steps of its own |
| CpuMiner.NoWorkIsRepeated | bridge/src/cpu_miner/rkstratum_cpu_miner.rs:251-299 | over any interleaving no nonce is tried twice on the same work, for a coprime thread count before wrap-around |
| CpuMiner.NoTwoThreadsShareANonce | bridge/src/cpu_miner/rkstratum_cpu_miner.rs:251-299 | for a thread count dividing 2^64 two threads never try the same nonce, through any wrap-around |
| BlockAccounting.Ledger.GetCreateStats | bridge/src/share_handler/lifecycle.rs:76-102 | returns the live entry of the name and changes nothing; when there is none, appends a fresh row seeded with the connection's difficulty and links it |
| BlockAccounting.Ledger.PruneStats | bridge/src/share_handler/lifecycle.rs:155-174 | keeps exactly the workers with a share, or started less than 180 s ago, whose last share is less than 600 s old; touches no row |
| BlockAccounting.Ledger.ConfirmBlock | bridge/src/share_handler/submit/block_submit.rs:316-361 | the bounded polling loop: both counters and the blue metric go up by one if one of the first 30 answers is blue, otherwise only the not-blue metric does |
| BlockAccounting.ExecutionKeepsInv | bridge/src/share_handler/submit/block_submit.rs:306-361 | the accounting invariant holds in every interleaving of accepts, recordings, spawns, polls, increments, shares and prunes |
| BlockAccounting.BlocksAreConserved | bridge/src/share_handler/submit/block_submit.rs:306-361 | recorded acceptances = blue + not blue + running tasks + tasks about to be spawned; all workers' blocks = all-time blocks + tasks between the two increments; all-time blocks = blue + tasks about to record |
| BlockAccounting.LiveAndPrunedBlocks | bridge/src/share_handler/lifecycle.rs:155-174 | in any one state, live blocks plus pruned workers' blocks = all-time blocks + tasks between the two increments; live entries are distinct |
| BlockAccounting.PrintedTotals | bridge/src/share_handler/lifecycle.rs:366-388 | with every counter of a print read in a state of its own, the printed live sum is at least the printed total less pruned workers' blocks; with the blocks of all rows the print does not show, it is at most the all-time total and the tasks between increments at the print's end |
| BlockAccounting.PrintOkIffEnoughIsLeftOut | bridge/src/share_handler/lifecycle.rs:366-388 | a print's live sum exceeds its total by no more than the tasks between increments if and only if no more blocks are counted during it than it leaves out of what the workers have found by its end |
| BlockAccounting.PrintsOkIffQuiet | bridge/src/share_handler/lifecycle.rs:366-388 | all prints with at most k blocks counted during them keep that bound if and only if k is zero |
| BlockAccounting.PrintCanShowMoreLiveThanTotal | bridge/src/share_handler/lifecycle.rs:366-388 | a run whose print shows live 1 and total 0 though no task is between its increments at either end |
| BlockAccounting.LiveAfterStep | bridge/src/share_handler/lifecycle.rs:155-174 | only a prune drops a worker, exactly when its row is not recent enough, and no step relinks a live name |
| BlockAccounting.LiveWorkerKeepsItsRow | bridge/src/share_handler/lifecycle.rs:76-102 | in any interleaving a live worker keeps its row for as long as every prune finds it recent enough |
| BlockAccounting.RowsRememberTheirShares | bridge/src/share_handler/submit/finish.rs:47-54 | in any interleaving a row has the number of its shares and the time of the last one |
| BlockAccounting.BlockStaysWithItsWorker | bridge/src/share_handler/submit/block_submit.rs:306-328 | an accepted block stays with the row its worker had at the acceptance, which keeps the worker's name |
| BlockAccounting.BlueIffAnsweredBlue | bridge/src/share_handler/submit/block_submit.rs:316-351 | a task is recorded blue, or on the way there, exactly when one of its answers was blue, and not blue exactly when 30 answers were not |
| BlockAccounting.WorkerCountsItsOwnBlocks | bridge/src/share_handler/submit/block_submit.rs:316-328 | a worker's counter is the number of its own counted blocks, pruned meanwhile or not |
| BlockAccounting.EveryTaskEnds | bridge/src/share_handler/submit/block_submit.rs:316-351 | in any interleaving a task polls at most 30 times, ends within 33 of its own steps after it is spawned, and an ended task never moves |
| BlockAccounting.LoneTaskIsConfirmBlock | bridge/src/share_handler/submit/block_submit.rs:316-361 | a task of the step system, left alone, does what the loop does |
| Preimage.SerializeBlockHeader | bridge/src/mining/hasher.rs:203-269 | the nested loops feed the hasher exactly the encoded header |
| Preimage.FirstNonZero | bridge/src/mining/hasher.rs:254-260 | finds the first byte that is not zero, or the end |
| Preimage.ParseInvertsEncode | bridge/src/mining/hasher.rs:203-269 | a reader gets back every field of every header, whatever follows the stream; timestamp and nonce come back zero |
| Preimage.ParsedMeansEncoded | bridge/src/mining/hasher.rs:203-269 | the reader accepts nothing but streams of the serializer |
| Preimage.SameStreamIffSameHashedPart | bridge/src/mining/hasher.rs:199-269 | two headers give the same stream if and only if they agree on all fields except timestamp and nonce; no stream is a proper prefix of another |
| Preimage.FieldsLayout | bridge/src/mining/hasher.rs:207-266 | which bytes of the stream are which field |
| Preimage.ParentsLayout | bridge/src/mining/hasher.rs:214-224 | and which are the parents: each level's length, then its hashes in order |
| Preimage.ReadBlueWork | bridge/src/mining/hasher.rs:253-262 | blue work survives the stripping of its leading zeros |
| JobParams.GenerateJobHeader | bridge/src/mining/hasher.rs:274-290 | as many little-endian words as the data has, up to four, whose bytes are the data |
| JobParams.GenerateLargeJobParams | bridge/src/mining/hasher.rs:410-438 | big-endian words and the byte-swapped timestamp print as the IceRiver string of the first 32 bytes; shorter data panics |
| JobParams.JobParamsLayout | bridge/src/mining/hasher.rs:300-405 | the job string character by character: hash bytes in order, timestamp bytes from the lowest up, high digit first |
| JobParams.JobParamsDecode | bridge/src/mining/hasher.rs:300-405 | the IceRiver string has 80 characters and decodes to the hash and the timestamp |
| Float64.IntegerIsKeptIffFits | bridge/src/mining/hasher.rs:185 | double precision keeps an integer exactly if and only if its odd part is below 2^53 |
| Float64.HalfEvenIsNearest | bridge/src/mining/hasher.rs:185 | the nearest integer, and at a tie the even one |
| Float64.RoundF64Means | bridge/src/mining/hasher.rs:185 | between 2^52 and 2^53 rounding is to the nearest integer, and it commutes with doubling |
| Float64.RoundingIsMonotone | bridge/src/mining/hasher.rs:185 | rounding to double precision keeps the order |
| Float64.RoundingError | bridge/src/mining/hasher.rs:185 | its relative error is at most 2^-53 |
| Targets.TargetFallsWithDifficulty | bridge/src/mining/hasher.rs:167-191 | the target never rises with the difficulty, over all positive difficulties that have one, saturated ones included; from 1e-18 up all have one |
| Targets.TargetByCases | bridge/src/mining/hasher.rs:167-191 | 2^224 - 1 for no positive difficulty, no target for one that rounds to less than 10^-18, and otherwise the quotient by the rounded, cut and saturated product |
| Targets.IntegerTarget | bridge/src/mining/hasher.rs:167-191 | for an integer difficulty d below saturation the target is the exact floored quotient if and only if d * 10^18 has a 53-bit significand; above saturation it is constant |
| Targets.ExactTargetsEndAt2363 | bridge/src/mining/hasher.rs:167-191 | the integer difficulties below 2363 have the exact target, and 2363 does not |
| Targets.TargetBracketsQuotient | bridge/src/mining/hasher.rs:180-190 | for real difficulties below saturation the target is the quotient up to a relative error of 2^-53 and 1e-18 in the difficulty |
| Targets.TargetAtPowerOfTwo | bridge/src/mining/hasher.rs:167-191 | 2^(224-k) - 1 at difficulty 2^k for every k up to 68 |
| Targets.DoublingDifficultyHalvesTarget | bridge/src/mining/hasher.rs:167-191 | one power-of-two step halves the target, rounding down |
| Targets.StratumTargetIsPlainQuotient | bridge/src/mining/hasher.rs:84-98 | the factor 1000 cancels for every positive difficulty, and survives at zero |
| Targets.CompactTargetIsIdealIffShiftFits | bridge/src/mining/hasher.rs:444-462 | the target is floor(mantissa * 256^(exponent-3)) if and only if the shift fits 32 bits or the mantissa is zero |
| Targets.TargetOfBits | bridge/src/mining/hasher.rs:444-462 | what is computed in any case: the true shift modulo 2^32 is applied |
| Targets.HugeBitsMissTheFormula | bridge/src/mining/hasher.rs:452-459 | a 64-bit input that misses the formula |
| Targets.BitsOrderIsTargetOrder | bridge/src/mining/hasher.rs:444-462 | normalized bits compare exactly like their targets |
| JobRing.MiningState.AddJob | bridge/src/mining/mining_state.rs:54-79 | appends to the job history, numbers the job, and overwrites its slot in both maps |
| JobRing.MiningState.GetJob | bridge/src/mining/mining_state.rs:85-91 | the newest job of the history on the id's slot |
| JobRing.MiningState.GetJobIdAtSlot | bridge/src/mining/mining_state.rs:94-97 | the id of that same job |
| JobRing.MiningState.RingSize | bridge/src/mining/mining_state.rs:24-27 | both maps hold min(n, 300) slots |
| JobRing.LookupIsExactIffRecent | bridge/src/mining/mining_state.rs:85-91 | a look-up gives the job asked for if and only if it is one of the last 300 issued |
| JobRing.LookupAnswersIffSlotUsed | bridge/src/mining/mining_state.rs:85-91 | any id is answered once its slot was used, always with one of the last 300 jobs |
| PostLimiter.PostLimiter.CheckPost | bridge/src/prom/http/ops_access.rs:119-129 | let through exactly when fewer than limit stored hits are less than 60 s old; those and the new one are kept; other addresses are untouched |
| PostLimiter.WindowsAreLimited | bridge/src/prom/http/ops_access.rs:119-129 | with readings at most skew out of order, every window of 60 s less skew holds at most limit allowed POSTs |
| PostLimiter.DeniedIffLimitReached | bridge/src/prom/http/ops_access.rs:125-128 | with readings in order a POST is denied if and only if exactly limit were allowed in the 60 s up to it |
| PostLimiter.LateReadingBreaksPromise | bridge/src/prom/http/ops_access.rs:120-129 | one reading a millisecond late lets limit + 1 POSTs through in a minute |
| PostLimiter.PromiseKeptIffReadingsInOrder | bridge/src/prom/http/ops_access.rs:119-129 | the 60 s promise is kept in all runs with a given skew if and only if the skew is zero or the limit is one |
| LineCodec.LineBuffer.PushAndDrainLines | bridge/src/stratum/stratum_line_codec.rs:26-37 | the loop returns the lines of buffer and chunk and leaves the unfinished one |
| LineCodec.LineBuffer.AppendLineData | bridge/src/stratum/stratum_line_codec.rs:11-17 | appends exactly when the byte lengths fit, otherwise changes nothing |
| LineCodec.LineBuffer.ReadChunk | bridge/src/stratum/stratum_listener/client_io/read_loop.rs:297-308 | within 65536 bytes the lines of buffer and chunk are returned and the unfinished one kept, otherwise nothing changes and the loop gives up |
| LineCodec.FrameSplitsAtNewlines | bridge/src/stratum/stratum_line_codec.rs:29-31 | the reference splitting: rejoining gives the text, no piece has a newline |
| LineCodec.TrimCutsWhiteSpace | bridge/src/stratum/stratum_line_codec.rs:30 | trimming cuts all white space at both ends, carriage returns included, and nothing else |
| LineCodec.LinesAreTheTrimmedPieces | bridge/src/stratum/stratum_line_codec.rs:26-37 | the lines are the pieces between newlines, in order, trimmed, without the blank ones |
| LineCodec.LinesOfConcat | bridge/src/stratum/stratum_line_codec.rs:26-37 | splitting a stream in two changes neither its lines nor its unfinished end |
| LineCodec.ChunkingDoesNotMatter | bridge/src/stratum/stratum_line_codec.rs:26-37 | for any chunks, the drained lines and the final buffer are those of the whole stream |
| LineCodec.SurvivesIffPendingFits | bridge/src/stratum/stratum_listener/client_io/read_loop.rs:297-308 | a connection survives its chunks if and only if each fits the limit together with the unfinished line before it |
| LineCodec.StripNulByChunks | bridge/src/stratum/stratum_line_codec.rs:20-22 | NUL stripping distributes over chunks and leaves no NUL |
| LineCodec.StripNulKeepsTheRest | bridge/src/stratum/stratum_line_codec.rs:20-22 | it keeps every other byte, in order |

## Left out

- Networking, RPC, HTTP routing, logging, metrics registration, dashboards, configuration and the desktop shell: plumbing.
- Floating-point rounding in the controller, NaN and infinity: difficulties and ratios are reals; the square root is a witness that squares to the ratio.  The one rounding that is modelled is that of the scaled difficulty in Targets.
- RoundF64: the range of exponents is unbounded; a product that overflows saturates the cast like any large one, and subnormals are cast to zero.
- SteadyTickUp, SteadyTickDown, SteadyRunConverges: a steady miner is one whose every window is long enough and shows exactly the ratio c / difficulty; random share arrival is not modelled.
- CpuMiner: the wait blocks, so `wait_for_update` is one turn of its loop plus the step system; wake-up by the shutdown flag is not claimed to be reliable, since it is raised and notified without the lock.
- ExecutionKeepsInv: in CpuMiner the claims hold until the 64-bit version counter wraps.
- AddJob: the 64-bit job counter does not wrap in the model.
- RespondOnDuplicate: sending the reply can fail in the source; the model stops at the reply chosen.
- SerializeBlockHeader: the block hash itself is not modelled; blue work is 24 bytes wide, and the proofs use nothing about that width except that it is at most 255.
- DiffToTarget: the two alternative target variants chosen by environment variables, `diff_to_hash` and `big_diff_to_little` are not modelled, except the Stratum variant's own function.
- PruneTick, PruneStats: the pruner's two readings of a row, `last_share` and `shares_found`, are one step; which rows it drops matters to no conservation law.
- BlockAccounting: sums of shares, stale and invalid counters are not modelled; rejected and failed submissions end before accounting starts.
- VarDiffTick, SetClientVarDiff, StartClientVarDiff: as methods they run uninterrupted; the step system has their accesses one by one, for the stats object of one worker.  The source's `var_diff_window` field is only ever reset and is omitted.
- WindowsAreLimited: runs are those of one address; that addresses are independent is the contract of CheckPost.
- PushAndDrainLines: chunks are already decoded text; UTF-8 decoding at chunk edges is not modelled.
- The submit parser, the PoW loop with its job-id workaround, extranonce assignment, bearer and CSRF checks: not part of this model.

# ReproMPI: verified model of its synchronization, measurement and logging cores

ReproMPI measures MPI collectives. Its measurements are only as good as the algorithms underneath them:
the collectives used to line processes up, the clock synchronization, the loops that decide which
measurements count, and a few shared utilities. This project models those cores in Dafny and proves what
they are for.

* **Collectives** (`RoundExchange`, `Allreduce`, `DisseminationBarrier`, `BinomialBroadcast`). All ranks run
  asynchronously over FIFO channels between pairs of ranks (MPI 3.1, section 3.5). `RoundExchange` proves once,
  for any protocol of matched send-receive rounds, that asynchronous runs agree with lockstep, never
  deadlock and leave no message behind; the circulant Allreduce and the dissemination barrier are instances.
  The broadcast has its own machine.
* **Clock synchronization** (`ClockModels`, `Hca`, `Hca3`, `Skampi`, `ClockPropagation`). Affine models under merging,
  the bottom-up and the top-down tree algorithm and their agreement, the two-party offset measurement with
  its error bound, and the byte-level transfer of nested clocks.
* **Measurement runs** (`RoundTime`, `Window`). Which attempts are kept, and what is known about them.
* **Logging** (`TimeCache`, `LogLine`, `HexDump`). The lock-free cache under any interleaving of threads, the
  truncating line writer, and the memory dump, which can be read back.
* **Data cores** (`RankSum`, `Dictionary`). The rank-sum merge and the chained hash table.
* **Helpers** (`Bits`, `Ranks`, `Sums`, `Reals`, `Options`).

Conventions. Clock readings are real numbers. `floor(log2 n)`, `ceil(log2 n)` and `pow(2, i)` are integer
functions. Bitwise operations are defined on natural numbers digit by digit. Each rank's loop is a method; the
messages it receives are an input, and what it sends is an output that is tied to the machine over all
ranks. A loop that need not end is described by its state after any number of turns. In HCA the barrier after every round allows the pairs of a round to be taken one after the other, each
rank with an array of its own. Memory that holds raw numbers is a sequence of symbolic bytes: byte k of a stored
int or double. HCA works on any associative merge with a unit (`Hca.Merging`); the code's models are one.

Where the code is narrower than its purpose, the exact condition is proved: the broadcast needs root 0
(`FinishesExactlyFromRootZero`), the offset measurement needs readings that cannot be mistaken for the
sentinel (`FinishesExactlyWithSafeReadings`), clock propagation needs at most two levels with offset clocks at
the bottom (`ClockPropagation.SynchronizeAllClocks`), the dictionary is a map as long as no key is removed that
heads a longer bin (`ActsAsMapExactly`), the expected rank sum needs samples of the same even size
(`ExpectedValueExact`), and a memory dump of width zero ends only if there is nothing to put out or no room for
it (`DumpEndsExactly`). Two ranks can exchange in two rounds of the dissemination barrier, exactly if the number
of ranks is the sum of the two distances (`PairExchangesTwice`), which does no harm. A run that times out in an
invalid attempt reports one valid measurement less than it has (`ReportedCount`).

## Model

| member | source | states |
|---|---|---|
| `Bits.Flp2IsTopBit` | src/reprompi_bench/sync/process_sync/reprompi_collectives.c:36-44 | for every 32-bit word the shift-and-or cascade yields exactly its top bit, and 0 only for 0 |
| `RoundExchange.RunsAgreeWithLockstep` | src/reprompi_bench/sync/process_sync/reprompi_collectives.c:92-131 | in every interleaving over FIFO channels a rank that has finished k send-receive rounds is in the state it would have if all ranks moved in lockstep, even when a pair exchanges in several rounds |
| `RoundExchange.NeverStuck` | src/reprompi_bench/sync/process_sync/reprompi_collectives.c:110-111 | a reachable state without a next step is exactly one in which every rank has finished |
| `RoundExchange.NoMessageLeft` | src/reprompi_bench/sync/process_sync/reprompi_collectives.c:110-111 | when all ranks have finished, every channel is empty: sends and receives matched one to one |
| `RoundExchange.RunsAreBounded` | src/reprompi_bench/sync/process_sync/reprompi_collectives.c:92-131 | no run has more than 2 * p * rounds steps, and exactly that many once all ranks are done |
| `Allreduce.BuffersHoldRanges` | src/reprompi_bench/sync/process_sync/reprompi_collectives.c:92-131 | in every reachable state of every interleaving rank r holds the reduction over ranks r..r+c0 in recvbuf and over r+1..r+c0 in partbuf, c0 being the digits of size-1 read so far |
| `Allreduce.AllreduceCorrect` | src/reprompi_bench/sync/process_sync/reprompi_collectives.c:50-138 | for every size, rank and associative-commutative operation a finished rank holds the reduction over all inputs, each used once |
| `Allreduce.AllreduceCompletes` | src/reprompi_bench/sync/process_sync/reprompi_collectives.c:50-138 | every run ends with all ranks holding the full reduction and no message left |
| `Allreduce.MessagesAreInitialised` | src/reprompi_bench/sync/process_sync/reprompi_collectives.c:89-118 | partbuf is never sent before it was written |
| `Allreduce.ReceiveAndReduce` | src/reprompi_bench/sync/process_sync/reprompi_collectives.c:110-118 | a received block is reduced into both buffers, except that in the first round it lands in partbuf itself |
| `Allreduce.ShiftIn` | src/reprompi_bench/sync/process_sync/reprompi_collectives.c:120-128 | c0, c1 and c after a digit: c0 doubles and takes the digit in, c1 stays c0 + 1 |
| `Allreduce.AllreduceBitwiseCommutative` | src/reprompi_bench/sync/process_sync/reprompi_collectives.c:50-138 | the loop of one rank sends, to the right partners, exactly what the protocol prescribes for the messages it receives, takes them from the right partners, and the number of blocks received equals size (the check that is commented out in the source) |
| `Allreduce.LocalStateIsSync` | src/reprompi_bench/sync/process_sync/reprompi_collectives.c:92-131 | a rank fed with its partners' protocol messages goes through the protocol's states, so the code of one rank is the machine's local program |
| `BinomialBroadcast.SendsMatchReceives` | src/reprompi_bench/sync/process_sync/reprompi_collectives.c:147-161 | r's i-th send goes to c exactly when c receives from r in that slot: sends and receives are in bijection |
| `BinomialBroadcast.EveryRankGetsTheRootsValue` | src/reprompi_bench/sync/process_sync/reprompi_collectives.c:140-164 | with root 0 a rank that has returned holds the root's value, in every interleaving |
| `BinomialBroadcast.BroadcastNeverStuck` | src/reprompi_bench/sync/process_sync/reprompi_collectives.c:140-164 | with root 0 a state without a next step has every rank returned and no message left |
| `BinomialBroadcast.RunsAreBounded` | src/reprompi_bench/sync/process_sync/reprompi_collectives.c:154-161 | with root 0 a run's length is the number of sends and receives done, at most 2 * (size - 1) |
| `BinomialBroadcast.FinishesExactlyFromRootZero` | src/reprompi_bench/sync/process_sync/reprompi_collectives.c:154-156 | a run that cannot go on has let all ranks return if and only if the root is rank 0; otherwise rank 0 waits for a message from itself |
| `BinomialBroadcast.BcastBinomial` | src/reprompi_bench/sync/process_sync/reprompi_collectives.c:140-164 | the two loops of one rank: it receives from itself minus its top bit and sends to exactly its children below size, in order |
| `BinomialBroadcast.FinishedRankFollowsLoops` | src/reprompi_bench/sync/process_sync/reprompi_collectives.c:144-161 | in every run a rank that has returned has taken exactly the sends its sending loop lists, to exactly the ranks that wait for it, with the value it received |
| `DisseminationBarrier.NobodyLeavesEarly` | src/reprompi_bench/sync/process_sync/dissem_barrier_impl.c:40-50 | in no interleaving does a rank leave the barrier before every other rank has entered |
| `DisseminationBarrier.EntriesBehind` | src/reprompi_bench/sync/process_sync/dissem_barrier_impl.c:42-49 | a rank that has finished i rounds causally follows the entries of the 2^i ranks up to itself, modulo np |
| `DisseminationBarrier.BarrierCompletes` | src/reprompi_bench/sync/process_sync/dissem_barrier_impl.c:42-49 | the barrier never deadlocks, every run is finite, and no message is left |
| `DisseminationBarrier.PartnersDiffer` | src/reprompi_bench/sync/process_sync/dissem_barrier_impl.c:43-44 | no rank exchanges with itself, and none sends to the same rank in two rounds |
| `DisseminationBarrier.PairExchangesTwice` | src/reprompi_bench/sync/process_sync/dissem_barrier_impl.c:43-44 | a pair exchanges in two different rounds i and j if and only if np is 2^i + 2^j, and then every rank is in such a pair |
| `DisseminationBarrier.ThreeRanksExchangeTwice` | src/reprompi_bench/sync/process_sync/dissem_barrier_impl.c:43-44 | with three ranks, ranks 0 and 1 exchange in both rounds |
| `DisseminationBarrier.RoundDistance` | src/reprompi_bench/sync/process_sync/dissem_barrier_impl.c:40 | ceil(log2 np) rounds are enough to span np ranks, and no distance reaches np |
| `DisseminationBarrier.DisseminationBarrier` | src/reprompi_bench/sync/process_sync/dissem_barrier_impl.c:40-49 | the source's modular expressions for the two partners, evaluated with doubling distances for ceil(log2 np) rounds, give the matched partners of the protocol |
| `ClockModels.MergeIsComposition` | src/reprompi_bench/sync/clock_sync_old/sync_methods/HCAAbstractClockSync.cpp:131-137 | applying a merged model equals applying the child's model, then the parent's |
| `ClockModels.MergeAssociative` | src/reprompi_bench/sync/clock_sync_old/sync_methods/HCAAbstractClockSync.cpp:131-137 | merging is associative |
| `ClockModels.MergeIdentity` | src/reprompi_bench/sync/clock_sync_old/sync_methods/HCAAbstractClockSync.cpp:131-137 | the model (0, 0) is neutral on both sides |
| `ClockModels.ModelDetermined` | src/reprompi_bench/sync/clock_sync_old/clocks/GlobalClockLM.cpp:21-23 | two models that agree on two readings are equal |
| `ClockModels.NestedClockIsOneModel` | src/reprompi_bench/sync/clock_sync_old/clocks/GlobalClock.cpp:15-40 | for any nesting depth convert_to_global_time applies the one model merged from the chain, and get_time is the conversion of the base reading |
| `Hca.PairRound` | src/reprompi_bench/sync/clock_sync_old/sync_methods/HCAClockSync.cpp:87-124 | master and client exchange of one pair, in place in their own arrays: the master's part for the client's subtree becomes the merged models and nothing else changes |
| `Hca.PairDoubles` | src/reprompi_bench/sync/clock_sync_old/sync_methods/HCAClockSync.cpp:101-107 | if both arrays hold the path models of their 2^i ranks, the master's then holds those of 2^(i+1) ranks |
| `Hca.PathThroughClient` | src/reprompi_bench/sync/clock_sync_old/sync_methods/HCAClockSync.cpp:103-106 | the path from inside the right half of a subtree is the client's own model merged with the path inside the half |
| `Hca.MasterTurn` | src/reprompi_bench/sync/clock_sync_old/sync_methods/HCAClockSync.cpp:84-126 | round progress: masters served so far hold 2^(i+1) path models, the others still 2^i |
| `Hca.TreeRounds` | src/reprompi_bench/sync/clock_sync_old/sync_methods/HCAClockSync.cpp:75-128 | after step 1 rank 0 holds the path model of every rank below the largest power of two |
| `Hca.StepTwo` | src/reprompi_bench/sync/clock_sync_old/sync_methods/HCAClockSync.cpp:132-183 | after step 2 rank 0's array holds the path model to rank 0 for every nonzero rank |
| `Hca.MergedModels` | src/reprompi_bench/sync/clock_sync_old/sync_methods/HCAClockSync.cpp:69-188 | for every nprocs the scattered model of a nonzero rank is the merge of the pairwise models along its tree path |
| `Hca.SynchronizeAllClocks` | src/reprompi_bench/sync/clock_sync_old/sync_methods/HCAClockSync.cpp:188-201 | final clocks: slope of the path model, intercept such that the clock meets its fresh measurement, identity for rank 0 |
| `Hca.LinearModelsAreMonoid` | src/reprompi_bench/sync/clock_sync_old/sync_methods/HCAAbstractClockSync.cpp:131-137 | the code's models satisfy what the tree algorithm needs of a merge |
| `Hca.PathModelReadsRankZero` | src/reprompi_bench/sync/clock_sync_old/sync_methods/HCAClockSync.cpp:75-188 | if the pairwise models are exact between affine clocks, the merged model turns a rank's reading into rank 0's at every instant |
| `Hca.FinalClocksReadRankZero` | src/reprompi_bench/sync/clock_sync_old/sync_methods/HCAClockSync.cpp:188-201 | with exact pairwise models a final clock, whose intercept was measured again, reads rank 0's time at every instant if and only if that last measurement was exact; it then is the path model |
| `Hca3.ChildExactlyOnce` | src/reprompi_bench/sync/clock_sync_old/sync_methods/HCA3ClockSync.cpp:66-102 | every nonzero rank is a child in exactly one stage, against its tree parent |
| `Hca3.PartnersAgree` | src/reprompi_bench/sync/clock_sync_old/sync_methods/HCA3ClockSync.cpp:72-106 | both partners of a pairing choose each other in the same stage |
| `Hca3.ParentOnlyAfterChild` | src/reprompi_bench/sync/clock_sync_old/sync_methods/HCA3ClockSync.cpp:72-106 | a rank acts as parent only in stages after the one in which it was synchronized |
| `Hca3.MeetingsJoinSyncedAndFresh` | src/reprompi_bench/sync/clock_sync_old/sync_methods/HCA3ClockSync.cpp:72-106 | in every asynchronous run, whatever is learned, a pairing joins a synchronized parent with a fresh child, whose clock is still its local one |
| `Hca3.SyncedClocksReadRankZero` | src/reprompi_bench/sync/clock_sync_old/sync_methods/HCA3ClockSync.cpp:62-108 | in every asynchronous run whose fits are exact every synchronized rank's clock reads rank 0's time |
| `Hca3.AgreesWithHca` | src/reprompi_bench/sync/clock_sync_old/sync_methods/HCA3ClockSync.cpp:62-108 | when all are done in a run whose fits are exact, each clock's model equals the path model HCA merges |
| `Hca3.NeverStuck` | src/reprompi_bench/sync/clock_sync_old/sync_methods/HCA3ClockSync.cpp:62-106 | although the rounds have no barrier, a reachable state has no next step exactly if all ranks are done, whatever is learned |
| `Hca3.RunsAreBounded` | src/reprompi_bench/sync/clock_sync_old/sync_methods/HCA3ClockSync.cpp:62-106 | every run ends within nprocs * stages steps, whatever is learned |
| `Hca3.SynchronizeAllClocks` | src/reprompi_bench/sync/clock_sync_old/sync_methods/HCA3ClockSync.cpp:42-108 | the descending loop of one rank plays exactly its roles and ends with the model of its one child stage |
| `Skampi.BracketsHold` | src/reprompi_bench/sync/clock_sync_old/clock_offset_algs/SKaMPIClockOffsetAlg.cpp:70-135 | whatever the delays, from its first ping-pong on each side's td_min and td_max contain the true difference, and they are the tightest bounds that any of the ping-pongs between its own readings gives |
| `Skampi.OffsetErrorBound` | src/reprompi_bench/sync/clock_sync_old/clock_offset_algs/SKaMPIClockOffsetAlg.cpp:154-158 | both sides report client minus reference with error at most half of td_max - td_min, which is no more than half of any round trip between their own readings |
| `Skampi.TurnsAreBounded` | src/reprompi_bench/sync/clock_sync_old/clock_offset_algs/SKaMPIClockOffsetAlg.cpp:95-143 | the exchange ends within a number of turns fixed by Number_ping_pongs, for any early stops |
| `Skampi.NoPartyIsLeftWaiting` | src/reprompi_bench/sync/clock_sync_old/clock_offset_algs/SKaMPIClockOffsetAlg.cpp:95-143 | with safe readings no turn is possible exactly when both sides have finished and no message is left |
| `Skampi.FinishesExactlyWithSafeReadings` | src/reprompi_bench/sync/clock_sync_old/clock_offset_algs/SKaMPIClockOffsetAlg.cpp:95-143 | for any parameters, all runs finish if and only if no reading that is tested against the sentinel can be negative: the client starts at a nonnegative reading, and the reference does, or takes no second loop turn, or stops in its first one whenever its clock is still negative |
| `Skampi.RunIsTwoPrograms` | src/reprompi_bench/sync/clock_sync_old/clock_offset_algs/SKaMPIClockOffsetAlg.cpp:70-143 | every run of the machine is the two sides' own programs: with the readings taken in the run, each side's state and messages are what its program makes of them and of the messages the other side sent, in order |
| `Skampi.RefOnReadings` | src/reprompi_bench/sync/clock_sync_old/clock_offset_algs/SKaMPIClockOffsetAlg.cpp:95-122 | the reference in terms of its readings alone: the turn in which it stops (negative message, early stop, last ping-pong), its bracket as the extremes over the completed ping-pongs, and what it sends |
| `Skampi.ClientOnReadings` | src/reprompi_bench/sync/clock_sync_old/clock_offset_algs/SKaMPIClockOffsetAlg.cpp:84-142 | the same for the client |
| `Skampi.MeasureOffsetReference` | src/reprompi_bench/sync/clock_sync_old/clock_offset_algs/SKaMPIClockOffsetAlg.cpp:70-122 | the reference's loop, on any number of messages, is the reference's program |
| `Skampi.MeasureOffsetClient` | src/reprompi_bench/sync/clock_sync_old/clock_offset_algs/SKaMPIClockOffsetAlg.cpp:84-142 | the client's loop, on any number of messages, is the client's program |
| `ClockPropagation.ReachIsSummedSize` | src/reprompi_bench/sync/clock_sync_old/clocks/GlobalClockOffset.cpp:49-63 | flatten_clock uses exactly the summed record sizes when offset clocks sit on the base clock, and at least one record more otherwise |
| `ClockPropagation.FlattenedSizeUpToTwoLevels` | src/reprompi_bench/sync/clock_sync_old/clocks/GlobalClockLM.cpp:42-53 | the coded size equals the summed record sizes for up to two levels, and is a record or more too small beyond |
| `ClockPropagation.FlattenClock` | src/reprompi_bench/sync/clock_sync_old/clocks/GlobalClockLM.cpp:60-75 | flattening stays in the buffer exactly if its reach fits, and then the records of the chain are there, innermost first |
| `ClockPropagation.Decode` | src/reprompi_bench/sync/clock_sync_old/sync_methods/ClockPropagationSync.cpp:89-133 | the receiving loop builds the clock its buffer describes, or stops at unreadable bytes |
| `ClockPropagation.DecodeRecords` | src/reprompi_bench/sync/clock_sync_old/sync_methods/ClockPropagationSync.cpp:92-133 | decoding inverts flattening for chains of any depth |
| `ClockPropagation.PropagateWithSummedSize` | src/reprompi_bench/sync/clock_sync_old/sync_methods/ClockPropagationSync.cpp:51-138 | with a buffer of the summed sizes a chain is rebuilt exactly if its offset clocks sit on the base clock; otherwise rank 0 writes outside its buffer |
| `ClockPropagation.SynchronizeAllClocks` | src/reprompi_bench/sync/clock_sync_old/sync_methods/ClockPropagationSync.cpp:51-138 | with the size the code computes, the chain is rebuilt exactly if and only if it has at most two levels and its offset clocks sit on the base clock; otherwise rank 0 writes outside its buffer |
| `RoundTime.RoundTimeSync.StartSynchronization` | src/reprompi_bench/sync/process_sync/round_time_sync.c:119-157 | an attempt is flagged on a rank exactly if its first look at the clock is not before the common start time |
| `RoundTime.SwitchedForGood` | src/reprompi_bench/sync/process_sync/round_time_sync.c:222-232 | jobs run in barrier mode exactly from the first one on whose count reaches the switch count, if there is one: ranks that start the same jobs are always in the same mode |
| `RoundTime.MeasureOnce` | src/benchmarkCollective.c:204-213 | one attempt stores its times and contributes the packet that says whether the rank was in time and whether its slot is used up |
| `RoundTime.ReducedFlags` | src/reprompi_bench/sync/process_sync/round_time_sync.c:172-188 | the reduced packet is valid exactly if every rank was waiting in time (or in barrier mode), and says stop exactly if some rank's slot is used up |
| `RoundTime.RunCollective` | src/benchmarkCollective.c:204-232 | the loop of one rank depends on the reduced packets only, so all ranks leave together with the same n_rep, which is at most the requested one, and entry j holds the times of the j-th attempt kept (which ones: `SlotsAreValidAttempts`; until when: `EndsExactly`) |
| `RoundTime.EndsExactly` | src/benchmarkCollective.c:213-228 | the loop is over within k attempts if and only if the requested number of them is valid on all ranks or one of them is out of time on some rank; while it runs it has stored as many entries as valid attempts |
| `RoundTime.SlotsAreValidAttempts` | src/benchmarkCollective.c:213-229 | while the loop runs it stores every attempt whose reduced packet is valid and nothing else, in order, and the reported count is theirs, less one if the last attempt is invalid and out of time |
| `RoundTime.KeptEntriesAreSynchronized` | src/benchmarkCollective.c:204-228 | in clock-sync mode every kept entry comes from an attempt in which every rank was already waiting before the common start time |
| `RoundTime.ReportedCount` | src/benchmarkCollective.c:217-222 | all valid attempts are reported, except that a run ending out of time in an invalid attempt gives up its last valid one |
| `RoundTime.BarrierModeNeverRepeats` | src/reprompi_bench/sync/process_sync/round_time_sync.c:121-123 | in barrier mode every attempt is valid |
| `Window.RunWindows` | src/reprompi_bench/sync/process_sync/window_sync.c:158-196 | the k-th repetition gets the error code of the window S+k*w..S+(k+1)*w |
| `Window.WindowSync.StartSynchronization` | src/reprompi_bench/sync/process_sync/window_sync.c:158-178 | a repetition is flagged exactly if its first look at the clock is not before the window |
| `Window.WindowSync.StopSynchronization` | src/reprompi_bench/sync/process_sync/window_sync.c:181-196 | a repetition is flagged if it stops after its window; the next window follows directly |
| `Window.WindowStartClosedForm` | src/reprompi_bench/sync/process_sync/window_sync.c:192 | the k-th window starts at S + k*w |
| `Window.ZeroCodeMeansInTime` | src/reprompi_bench/output_management/runtimes_computation.c:105-114 | the reduced code is zero exactly if every rank waited for the window and stopped inside it |
| `Window.ValidRepetitionInWindow` | src/reprompi_bench/sync/process_sync/window_sync.c:158-196 | a valid repetition lies inside its own window on every rank |
| `Window.ValidRepetitionsDoNotOverlap` | src/reprompi_bench/sync/process_sync/window_sync.c:158-196 | two valid repetitions never overlap, whatever ranks are compared |
| `Window.ValidRuntimeBounds` | src/reprompi_bench/output_management/runtimes_computation.c:79-94 | the time from the earliest start to the latest end of a valid repetition is at most one window and at least each rank's own duration |
| `Window.ReducedIsRuntime` | src/reprompi_bench/output_management/runtimes_computation.c:86-94 | maximum of the ranks' normalized ends minus minimum of their normalized starts bounds the time from any rank's tstart to any rank's tend, and is attained |
| `Window.NormalizeTimes` | src/reprompi_bench/output_management/runtimes_computation.c:79-84 | one rank's times on the global scale |
| `Window.ComputeRuntimes` | src/reprompi_bench/output_management/runtimes_computation.c:79-94 | from all ranks' readings: each run-time is the largest time from some rank's tstart to some rank's tend, on the global scale |
| `Window.CollectErrorcodes` | src/reprompi_bench/output_management/runtimes_computation.c:103-114 | the codes that all ranks give while going through their windows, reduced |
| `Window.SelectValid` | src/reprompi_bench/output_management/results_output.c:354-363 | the in-place selection leaves exactly the values with code zero in front, in order |
| `Window.ValidRepsExact` | src/reprompi_bench/output_management/results_output.c:354-363 | the selected repetitions are exactly those with code zero, ascending |
| `Window.Summary` | src/reprompi_bench/output_management/results_output.c:347-363 | from all ranks' readings: reported are exactly the valid repetitions, in order, each with the time from its earliest tstart to its latest tend, at most one window |
| `TimeCache.CriticalSectionsExclude` | src/log/zf_log.c:754-795 | in every interleaving there are never two writers, nor a writer beside a reader, in their critical sections |
| `TimeCache.LowBitsCountReaders` | src/log/zf_log.c:754-795 | the low bits of the mode word count exactly the threads between increment and decrement |
| `TimeCache.CallbackReturnsLocaltime` | src/log/zf_log.c:797-829 | in every interleaving a call made in second now returns the local time of now, from the cache or not, although cache fields are copied one by one |
| `TimeCache.HitAlone` | src/log/zf_log.c:762-777 | a call that nobody interferes with, made in the second a solid cache holds, is answered with what the cache holds, and the cache stays as it is |
| `TimeCache.MissAlone` | src/log/zf_log.c:762-795 | a call that nobody interferes with, made in another second or with a stale cache, computes the local time and leaves a solid cache that holds it |
| `TimeCache.ModeStep` | src/log/zf_log.c:762-795 | every atomic operation keeps the count in the low bits exact and changes the flag bits as intended |
| `TimeCache.OtherThreadStep` | src/log/zf_log.c:762-795 | a step of another thread never changes what a thread in its critical section relies on |
| `LogLine.WriteLine` | src/log/zf_log.c:1269-1296 | for every mask and every part the line is exactly the ideal concatenation cut off at the capacity |
| `LogLine.WriteDefaultLine` | src/log/zf_log.c:206-244 | the line in the default format: the parts the mask asks for, in order, cut off at 510 characters; `ContextReads`, `TagReads` and `SourceReads` say how the parts read |
| `LogLine.Message.PutPrefixedTag` | src/log/zf_log.c:1120-1133 | prefix, delimiter if the prefix is there, and tag |
| `LogLine.Message.PutTag` | src/log/zf_log.c:1120-1138 | the tag part, with its trailing delimiter only if something was put |
| `LogLine.TagReads` | src/log/zf_log.c:1120-1138 | how the tag part reads, with and without prefix and tag |
| `LogLine.Message.PutStringN` | src/log/zf_log.c:950-961 | a copy cut off at the capacity |
| `LogLine.Message.PutString` | src/log/zf_log.c:963-968 | the same for memccpy with its terminating zero |
| `LogLine.Message.PutCstr` | src/log/zf_log.c:986-991 | the same for the checked character loop |
| `LogLine.Message.PutNprintf` | src/log/zf_log.c:891-910 | the same for vsnprintf, whose terminating zero falls behind the line; a failed expansion leaves the line alone |
| `LogLine.PutSrc` | src/log/zf_log.c:1175-1196 | function, base name and line number |
| `LogLine.SourceReads` | src/log/zf_log.c:1175-1196 | the source part reads function, base name and line number |
| `LogLine.PutFieldsR` | src/log/zf_log.c:1111-1116 | a format tuple written right to left is the concatenation of its fields |
| `LogLine.ContextRoom` | src/log/zf_log.c:1112-1114 | the default context never exceeds the 64 characters it is put together in |
| `LogLine.ContextReads` | src/log/zf_log.c:1087-1116 | the default context column by column: two digits of month from 1, day, hour, minute and second, three of the millisecond, each followed by its separator, then the ids and the level |
| `LogLine.PutDigitsR` | src/log/zf_log.c:919-926 | the digit loop writes the decimal numeral |
| `LogLine.PutUintR` | src/log/zf_log.c:938-942 | an unsigned field: numeral, padded on the left |
| `LogLine.UintFieldReads` | src/log/zf_log.c:912-942 | an unsigned field is as wide as asked for or as its numeral, ends with the numeral and has only padding before it; padded with zeros it is a numeral of the number |
| `LogLine.PutNegativeR` | src/log/zf_log.c:927-934 | a negative field: the sign goes behind blanks and before zeros |
| `LogLine.NegativeFieldReads` | src/log/zf_log.c:912-934 | a negative field is as wide as asked for or as numeral and sign, with the sign right before the numeral behind blanks, or in front of padding zeros |
| `LogLine.PutPaddingR` | src/log/zf_log.c:912-917 | padding up to the width |
| `LogLine.DigitsDenote` | src/log/zf_log.c:925 | a numeral denotes its value, has only digits and no leading zero |
| `LogLine.FileName` | src/log/zf_log.c:878-889 | the part of a path behind its last separator |
| `LogLine.BaseNameIsSuffix` | src/log/zf_log.c:878-889 | that part is the longest suffix without a separator |
| `HexDump.OutputMem` | src/log/zf_log.c:1207-1243 | for any width and any number of loop turns, the lines handed to the callback are those of the dump, each behind what the line holds before its message, none if a full row does not fit, and whether the loop is over |
| `HexDump.FillRow` | src/log/zf_log.c:1225-1239 | both columns of one row, filled in one pass and padded to the fixed width |
| `HexDump.DumpTellsMemory` | src/log/zf_log.c:1223-1242 | a dump can be read back: for every prefix, width and locale its hexadecimal columns give every byte shown so far once, in order |
| `HexDump.EndedDumpTellsAll` | src/log/zf_log.c:1223-1242 | a dump that is over gives back all of the memory |
| `HexDump.DumpLine` | src/log/zf_log.c:1227-1228 | line i exists exactly if bytes are left after i times the width, and shows the next ones |
| `HexDump.DumpLineShows` | src/log/zf_log.c:1225-1239 | a line starts with the prefix, has blanks between the columns, and in the printable column shows each byte itself if it is printable and a question mark otherwise |
| `HexDump.DumpEndsExactly` | src/log/zf_log.c:1210-1228 | a dump ends if and only if the width is not zero, there is nothing to put out, or there is no room for a row |
| `HexDump.WriteWithMemory` | src/log/zf_log.c:1269-1301 | a message with a memory block: its line as above, and the dump behind the line's own context, tag and source exactly if the mask asks for the message |
| `RankSum.RankSums` | src/pgcheck/comparer/statistical_test/wilcoxon_rank_sum.cpp:41-49 | the rank sums add up to 1+...+N, and on sorted samples sample 2's sum is 1+...+m plus the number of pairs with s1[a] <= s2[b] |
| `RankSum.SampleRankSums` | src/pgcheck/comparer/statistical_test/wilcoxon_rank_sum.cpp:38-52 | for unsorted samples the linear merge of their sorted versions yields the quadratic pair count of the samples themselves, and the assertion in the code holds |
| `RankSum.RankSumRange` | src/pgcheck/comparer/statistical_test/wilcoxon_rank_sum.cpp:38-49 | sample 2's rank sum lies between m(m+1)/2 and that plus nm, meets a bound exactly if the samples do not overlap, and both bounds are attained for all sizes |
| `RankSum.MirrorRankSums` | src/pgcheck/comparer/statistical_test/wilcoxon_rank_sum.cpp:68-70 | without ties the rank sums of the samples and of their mirror images add up to the sum of the two bounds: the rank sum is distributed symmetrically around their middle |
| `RankSum.ExpectedValueExact` | src/pgcheck/comparer/statistical_test/wilcoxon_rank_sum.cpp:68-70 | the coded expected value is the middle of the two bounds of sample 2's rank sum if and only if the samples have the same even size (or sizes 1 and 0) |
| `Dictionary.HashTable.Locate` | src/reprompi_bench/utils/keyvalue_store.c:182-187 | the search finds the first entry with the key and its predecessor |
| `Dictionary.HashTable.Get` | src/reprompi_bench/utils/keyvalue_store.c:167-198 | the value stored under the key, if any, and the return code; a missing key is refused |
| `Dictionary.HashTable.Add` | src/reprompi_bench/utils/keyvalue_store.c:113-165 | exactly the key's bin changes, by replacing the value in place or appending an entry; a missing key or value is refused |
| `Dictionary.HashTable.Remove` | src/reprompi_bench/utils/keyvalue_store.c:200-243 | exactly the key's bin changes, by unlinking the entry or, at the head, dropping the bin |
| `Dictionary.HashTable.GetNKeys` | src/reprompi_bench/utils/keyvalue_store.c:245-261 | the number of keys in all bins |
| `Dictionary.HashTable.GetKeys` | src/reprompi_bench/utils/keyvalue_store.c:263-291 | the keys bin by bin |
| `Dictionary.AddMeaning` | src/reprompi_bench/utils/keyvalue_store.c:137-162 | adding stores the value under its key and touches no other key |
| `Dictionary.RemoveMeaning` | src/reprompi_bench/utils/keyvalue_store.c:224-240 | what every key looks up to after a removal |
| `Dictionary.RemoveExactly` | src/reprompi_bench/utils/keyvalue_store.c:226-231 | removal affects its own key only, if and only if the key is not the head of a bin with further entries |
| `Dictionary.ActsAsMapExactly` | src/reprompi_bench/utils/keyvalue_store.c:113-243 | over any sequence of adds and removals every key stays once in its own bin, and all lookups are those of a map if and only if no key is removed that heads a bin with further entries |
| `Dictionary.HashTable.ValidIsTableOk` | src/reprompi_bench/utils/keyvalue_store.c:113-243 | every reachable table satisfies what the results about sequences of operations start from |
| `Dictionary.GetReturnsLastAdd` | src/reprompi_bench/utils/keyvalue_store.c:113-198 | after any sequence of adds, looking a key up gives the last value added under it |
| `Dictionary.KeysListedExactly` | src/reprompi_bench/utils/keyvalue_store.c:263-291 | the listed keys are exactly those that can be looked up, each once |

## Left out

- Floating-point rounding, and the accuracy of `log2` and `pow`: readings are reals, logarithms are integers.
- Linear regression (`LinearModelFitter*`, GSL): a learned model is an input of `Hca`, and is taken to be exact only where a statement says so.
- `Hca3` takes the optional remeasurement of the intercept as part of what is learned.
- The stored minimum ping-pong times of `SKaMPIClockOffsetAlg` and their lookup: both sides may start from any value.
- Process-local details of MPI: datatypes, communicators, tags and error codes; a send-receive is a buffered send followed by a receive.
- `PMPI_Bcast`, `PMPI_Barrier`, `PMPI_Reduce`, `MPI_Gather` and `MPI_Scatter` of the MPI library: taken to deliver what they specify.
- RoundTime.RunCollective: the reduction of each attempt is an input; that it is the maximum over all ranks is the hypothesis of `ReducedFlags`, and what the Allreduce guarantees (`MaxPacketIsAllreduceOp`).
- Waiting loops that never see their start time, and measurement loops that never end: a run is a finite number of attempts, and every wait ends.
- Weak-memory effects in zf_log: every atomic access and every access to one plain field is one sequentially consistent step. The microseconds of the cached time are not modelled; nothing reads them.
- The preprocessor machinery of the log formats and the size-optimized path: a format is a list of fields. `vsnprintf` is an arbitrary string, or a failure.
- The output callbacks of zf_log, which get each line.
- Dictionary.HashTable.constructor: tables of size 0, on which every operation returns an error.
- The mixing steps of the dictionary's hash function: `hash` is any function of the key; only its remainder matters. Allocation failures, `is_empty`, `has_key` and printing.
- RankSum.SampleRankSums: sorting is `std::sort`; its results are inputs that are sorted permutations of the samples. The standard deviation, z-value and critical values are left out.
- `PingpongClockOffsetAlg`, `JKClockSync`, `SKaMPIClockSync`, `HCA3OffsetClockSync`, `wilcoxon_mann_whitney`: variants of what is modelled.
- Option parsing, job files, printing, CSV handling, buffer allocation and the wrappers in `collective_ops`.

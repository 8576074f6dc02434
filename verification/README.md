# Quiet-window evaluator: model and proofs

Dafny 4.11 model of the offline evaluator that decides how long a watcher
should wait before it takes a freshly written file, and of three pieces of the
hit-index benchmark. `dafny verify dfyconfig.toml` checks everything.

| module | part of the system |
|---|---|
| `Ranges` | the interval lists behind byte coverage and lock tracking |
| `Corpus`, `History`, `HistoryLaws`, `Writers` | what a writer program means, action by action, and the loop that realises it |
| `Delivery`, `DeliveryLaws` | the notifications a watcher receives on each of the four channels |
| `Scoring`, `ScoringLaws` | when a file or its group is ready, and how proposals are scored against that |
| `Events`, `Replay`, `ReplayLaws` | the event-queue replay of an estimator over a trace |
| `Ewma`, `EwmaLaws` | the smoothed-interval estimator |
| `EarlyDelivery` | a realised file that is announced before its first record |
| `SchedulerReplay`, `SchedulerFleet`, `SchedulerLaws` | busy retries that are parked and fast-forwarded: one file, and all files under one clock; when files are admitted |
| `Statistics`, `StatisticsLaws` | burst peaks and quantiles |
| `Expressions`, `Policies`, `ExpressionLaws` | the grammar of quiet-time expressions and what the expressions mean |
| `LowDiscrepancy` | van der Corput points |
| `MedianBootstrap` | the exact law of a resampled median |
| `Parallel` | the bounded window of concurrent jobs |
| `Cases` | the rotation of cases and configurations over blocks |
| `Prelude`, `Sorting`, `Multiples` | options and results, Python's stable sort, products by name |

## How it is modelled

- Instants are integers (nanoseconds); the smoothed estimator, the weights, the
  quantiles and the expressions use exact reals.
- Code that loops over local variables is a method with a loop, proved against
  a meaning that does not mention the loop. `FileResult`, `EwmaEstimator` and
  the job generator are classes.
- The meaning of a writer program is read off its action list by position:
  byte `p` is correct when the last action that affects it supplies it; a handle
  is held between its open and its close. The realisation loop is then shown to
  keep its coverage list, handle table, lock list, journal and completion
  instant equal to that meaning.
- The meaning of a replay is read off the delivered stream: each content change
  has one deadline, and a deadline is a proposal when no newer content of the
  same file is handled first and it lies inside the horizon. The event heap,
  the generations and the pending set are shown to compute exactly this.
- Where code and meaning are built from the same function, such as the size after
  some actions or the probe of a candidate, a module `...Laws` says what that
  function is in other terms: over the action list, the journal, the answers or
  the proposal times alone.
- An estimator is an initial state and a pure observe function. A heap is the
  set of its entries with a pop that returns the least one; serial numbers make
  entries distinct.
- Random draws, shuffles and completion orders are arbitrary.

## Findings

- `cases.py:89-90` says that the cyclic order puts each algorithm at each
  ordinal over a complete cycle of blocks. That holds for a fixed dispatch slot
  (`Cases.SlotSeesLatinSquare`) but not for a case, because the rotation of the
  cases cancels the rotation of the configurations until it wraps. Over a cycle
  every case sees every configuration at every ordinal exactly when there is one
  case or one configuration (`Cases.EveryCaseIsFairOnlyIfTrivial`), and a case
  keeps one and the same order for ever exactly when the number of
  configurations divides the number of cases (`Cases.OrdinalIsConstant`). The
  model follows the code.
- `_remove` of an empty stretch splits a range in two touching pieces when the
  range straddles it; otherwise the result stays canonical
  (`Ranges.RemoveCanonical`). In the realisation that only happens past the end
  of the target, where it does no harm (`Ranges.RemoveTidy`).
- `_observe` looks up position -1 for a notice before the first journal record
  and so shows the last record, a state from the future. On every channel the
  stream is faithful exactly when the file's appearance is not delivered before
  that record (`Delivery.Observe`, `Delivery.EarlyExactly`). The realisation
  accepts files for which it is (`EarlyDelivery.AppearsBeforeItsRecords`); the
  programs of the corpus all start with a record.
- The completion test looks at the whole coverage list, and a truncation clears
  it only up to the longer of file and target. What has been seeded outside the
  target can therefore hide a completed target
  (`History.StraySeedHidesCompletion`). The test holds exactly when the target is
  whole and nothing is astray (`Writers.TestRecognises`); with seeds inside the
  target it is exact (`History.NothingAstray`).
- In `replay` the test `key not in pending` is implied by the generation test
  (`Replay.Run.PendingIsCurrentDeadline`, `Replay.CurrentIffLatest`).
- The grammar's right-hand operand is never the bare interval; together with
  the order on texts this only rules out a binary operator applied to the
  interval twice (`Expressions.RightLeafMeansBoth`).
- In `run_jobs` the bound on outstanding jobs holds whenever the generator is
  suspended: the result in hand counts as delivered. Between submitting the
  successor and yielding, that result is one more
  (`Parallel.JobWindow.SubmitSuccessor`).
- A zero-delay retry is not stepped over by the jump. It is parked until the
  file's next event, and every instant in between would have found it busy.

## Model

| member | source | states |
|---|---|---|
| Ranges.RemoveDenotes | benchmarks/quiet_window/writers.py:15-17 | removing a stretch removes exactly its points, from any list |
| Ranges.RemoveCanonical | benchmarks/quiet_window/writers.py:15-17 | a canonical list stays canonical if and only if the stretch is nonempty or no range straddles it |
| Ranges.Add | benchmarks/quiet_window/writers.py:20-27 | for any ranges and bounds, one pass over the sorted ranges gives exactly the union, in order and strictly separated; nothing empty is made up and nothing given is lost; nonempty input gives a canonical list |
| Ranges.CanonicalUnique | benchmarks/quiet_window/writers.py:93 | two canonical lists with the same points are the same list, so a list comparison decides set equality |
| Ranges.WholeRange | benchmarks/quiet_window/writers.py:93 | for a canonical list `covered == [(0, expected)]` holds if and only if exactly the target's bytes are covered |
| Ranges.RemoveTidy | benchmarks/quiet_window/writers.py:15-17 | subtraction drops empty ranges and keeps the order below the target's end, even for an empty cut past it |
| Ranges.WholeWhenTidy | benchmarks/quiet_window/writers.py:93 | whatever has been added and removed, `covered == [(0, expected)]` holds if and only if exactly the target's bytes are covered and no empty range is left outside them |
| Ranges.AdvanceFirstFree | benchmarks/quiet_window/corpus.py:74-78 | stepping over ascending intervals, even overlapping ones, ends at the least point outside all of them |
| Corpus.FindReadable | benchmarks/quiet_window/corpus.py:74-78 | the loop returns the least readable instant from `at` on |
| History.CorrectStep | benchmarks/quiet_window/writers.py:46-79 | whether a byte is correct after one more action depends on that action if it affects the byte, otherwise on the past |
| History.RetainedInTarget | benchmarks/quiet_window/writers.py:69-79 | inside the target, the bytes the code retains are the correct ones |
| History.CompletesStep | benchmarks/quiet_window/writers.py:93-97 | the update of the completion instant keeps it the start of the last unbroken run of complete states, absent after a state that is not complete |
| History.CompletionUnique | benchmarks/quiet_window/writers.py:93-97 | there is only one such instant |
| History.PresentIffRecognised | benchmarks/quiet_window/writers.py:93-97 | there is a completion instant if and only if the last file change leaves the target whole with nothing astray outside it |
| History.NothingAstray | benchmarks/quiet_window/writers.py:47-48 | when every seeded stretch lies in the target, nothing is ever astray and every whole target is recognised |
| History.StraySeedHidesCompletion | benchmarks/quiet_window/writers.py:47-93 | a byte seeded behind the target keeps a fully written target from being recognised |
| History.LifetimesAreOpenHandles | benchmarks/quiet_window/writers.py:41-56 | in an accepted program whose handles are all closed, an instant lies in an incompatible lifetime if and only if an incompatible handle is open then |
| HistoryLaws.SizeIsReach | benchmarks/quiet_window/writers.py:69-78 | a file is as long as the length last allocated, found, truncated or replaced to, or as far as the later writes reach if that is longer: at least each of these, and equal to one |
| HistoryLaws.CorrectMeansInPlace | benchmarks/quiet_window/writers.py:46-79 | a byte is correct if and only if it has been written or seeded and no bad write, replacement or shorter length has spoilt it since |
| HistoryLaws.RetainedMeansKept | benchmarks/quiet_window/writers.py:46-79 | the same of what the code retains, where a change of length reaches no further than the longer of the target and the file as it was |
| HistoryLaws.AnyOrderIsWhole | benchmarks/quiet_window/writers.py:75-79 | a transfer of accepted writes, preallocated or not and in any order, is whole if and only if every byte of the target has been written |
| HistoryLaws.TransferCompletes | benchmarks/quiet_window/writers.py:38-97 | a realised transfer has a completion instant if and only if every byte of the target has been written |
| HistoryLaws.MtimeIsLastStamp | benchmarks/quiet_window/writers.py:81-90 | the timestamp is ten seconds after a restore, else a hundred seconds and the instant of the last content change, unless timestamps are preserved |
| HistoryLaws.VisibleIsLastRename | benchmarks/quiet_window/writers.py:37-46 | a file appears with its last rename, or else with its first action |
| HistoryLaws.HoldsLastOpened | benchmarks/quiet_window/writers.py:41-56 | a writer holds a handle if and only if it opened it after its last close |
| HistoryLaws.MaskBits | benchmarks/quiet_window/writers.py:52-56 | bit by bit: a handle keeps a reader out if and only if it may write or delete or does not share reading |
| HistoryLaws.PendingContent | benchmarks/quiet_window/writers.py:57-83 | content is pending if and only if it has changed and neither a flush nor the close of a writing handle has followed |
| HistoryLaws.RecordedKinds | benchmarks/quiet_window/writers.py:66-92 | exactly these nine kinds of action leave a record, in order |
| Writers.SortedByTime | benchmarks/quiet_window/writers.py:31 | the same actions in time order, those with one stamp in their given order |
| Writers.Cover | benchmarks/quiet_window/writers.py:46-79 | the coverage list denotes exactly the retained bytes and shows an empty range outside the target exactly when a seed has left one |
| Writers.TestRecognises | benchmarks/quiet_window/writers.py:93 | size and list equality hold if and only if the target is whole and nothing is astray |
| Writers.TrackHandles | benchmarks/quiet_window/writers.py:41-56 | a repeated or accessless open and an unmatched close are refused, and only those; otherwise handles and lifetimes stay exact |
| Writers.Record | benchmarks/quiet_window/writers.py:57-92 | size, mtime, content version, gathered reasons and the new journal record are what the actions so far mean |
| Writers.Complete | benchmarks/quiet_window/writers.py:93-97 | the list comparison maintains the completion instant |
| Writers.Perform | benchmarks/quiet_window/writers.py:38-97 | one turn keeps every part of the state equal to the meaning of the actions, and fails exactly on an action that must be refused, with its error |
| Writers.PerformAll | benchmarks/quiet_window/writers.py:38-97 | the loop accepts a program or stops at its first refused action |
| Writers.Merge | benchmarks/quiet_window/writers.py:100-104 | merging keeps the blocked instants and makes the lock list canonical |
| Writers.Realize | benchmarks/quiet_window/writers.py:30-108 | over every action list: the truth record says exactly what the sorted program means (coverage, completion, journal, locks, visibility), or the error is the one the program deserves |
| Writers.ReadableMeansNoConflict | benchmarks/quiet_window/corpus.py:71-72 | a realised file is readable at an instant if and only if no incompatible handle is open then |
| Writers.RunStaysWhole | benchmarks/quiet_window/writers.py:93-97 | throughout the final run of complete states, including actions that record nothing, the target is whole |
| Writers.CompleteStaysCorrect | benchmarks/quiet_window/writers.py:93-97 | from the completion instant to the end the target keeps its exact length and all of its bytes |
| Delivery.CloseMarks | benchmarks/quiet_window/corpus.py:186-188 | the in-place prefix maximum holds the latest CLOSE record up to each position |
| Delivery.LatestCloseBetween | benchmarks/quiet_window/corpus.py:195 | comparing that mark with the previous number decides whether a CLOSE lies in between |
| Delivery.LastContentBetween | benchmarks/quiet_window/corpus.py:194 | comparing content versions decides whether a content change lies in between |
| Delivery.SortedSet | benchmarks/quiet_window/corpus.py:190 | `sorted(set(...))`: the same notices, strictly increasing |
| Delivery.Renamed | benchmarks/quiet_window/corpus.py:198 | whether any action renames the file |
| Delivery.HappenedCount | benchmarks/quiet_window/corpus.py:191 | the position splits the journal into what has and what has not happened by an instant |
| Delivery.ScheduleNotEarlier | benchmarks/quiet_window/corpus.py:175-183 | no channel delivers a notice before its cause or before the file is visible |
| Delivery.FinalContentNoticed | benchmarks/quiet_window/corpus.py:161-183 | on each of the four channels some delivery is not earlier than the last content change |
| Delivery.ObserveOne | benchmarks/quiet_window/corpus.py:190-201 | an observation shows the state at delivery, or the very last record before there is any; it is flagged with content or a phase boundary if and only if such a record lies after the previous observation |
| Delivery.ObserveEach | benchmarks/quiet_window/corpus.py:184-202 | the whole stream is faithful if and only if no notice comes before the first record |
| Delivery.EarlyIsUnfaithful | benchmarks/quiet_window/corpus.py:191-192 | a stream that answers an early notice as the code does shows a state that has not happened |
| Delivery.EarlyExactly | benchmarks/quiet_window/corpus.py:161-183 | on each of the four channels some notice is early if and only if the delivery of the file's appearance, with its rounding or delay, precedes the first record |
| EarlyDelivery.AnnouncedWithLast | benchmarks/quiet_window/corpus.py:190-201 | without delay a file that appears before its first record is announced with its last one |
| EarlyDelivery.AppearsBeforeItsRecords | benchmarks/quiet_window/corpus.py:159-202 | the realisation accepts such a file: opened at 0 and written at 5, it is announced at 0 as already written |
| Delivery.Observe | benchmarks/quiet_window/corpus.py:159-202 | every scheduled notice yields one observation; all are faithful if and only if the appearance is not delivered before the first record; the last one always carries the final content version |
| Delivery.EndsOnFinal | benchmarks/quiet_window/corpus.py:185-202 | on all channels the last observation is up to date with the content |
| Delivery.ChargedOnce | benchmarks/quiet_window/corpus.py:195-201 | each record seen by the stream is charged to exactly one observation |
| DeliveryLaws.ScheduleExactly | benchmarks/quiet_window/corpus.py:160-183 | for every channel and every draw, what is scheduled: the appearance, each visible record that raises a directory event (on the lossy channel one in four and the last), the eight copies of the noisy channel and the final check of the lossy one, each at its rounded, delayed or own instant, and nothing else |
| DeliveryLaws.StreamExactly | benchmarks/quiet_window/corpus.py:159-202 | the observed stream holds an observation of some kind at some instant if and only if that belongs there; a record is told as content if and only if its operation changes content |
| DeliveryLaws.NeverRepeats | benchmarks/quiet_window/corpus.py:190 | observations ascend by instant and, at one instant, by the name of their kind |
| Scoring.GroupFiles | benchmarks/quiet_window/replay.py:83-85 | files are grouped by archive, in order |
| Scoring.LatestArrivalIsMax | benchmarks/quiet_window/replay.py:86-90 | a group arrives with its last member, and never if some member is incomplete |
| Scoring.GroupReadableLeast | benchmarks/quiet_window/replay.py:108-112 | one pass over the sorted, possibly nested locks of all members finds the least instant at which every member is readable |
| Scoring.FindGroupReadable | benchmarks/quiet_window/replay.py:108-112 | the loop computes that instant |
| Scoring.GroupNotBeforeMember | benchmarks/quiet_window/replay.py:91-104 | a group is never ready before any of its members |
| Scoring.FileBoundaries | benchmarks/quiet_window/replay.py:96-104 | split archives take the group's instants, other files their own |
| Scoring.ProposalBoundaries | benchmarks/quiet_window/replay.py:81-105 | readiness of every group and boundaries of every file |
| Scoring.BisectRight | benchmarks/quiet_window/replay.py:139 | the position of the first change after an instant |
| Scoring.FindStaleEnd | benchmarks/quiet_window/replay.py:138-142 | until when a premature proposal exposes stale content |
| Scoring.FileResult.Record | benchmarks/quiet_window/replay.py:129-149 | after any number of proposals the counters equal the scores of the list of proposal times |
| Scoring.AddValidity | benchmarks/quiet_window/replay.py:115-126 | the offline scores of the proposal times |
| Scoring.OnlineMatchesOffline | benchmarks/quiet_window/replay.py:121-149 | for an opaque file the latency counted as proposals arrive equals the one computed afterwards |
| Scoring.AloneEarlyIsInvalid | benchmarks/quiet_window/replay.py:121-133 | for a file alone in its group early group proposals are exactly the invalid ones |
| Scoring.InvalidIsPrefix | benchmarks/quiet_window/replay.py:126 | in time order the invalid proposals are exactly a prefix |
| ScoringLaws.BoundaryIsFirst | benchmarks/quiet_window/replay.py:81-112 | a file, or a split volume with all volumes of its archive, has arrived at the first instant at which everything is complete and visible, and is ready at the first from then on at which all of it can be read; it never is if something stays incomplete |
| ScoringLaws.ScoreCounts | benchmarks/quiet_window/replay.py:129-137 | the counts are the numbers of proposals before completion, during a lock and before the group is ready |
| ScoringLaws.ScoreLatencies | benchmarks/quiet_window/replay.py:144-149 | the latencies run from completion, and from the first readable instant after arrival, to the first proposal from then on |
| ScoringLaws.ScoreExposure | benchmarks/quiet_window/replay.py:136-143 | each proposal before completion adds the time to the next record, completion or the end of the trace, whichever applies |
| ScoringLaws.ValidityIs | benchmarks/quiet_window/replay.py:121-126 | the first proposal from readiness on, the wait for it, and the number of proposals before readiness |
| Events.HeapPop | benchmarks/quiet_window/replay.py:177 | a pop removes the least entry |
| Replay.Run.NextObservation | benchmarks/quiet_window/replay.py:167-180 | observations leave the heap in stream order, whatever timers are in it |
| Replay.Run.Observed | benchmarks/quiet_window/replay.py:180-194 | handling an observation keeps the heap invariant, the settled past and all judgements |
| Replay.Run.Popped | benchmarks/quiet_window/replay.py:195-197 | so does popping a deadline |
| Replay.Run.DueJudged | benchmarks/quiet_window/replay.py:195-196 | when a deadline is popped, it is a proposal by the stream's meaning if and only if it belongs to the file's latest content |
| Replay.Run.PendingIsCurrentDeadline | benchmarks/quiet_window/replay.py:163-197 | a file is pending if and only if the heap holds a deadline of its current generation, and it holds at most one |
| Replay.Run.BooksObserved | benchmarks/quiet_window/replay.py:181-190 | models, generations and pending set follow the stream |
| Replay.Run.AllJudged | benchmarks/quiet_window/replay.py:178-179 | at the horizon the popped deadlines are exactly those inside it and the proposals exactly those of the stream's meaning |
| Replay.CurrentIffLatest | benchmarks/quiet_window/replay.py:195-196 | the generation test alone holds exactly for the latest content, and implies that the file is pending |
| Replay.DeadlinesAccounted | benchmarks/quiet_window/replay.py:188-199 | scheduled deadlines are the proposals, those inside the horizon that newer content overtakes, which are exactly the ones popped and discarded, and those past it, which are exactly the ones left in the heap |
| Replay.Handle | benchmarks/quiet_window/replay.py:180-194 | an observation is accepted if and only if the answer is a number and not negative |
| Replay.Fire | benchmarks/quiet_window/replay.py:195-197 | a popped deadline proposes if and only if it is current |
| Replay.RunEvents | benchmarks/quiet_window/replay.py:176-199 | the loop ends with every file's proposals and scores; popped times never decrease, and the number of pops is the observations, the deadlines inside the horizon and one more if any lies past it |
| Replay.ReplayTrace | benchmarks/quiet_window/replay.py:152-204 | the whole replay: it fails if and only if some answer is unacceptable; otherwise each file's proposals are exactly those of its stream, and scores, deadline count and model count are right |
| ReplayLaws.ProposesBeforeNext | benchmarks/quiet_window/replay.py:188-196 | a content change proposes if and only if its deadline is inside the horizon and before the file's next content change, strictly when observations go first |
| ReplayLaws.ProposalsOrdered | benchmarks/quiet_window/replay.py:152-199 | a file's proposal times never decrease |
| ReplayLaws.FilesIndependent | benchmarks/quiet_window/replay.py:161-199 | a file's proposals are those of a replay of that file alone |
| ReplayLaws.ProposalTimesAre | benchmarks/quiet_window/replay.py:180-199 | an instant is proposed as often as there are content changes of the file whose answer leads to it, within the horizon and before the next content change by the tie order |
| ReplayLaws.ReportedTimes | benchmarks/quiet_window/replay.py:152-204 | the same of the proposal times in the report of a replayed trace, which never decrease |
| ReplayLaws.AnswersOwnHistory | benchmarks/quiet_window/replay.py:181-185 | an answer is that of a fresh estimator fed with the file's own observations up to then |
| ReplayLaws.FixedWait | benchmarks/quiet_window/replay.py:29-34 | a fixed estimator proposes exactly that long after every content change that no other one follows in the meantime |
| Ewma.LearnedStep | benchmarks/quiet_window/replay.py:48-56 | exactly the admitted gaps between content changes are learned |
| Ewma.MeanWithin | benchmarks/quiet_window/replay.py:55 | the mean stays between the least and the greatest learned interval |
| Ewma.VariationWithin | benchmarks/quiet_window/replay.py:51-54 | the variation is never negative and at most half the greatest interval or the spread of the intervals |
| Ewma.AnswerBounds | benchmarks/quiet_window/replay.py:57 | an answer is never negative, at least the least interval and below five times the greatest |
| Ewma.SteadyAnswer | benchmarks/quiet_window/replay.py:47-57 | on a steady stream the answer falls geometrically from three times the interval to the interval |
| EwmaLaws.LearnedCount | benchmarks/quiet_window/replay.py:47-56 | as many intervals are learned as there are content changes that may teach and come later than the one before |
| EwmaLaws.LearnedGap | benchmarks/quiet_window/replay.py:47-56 | each learned interval, in order, is the time between two consecutive content changes |
| EwmaLaws.MeanDecays | benchmarks/quiet_window/replay.py:55 | after k equal intervals the mean has kept (7/8)^k of its distance to them |
| EwmaLaws.TwoIntervals | benchmarks/quiet_window/replay.py:50-57 | the mean, variation and answer after one and two intervals |
| Ewma.EwmaEstimator.Learn | benchmarks/quiet_window/replay.py:50-55 | the variation is updated with the mean of the earlier intervals, as section 2 of RFC 6298 orders it |
| Ewma.EwmaEstimator.Observe | benchmarks/quiet_window/replay.py:47-57 | the answer is that of the intervals learned from the whole history, and the replay never rejects it |
| SchedulerReplay.JumpIsLeast | benchmarks/quiet_window/scheduler_replay.py:262-265 | the jump lands on the least due + k * step that is not before the wake |
| SchedulerReplay.JumpIsRetryLoop | benchmarks/quiet_window/scheduler_replay.py:262-265 | that is where the step-by-step retries arrive |
| SchedulerReplay.EventsOf | benchmarks/quiet_window/scheduler_replay.py:228-235 | the events of a file in heap order; every mutation and every end of a lock of a lockable file is a wake |
| SchedulerReplay.World.SkippedProbesFail | benchmarks/quiet_window/scheduler_replay.py:254-256 | until the next physical event every probe would have found the candidate unchanged and locked |
| SchedulerReplay.World.FastForward | benchmarks/quiet_window/scheduler_replay.py:258-267 | waking a parked candidate, with its retained phase, gives the state of the step-by-step retries |
| SchedulerReplay.World.ParkedUntilWake | benchmarks/quiet_window/scheduler_replay.py:283-295 | a parked candidate waits until its next event, and through it unless that event is physical |
| SchedulerReplay.World.PollSplit | benchmarks/quiet_window/scheduler_replay.py:244-273 | interrupting the retries with a wake that changes nothing does not change them |
| SchedulerReplay.World.AtHorizon | benchmarks/quiet_window/scheduler_replay.py:250-251 | a candidate parked at the end would not have been admitted inside the horizon |
| SchedulerReplay.World.InvWoken | benchmarks/quiet_window/scheduler_replay.py:257-272 | a woken retry that does not go first meets the event in the state of the step-by-step run |
| SchedulerReplay.World.InvTimer | benchmarks/quiet_window/scheduler_replay.py:273-295 | a popped deadline, and parking it when it is busy, keep the agreement |
| SchedulerFleet.Fleet.EventTurn | benchmarks/quiet_window/scheduler_replay.py:253-272 | popping the earliest event for one file keeps the agreement of every file under the common clock |
| SchedulerFleet.Fleet.DeadlineTurn | benchmarks/quiet_window/scheduler_replay.py:273-295 | so does probing every file that is due |
| SchedulerFleet.Fleet.EventProgress | benchmarks/quiet_window/scheduler_replay.py:268-270 | an event turn uses up an event, or returns a parked retry and leaves less to do at the instant |
| SchedulerFleet.Fleet.Coalesced | benchmarks/quiet_window/scheduler_replay.py:244-295 | for any number of files, every policy, both tie orders and zero or positive delays: the loop terminates, and each file's admissions and final memory are those of a run of that file alone without parking |
| SchedulerLaws.AdmittedCanBeTaken | benchmarks/quiet_window/scheduler_replay.py:250-282 | every admission lies within the horizon, in time order, at an instant at which the file is visible, has a record and can be read |
| SchedulerLaws.DueIsAdmitted | benchmarks/quiet_window/scheduler_replay.py:273-282 | a candidate that comes due before the next event, by the tie order, with its content unchanged and the file readable is admitted then |
| SchedulerLaws.FirstSuccessAdmits | benchmarks/quiet_window/scheduler_replay.py:244-282 | with a fixed delay q and one event delivered at e, whatever else happens to the file: it is admitted exactly once, at the first of e + q, e + 2q, ... (of all instants from e on when q is zero) at which it can be read and its content does not count as changed since the attempt before |
| SchedulerLaws.NoSuccessNoAdmission | benchmarks/quiet_window/scheduler_replay.py:244-282 | if no such attempt lies within the horizon, or the file did not exist at e, it is never admitted |
| SchedulerLaws.EventDeadline | benchmarks/quiet_window/scheduler_replay.py:271-272 | an ignored event leaves the deadline, one that restarts the candidate makes it due after the delay |
| SchedulerLaws.RunRecords | benchmarks/quiet_window/scheduler_replay.py:271-282 | the watcher hears of exactly the delivered events at which the file exists, in order, with the time left until the next probe, and retires the file once for each admission, at its instant |
| SchedulerLaws.DueIsProbed | sunpack/runtime/watch/scheduler.py:1930-1973 | a candidate that comes due is forgotten, learned from, noted or retired as the file is at that instant |
| SchedulerLaws.FleetTakes | benchmarks/quiet_window/scheduler_replay.py:244-295 | however many files share the loop, each is admitted only within the horizon and when it can be taken |
| SchedulerLaws.FleetFirstSuccess | benchmarks/quiet_window/scheduler_replay.py:244-295 | the law of the fixed delay for each file of the loop |
| SchedulerLaws.FleetRecords | benchmarks/quiet_window/scheduler_replay.py:276-282 | each file of the loop is retired once for each of its admissions |
| Statistics.SlidingPeak | benchmarks/quiet_window/statistics.py:28-35 | the scan returns the maximum over all real window starts of the timestamps inside, and that maximum is reached |
| Statistics.PeakUnique | benchmarks/quiet_window/statistics.py:28-35 | there is only one such number |
| Statistics.CountPermuted | benchmarks/quiet_window/statistics.py:45 | a window's count does not depend on the order of the timestamps |
| Statistics.PeakPermuted | benchmarks/quiet_window/statistics.py:45 | neither does the peak |
| Statistics.PeakMonotone | benchmarks/quiet_window/statistics.py:13 | a longer window never has a lower peak |
| Statistics.PeakScaling | benchmarks/quiet_window/statistics.py:13 | a window k times as long has a peak at least as high and at most k times as high |
| Statistics.PeakOfAll | benchmarks/quiet_window/statistics.py:45-53 | the peak of all inputs is at least every input's peak and at most their sum |
| Statistics.RoundMonotone | benchmarks/quiet_window/statistics.py:43 | rounding to nanoseconds keeps the order of the proposals |
| Statistics.BurstsFor | benchmarks/quiet_window/statistics.py:48-53 | the peaks of each input, their mean, 95th percentile and maximum, and the merged peak, which lies between the maximum and the sum |
| Statistics.SummariesAtMost | benchmarks/quiet_window/statistics.py:50-52 | neither the mean nor the 95th percentile exceeds the maximum |
| Statistics.BurstsScale | benchmarks/quiet_window/statistics.py:13 | the metrics of a tenfold window relate to those of the shorter one |
| Statistics.InvalidBursts | benchmarks/quiet_window/statistics.py:38-54 | the windows of 100 ms, 1 s and 10 s over the histories of the inputs, with all their mutual bounds |
| StatisticsLaws.HistoryIsEarly | benchmarks/quiet_window/statistics.py:41-44 | the history of an input is the ordered list that holds each nanosecond as often as proposals before readiness, or any proposals if it never is ready, round to it |
| StatisticsLaws.PeakOfEarly | benchmarks/quiet_window/statistics.py:48 | the peak of an input is at most the number of its early proposals, and equal to it if and only if they all lie less than a window apart |
| StatisticsLaws.BurstsCountEarly | benchmarks/quiet_window/statistics.py:47-53 | the same of every peak in the metrics |
| StatisticsLaws.HistoryIsInvalidStretch | benchmarks/quiet_window/statistics.py:43-44 | the history is, to the nanosecond, the initial stretch of the proposal times that the offline scorer counts as invalid |
| Statistics.QuantileLaws | benchmarks/quiet_window/statistics.py:57-64 | for any values, quantiles run monotonically from the least to the greatest of them |
| Statistics.QuantileAtRank | benchmarks/quiet_window/statistics.py:57-64 | the probability k / (n - 1) gives exactly the value of rank k |
| StatisticsLaws.QuantileBetweenRanks | benchmarks/quiet_window/statistics.py:57-64 | between two ranks the quantile moves along the straight line from one value to the next |
| Expressions.PrefixCode | benchmarks/quiet_window/expressions.py:139 | no text of a tree is a proper start of another |
| Expressions.ReprInjective | benchmarks/quiet_window/expressions.py:139 | trees with the same text are the same, so the texts order the trees |
| Expressions.SubtreesRegistered | benchmarks/quiet_window/expressions.py:144-145 | the level filter is closed under subtrees |
| Expressions.RightLeafMeansBoth | benchmarks/quiet_window/expressions.py:136-140 | skipping leaf right operands only loses operators applied to the bare interval twice |
| Expressions.Products | benchmarks/quiet_window/expressions.py:134-135 | the unary trees over a level |
| Expressions.Combinations | benchmarks/quiet_window/expressions.py:138-143 | the ordered binary trees over two levels, sums only of different trees |
| Expressions.BuiltIsLevel | benchmarks/quiet_window/expressions.py:133-145 | what is built from complete lower levels and filtered is exactly the next level |
| Expressions.NextLevel | benchmarks/quiet_window/expressions.py:133-145 | one round lists that level in order without duplicates |
| Expressions.Grammar | benchmarks/quiet_window/expressions.py:129-146 | exactly the registered trees of at most the given size, each once, by size and text |
| ExpressionLaws.RegisteredLimits | benchmarks/quiet_window/expressions.py:144-145 | the registered trees are the canonical ones with at most one sum and at most one power |
| Policies.RenderedSound | benchmarks/quiet_window/expressions.py:32-51 | saturation, product and weighted sum are monotone and zero at zero if log1p, root and power are |
| Policies.Eval | benchmarks/quiet_window/expressions.py:32-51 | a tree is nonnegative, and zero at zero |
| Policies.EvalMonotone | benchmarks/quiet_window/expressions.py:32-51 | a tree rises with the interval |
| Policies.PolicyLaws | benchmarks/quiet_window/expressions.py:86-94 | every policy within the registered bounds is nonnegative, monotone and zero at zero |
| ExpressionLaws.OperatorsUndone | benchmarks/quiet_window/expressions.py:38-45 | logarithm, root and power each give back their argument to their own inverse |
| ExpressionLaws.SaturationMeans | benchmarks/quiet_window/expressions.py:42-43 | saturation stays below one, and v / (1 - v) gives back its argument |
| ExpressionLaws.ProductMeans | benchmarks/quiet_window/expressions.py:49-50 | a product divided by its right factor is the left one |
| ExpressionLaws.SumMeans | benchmarks/quiet_window/expressions.py:46-48 | a sum lies the share r of the way from its right term to its left one |
| ExpressionLaws.MappingScales | benchmarks/quiet_window/expressions.py:91-94 | a mapping answers its gain times its tree at the interval measured in its scale |
| ExpressionLaws.BareMappingIsLinear | benchmarks/quiet_window/expressions.py:71-72 | a mapping of the bare interval is the linear policy whose gain is divided by the scale |
| Policies.NormalizeCanonical | benchmarks/quiet_window/expressions.py:136-143 | ordering the operands makes a tree canonical if and only if it applies no operator to the bare interval twice and no sum to one tree twice |
| Policies.NormalizeMeaning | benchmarks/quiet_window/expressions.py:46-50 | ordering the operands keeps the function, once the weight of a turned sum is mirrored |
| Policies.GrammarSuffices | benchmarks/quiet_window/expressions.py:128-146 | every such tree of any shape means the same as a registered tree of its size |
| Policies.RegisteredOnce | benchmarks/quiet_window/expressions.py:130-143 | no two registered trees are rearrangements of each other |
| LowDiscrepancy.RadicalInverse | benchmarks/quiet_window/expressions.py:149-155 | the loop computes the mirrored digit fraction |
| LowDiscrepancy.PointIsReverse | benchmarks/quiet_window/expressions.py:149-155 | the point may be computed with any sufficient number of digits |
| LowDiscrepancy.PointLeadsWithDigit | benchmarks/quiet_window/expressions.py:149-155 | the last digit of the index leads the point, and the point of the remaining index follows one place further |
| LowDiscrepancy.PointInUnit | benchmarks/quiet_window/expressions.py:149-155 | points lie in [0, 1) |
| LowDiscrepancy.PointInjective | benchmarks/quiet_window/expressions.py:149-155 | different indices give different points |
| LowDiscrepancy.OnePointPerCell | benchmarks/quiet_window/expressions.py:149-155 | the first b^k points hit each of the b^k equal cells exactly once |
| MedianBootstrap.TuplesAre | benchmarks/hit_index/analysis.py:28 | the resamples are all tuples of ranks |
| MedianBootstrap.TuplesSize | benchmarks/hit_index/analysis.py:28 | there are n^m of them |
| MedianBootstrap.WithBelowSize | benchmarks/hit_index/analysis.py:24-25 | how many resamples have j draws below a rank |
| MedianBootstrap.WaysAreTerms | benchmarks/hit_index/analysis.py:24 | that number is the binomial term of the code |
| MedianBootstrap.MedianBelow | benchmarks/hit_index/analysis.py:25-28 | the median is below a rank if and only if more than half of the draws are |
| MedianBootstrap.CdfCounts | benchmarks/hit_index/analysis.py:24-25 | n^n times a table entry is the number of resamples with a median rank that small |
| MedianBootstrap.CdfMonotone | benchmarks/hit_index/analysis.py:24-25 | the table never falls |
| MedianBootstrap.CdfEndsAtOne | benchmarks/hit_index/analysis.py:24-25 | it ends at exactly one |
| MedianBootstrap.Table | benchmarks/hit_index/analysis.py:24-25 | the loops fill the table |
| MedianBootstrap.BisectLeft | benchmarks/hit_index/analysis.py:27 | the first entry that reaches the draw |
| MedianBootstrap.MedianOfDrawn | benchmarks/hit_index/analysis.py:22-28 | the median of the drawn values is the value at the median rank, also when values repeat, so the law of ranks gives the law of values |
| MedianBootstrap.ConstantSample | benchmarks/hit_index/analysis.py:19-21 | every resample of a constant sample has that constant as its median |
| MedianBootstrap.RankExists | benchmarks/hit_index/analysis.py:24-27 | every uniform number below one draws a rank |
| MedianBootstrap.SampleMedian | benchmarks/hit_index/analysis.py:18-27 | the result is the value at the drawn rank, which is at most i if and only if the uniform number does not exceed the share of resamples whose median rank is at most i: the law of the resampled median, also on the shortcut for constant samples |
| Parallel.Wait | benchmarks/hit_index/parallel.py:23 | some nonempty part of the pending jobs has completed, any part |
| Parallel.JobWindow.FillWindow | benchmarks/hit_index/parallel.py:21 | as many jobs are submitted as the window and the supply allow |
| Parallel.JobWindow.SubmitSuccessor | benchmarks/hit_index/parallel.py:26-31 | before the yield the window is as full as the supply allows, and with the result in hand there is one more than it holds while jobs are left |
| Parallel.JobWindow.TakeOne | benchmarks/hit_index/parallel.py:24-32 | any completed job is delivered after its successor has been submitted, or its exception ends the generator before |
| Parallel.JobWindow.ResumeWindow | benchmarks/hit_index/parallel.py:22-32 | at every yield the outstanding jobs are the smaller of the window and the undelivered jobs |
| Parallel.JobWindow.ResumeSequential | benchmarks/hit_index/parallel.py:15-18 | one job at a time, in order, none in the background |
| Parallel.JobWindow.Resume | benchmarks/hit_index/parallel.py:11-32 | a resume yields a new job's result or raises a job's exception while jobs are left, stops exactly when all are delivered, and refuses exactly a window below one |
| Parallel.RunJobs | benchmarks/hit_index/parallel.py:11-32 | under every completion order draining ends; it gives each job's result exactly once if and only if no job raises, and otherwise some job's exception |
| Cases.RunCase | benchmarks/hit_index/cases.py:99-101 | one case under the rotated configurations |
| Cases.RunBlock | benchmarks/hit_index/cases.py:97-101 | the cases of one block in their rotated order |
| Cases.Schedule | benchmarks/hit_index/cases.py:88-101 | every turn is the one its place asks for; an empty list of configurations fails exactly when a turn is due |
| Cases.AllPlacesOnce | benchmarks/hit_index/cases.py:96-101 | every block, slot and ordinal is visited exactly once |
| Cases.TripleOnce | benchmarks/hit_index/cases.py:96-101 | every case meets every configuration in every block exactly once, at the place computed for it |
| Cases.SlotSeesLatinSquare | benchmarks/hit_index/cases.py:89-100 | over as many consecutive blocks as configurations, a dispatch slot sees each configuration at each ordinal in exactly one block |
| Cases.NextBlockRepeats | benchmarks/hit_index/cases.py:97-99 | a case that is not dispatched first meets every configuration at the same ordinal in the next block |
| Cases.RepeatIsUnfair | benchmarks/hit_index/cases.py:89-100 | such a repetition leaves some configuration without some ordinal for that case |
| Cases.EveryCaseIsFairOnlyIfTrivial | benchmarks/hit_index/cases.py:89-90 | the comment's claim, read for cases, holds if and only if there is one case or one configuration |
| Cases.OrdinalIsConstant | benchmarks/hit_index/cases.py:97-100 | a case meets a configuration at one ordinal for ever if and only if the configurations divide the cases |

## Left out

- Writers.Realize: takes a positive target size, as every validated trace has. An empty program, on which the code fails with an index error, is an error result.
- Replay.ReplayTrace: infinite deadlines are not modelled, though a deadline past the horizon is; a factory that returns differently initialised estimators is not either.
- Events.HeapPop: states what `heapq` promises; its array layout is not modelled.
- MedianBootstrap.SampleMedian: the logarithm of the result and the resampling of an even number of values are not modelled.
- SchedulerFleet.Fleet.Coalesced: what the watcher remembers of a file, and how it reacts to an event, are functions of the file's own history; claims in flight, the shared catalogue and the close-triggered probe inside `enqueue` are behind them. Events at one instant are taken in any order of files. The deadlines reported for files still waiting at the horizon are not compared.
- Cases.Schedule: takes the two lists as the shuffles left them, in any order.
- Parallel.JobWindow.Resume: a caller that abandons the generator, and the wait for running jobs when an exception ends it.
- Float rounding: instants and their arithmetic are exact.
- `build_file` and its families, including the work-stealing slices: many timing parameters over the same actions.
- `render_tree` as text, parameter rounding, the search for candidates and neighbours, and export of a policy.
- The rest of the statistics: per-file rates and macro averages.
- The production watcher, its catalogue, broker and quiet policy, beyond how the scheduler replay probes a candidate.
- Random number generation, bootstrap repetition, hashing, JSON, processes and files.

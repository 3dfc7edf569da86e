# dariyanaap, modelled and proved in Dafny

dariyanaap is a load generator. It promises that no request is lost and no latency under-reported.
This project models the code that the promise rests on and proves it, for every input and every run:

- `Buckets`, `Tallies`, `Histograms`, `HistogramCsv`: the log-linear histogram, against the sorted
  list of every sample it replaces, and the file it is written to, against the readers it promises.
  A `Tally` is the value of a histogram; the class updates an array of counters in place.
- `Schedules`, `Accounts`, `OpenLoop`, `OpenLoopWorkers`: the open loop. N workers share one counter;
  their loop is cut at every clock read, claim, sleep and exchange, and the theorems hold for all
  interleavings, outcomes and clocks. Each worker's in-place loop is proved to compute the
  sequential specification that every interleaving is proved to agree with.
- `TimeSeries`, `ClosedLoop`, `ClosedLoopWorkers`: the closed loop and its per-second view, with any
  number of writers feeding one shared list.
- `Text`, `Http`, `Framing`, `Exchanges`: where a reply ends, decided on a growing buffer, and why a
  reused connection stays in step with its target under any segmentation.
- `Connections`: both worker loops joined to the exchanges, so that a reply is only ever credited to the
  request it answers.
- `Knobs`, `Control`: the fault knobs with their gates, against the plain settings they stand for, and
  the control connection that reassembles command lines.
- `Quoting`, `Endpoints`: a printer and a printer-parser pair, with their round trips.
- `RunResults`, `Wrappers`: outcomes, error counters, the balance of a run, and absence and failure.

Some properties hold only under a condition. Each is proved as an if-and-only-if, with an input that
fails: percentiles are monotone in the rank exactly when the top slot is clear of overflow
(`Tallies.MonotoneExactly`, `Tallies.PercentileCanFall`); summing the interval keeps time exactly for
whole-nanosecond gaps (`Schedules.AccumulationExactly`, `Schedules.ThreePerSecondDrifts`); a printed
endpoint parses back exactly when its host is clean (`Endpoints.RoundTripExactly`,
`Endpoints.SpaceDoesNotComeBack`); a typed one is printed back exactly when its port has no leading zero
(`Endpoints.PrintedAsTypedExactly`, `Endpoints.LeadingZeroIsLost`); a quoted record reads back exactly
when it has a field (`Quoting.RoundTripExactly`, which also gives the record that does not); a complete
reply is waited for through all its prefixes exactly when its head fits in 64 KiB
(`Framing.AwaitedExactly`, `Framing.OversizeHeadIsRefused`); a bodiless status ends a reply at its
headers exactly when no transfer coding is named and no body is declared
(`Framing.DeclaredOutranksStatus`, `Framing.NotModifiedWaits`, `Framing.ChunkedNotModifiedIsRefused`);
percentiles of samples that dominate point by point dominate exactly when the histograms are clear of the
overflow boundary (`Tallies.DominanceExactly`, `Accounts.PercentilesDominate`,
`Accounts.LatencyReportedBelowLag`); a row of the histogram file counts the samples in its printed range
exactly when no sample lies between 60 s and the topmost slot's high edge, or the row is another one
(`HistogramCsv.SelfDescribingExactly`, `HistogramCsv.TopRowUndercounts`). One premise is kept as it is: latency is compared with lag where
every request was timed, and `Accounts.BrokenRequestHidesItsLatency` shows why.

Where the code differs from the standard or from its own comments, the code is followed. A transfer
coding or a declared length outranks a bodiless status (`Framing.DeclaredOutranksStatus`). The comment at
src/load/run_result.hpp:43 has timeouts recorded at the timeout value; the code records the time that
actually passed (src/load/exchange.cpp:27-29 and 40-42), and `Exchanges.PerformRequest` says so.

Conventions: a byte is a `char`; times are nanoseconds on one forward-moving clock; what a clock, a
socket or a random draw would answer is a parameter; rates and percentages are exact reals.

`dafny verify dfyconfig.toml` checks the whole project.

## Model

| member | source | states |
|---|---|---|
| `Buckets.SlotsPartition` | src/stats/buckets.hpp:32-84 | For every natural number and every slot: a value is indexed to a slot if and only if it lies between the slot's two edges. The layout is a partition of all numbers, not only of the 3,808 slots allocated. |
| `Buckets.EdgesReturnToTheirSlot` | src/stats/buckets.hpp:67-84 | Both edges of any slot index back to that slot. |
| `Buckets.SlotsAdjoin` | src/stats/buckets.hpp:67-84 | One slot ends one nanosecond before the next begins, across octave boundaries too. |
| `Buckets.IndexMonotone` | src/stats/buckets.hpp:32-44 | A larger latency never has a smaller index. |
| `Buckets.IndexSkipsNoSlot` | src/stats/buckets.hpp:39-44 | Counting up one nanosecond moves the index by at most one: every octave is gapless. |
| `Buckets.HighEdgeError` | src/stats/buckets.hpp:10-17 | The reported high edge is never below the value and at most 1/128 of the value above it. |
| `Buckets.CountIsDerived` | src/stats/buckets.hpp:46-48 | The slot count 3,808 is the index of 60 s plus one, and the last slot's high edge is 60,129,542,143, above 60 s. |
| `Tallies.JoinIsUnion` | src/stats/histogram.cpp:43-55 | Merging two histograms gives, in every slot, count, overflow and maximum, the histogram of the concatenated samples. |
| `Tallies.OrderIrrelevant` | src/stats/histogram.hpp:35-48 | Recording the same bag of samples in any order gives the same histogram. |
| `Tallies.MergeAnySplit` | src/stats/histogram.hpp:85-99 | However a bag of samples is dealt to threads and in whatever order the parts are merged, the result is the single-threaded histogram. |
| `Tallies.NothingLost` | src/stats/histogram.hpp:35-48 | All slots together plus the overflow count are the number of samples recorded. |
| `Tallies.PrefixSumCounts` | src/stats/histogram.cpp:28-34 | The running total of the percentile loop at a slot is the number of samples up to that slot's edge. |
| `Tallies.RankRefinesSortedList` | src/stats/histogram.cpp:10-41 | For every sample sequence and every rank, the scan over counters answers the slot edge of the sample the sorted list has at that rank, and the exact maximum when that sample is above 60 s. |
| `Tallies.SortSorts` | src/stats/histogram.cpp:17-26 | The sorted list that the scan is compared with is sorted and a permutation of the samples. |
| `Tallies.RankErrorBound` | src/stats/histogram.hpp:66-83 | No percentile is below the true sample of its rank, and outside overflow it is at most 1/128 above it. |
| `Tallies.MaxIsLargest` | src/stats/histogram.hpp:57-60 | The maximum is kept exactly: it is one of the samples and none is above it. |
| `Tallies.OverflowIsReal` | src/stats/histogram.hpp:30-46 | The overflow count is exactly the number of samples above 60 s, and positive if and only if the recorded maximum is above 60 s. |
| `Tallies.MonotoneExactly` | src/stats/histogram.cpp:28-40 | A higher rank never gets a smaller answer if and only if nothing overflowed, or the top slot is empty, or the maximum reaches the top slot's high edge. |
| `Tallies.PercentileCanFall` | src/stats/histogram.cpp:28-40 | The failing case is real: for samples of 60 s and 60 s plus 1 ns, rank 1 reports 60,129,542,143 and rank 2 reports 60,000,000,001. |
| `Tallies.PercentileCovers` | src/stats/histogram.cpp:17-34 | What a percentile means: at least p percent of all samples are at or below the answer, for every real p. |
| `Tallies.RankIsLeast` | src/stats/histogram.cpp:17-26 | The rank asked for is the least that covers p percent: it covers it, and unless it is 1 the rank below does not. |
| `Tallies.SortedSampleSpeaks` | src/stats/histogram.cpp:17-34 | At least p percent of the samples are at or below the sorted sample answered for, and unless it is the smallest, fewer than p percent are below it. |
| `Tallies.OneSampleSpeaks` | src/stats/histogram.cpp:17-34 | Only one value has that property, so it defines the percentile. |
| `Tallies.RankMonotone` | src/stats/histogram.cpp:24-26 | A larger percentage never asks for a smaller rank, and every rank asked for exists. |
| `Tallies.DominanceExactly` | src/stats/histogram.cpp:24-40 | For sample sequences that dominate point by point, every rank dominates if and only if the overflow counts are equal, or the smaller histogram has an empty top slot, or the larger maximum reaches that slot's high edge. |
| `Tallies.PercentilesAreRanks` | src/stats/histogram.cpp:17-26 | Comparing two histograms at every real percentage is comparing them at every rank: each rank is asked for by some percentage. |
| `Histograms.Histogram.Record` | src/stats/histogram.hpp:35-48 | Recording in place appends one sample to the bag the counters stand for; needs a non-negative latency, as the source asserts. |
| `Histograms.Histogram.Percentile` | src/stats/histogram.cpp:10-41 | Absent exactly when nothing was recorded; otherwise the slot edge of the one sample that speaks for p percent, or the exact maximum when it is above 60 s, which is the sorted list's answer. |
| `Histograms.Histogram.Merge` | src/stats/histogram.cpp:43-55 | In place, the counters come to stand for both bags of samples; the other histogram is left alone. |
| `Histograms.Summarise` | src/stats/summary.cpp:9-30 | Absent exactly when nothing was recorded; otherwise each of the four percentiles is the answer for the one sample that speaks for it, with the exact maximum; in ascending order whenever the top slot is clear, and the highest at most 1/128 above the maximum. |
| `HistogramCsv.WriteHistogram` | src/stats/csv.cpp:81-101 | The rows written are the non-empty slots in order with their edges, then the overflow row with the exact maximum. |
| `HistogramCsv.RereadIsPercentile` | src/stats/csv.cpp:81-101 | At every rank, overflow included, a reader that accumulates counts row by row and reports the high edge gets the histogram's own answer. |
| `HistogramCsv.CountsSumToSamples` | src/stats/csv.hpp:54-57 | The count column sums to the run's total sample count. |
| `HistogramCsv.RowCounts` | src/stats/csv.cpp:84-100 | What each row counts: a slot row the samples between its edges, up to 60 s; the overflow row those from 60 s plus 1 ns to the exact maximum. |
| `HistogramCsv.SelfDescribingExactly` | src/stats/csv.hpp:48-57 | A row counts exactly the samples in its printed range if and only if it is not the topmost slot's, or no sample lies above 60 s and below that slot's high edge. |
| `HistogramCsv.TopRowUndercounts` | src/stats/csv.hpp:48-57 | The input that fails: samples of 60 s and 60 s plus 1 ns give a top row of count 1 with two samples in its range. |
| `HistogramCsv.RebuildRoundTrip` | src/stats/csv.hpp:46-57 | A reader that knows the layout recovers every slot, the count and the overflow exactly, and the maximum exactly when it is above 60 s. |
| `HistogramCsv.MergedFilesArePercentiles` | src/stats/csv.hpp:48-52 | Two runs merged from their files alone have, at every rank, the percentile of one histogram that saw both runs. |
| `Schedules.PerSecond` | src/core/units.cpp:23-39 | A rate is made exactly when it lies in [0.001, 1e9], and it is then the rate asked for. |
| `Schedules.ScheduleIsExact` | src/core/units.cpp:45-47 | Every slot is due within half a nanosecond of its exact time, however large its index. |
| `Schedules.IntervalIsExact` | src/core/units.cpp:41-43 | The interval is the exact gap rounded to the nearest nanosecond, a half upwards. |
| `Schedules.DueStrictlyIncreases` | src/core/units.cpp:45-47 | At every permitted rate a later slot is due strictly later. |
| `Schedules.AccumulationError` | src/core/units.hpp:45-59 | Summing the rounded interval n times instead is off by at most (n+1)/2 nanoseconds. |
| `Schedules.AccumulationExactly` | src/core/units.hpp:50-55 | Summing the interval agrees with the schedule at every index if and only if a whole number of nanoseconds separates two requests. |
| `Schedules.ThreePerSecondDrifts` | src/core/units.hpp:52-53 | At 3 requests per second the summed schedule falls behind by exactly one more nanosecond every second, without bound. |
| `Schedules.SlotsDueCounts` | src/load/open_loop.cpp:195-196 | The slots due inside a run are the first `slots_due` and at most one more, at every rate and duration. |
| `Schedules.Schedule.Claim` | src/load/schedule.hpp:39-42 | Claiming hands out the next index and its due time, and advances the counter by one. |
| `Accounts.LagSplits` | src/load/open_loop.cpp:94-107 | With a forward clock, every measured lag is its connection wait plus its rig lag, all non-negative, sample for sample. |
| `Accounts.LagByCause` | src/load/open_loop.cpp:97-107 | The wait is the time from due until the worker came free, and none for an idle worker; everything later is the rig's. |
| `Accounts.MeasuredFromDue` | src/load/open_loop.cpp:109-129 | A success, a rejection and a timeout each add one sample, the time from due to the end of the exchange; other outcomes add none. |
| `Accounts.ErrorsByKind` | src/load/open_loop.cpp:114-129 | Each error counter is the number of requests that ended in its own way, and a success counts in none. |
| `Accounts.EveryCarriageCounted` | src/load/run_result.hpp:88-95 | Every request carried is a timed sample or an untimed error, once. |
| `Accounts.TimedAreAnswered` | src/load/run_result.hpp:41-59 | The histogram holds exactly the successes, the rejections and the timeouts. |
| `Accounts.PercentilesDominate` | src/load/open_loop.cpp:92-129 | Schedule lag is at least connection wait at every percentile, and latency at least schedule lag when every request was timed, each if and only if the two histograms are clear of the overflow boundary. |
| `Accounts.NoOverflowBelow` | src/load/open_loop.cpp:92-129 | When nothing overflowed in the larger of two histograms they are clear, so dominance holds. |
| `Accounts.LatencyReportedBelowLag` | src/load/open_loop.cpp:92-129 | The input that fails at the boundary: one request 59.9 s late with a 150 ms exchange reports lag 60,129,542,143 and latency 60,050,000,000. |
| `Accounts.BrokenRequestHidesItsLatency` | src/load/open_loop.cpp:94-129 | The input that fails with an untimed request: its lag is recorded and its latency is not, so the 100th percentile of lag is 100 and that of latency 1. |
| `Accounts.PunctualSenderKeepsUp` | src/load/open_loop.hpp:109-115 | A sender whose sleeps wake on time is found to have kept up, at every rate and whatever its lag. |
| `Accounts.KeptUpMeansHalfOnTime` | src/load/open_loop.hpp:109-115 | A sender with fewer than half its rig lags below ten intervals is found not to have kept up. |
| `Accounts.HalfOnTimeKeepsUp` | src/load/open_loop.hpp:109-115 | A sender with at least half its rig lags below ten intervals, by the histogram's 1/128, is found to have kept up. |
| `Accounts.RunBalances` | src/load/run_result.hpp:88-95 | Merged over any number of workers, attempts are timed samples plus untimed errors. |
| `OpenLoop.StepKeepsInv` | src/load/open_loop.cpp:49-136 | Every step any worker can take, and every clock advance, keeps the invariant: each index claimed is held by one worker, sent slots were due in time, abandoned ones were not, clocks are ordered, and each tally is its own worker's. |
| `OpenLoop.EveryClaimHeldOnce` | src/load/schedule.hpp:39-42 | In every reachable state, every index handed out is held by exactly one worker, exactly once, and no other index by any. |
| `OpenLoop.SlotsConserved` | src/load/open_loop.cpp:49-136 | At the end of every run, under every interleaving, outcome and clock: the slots sent are exactly those claimed and due before the deadline, each once; the abandoned ones are exactly the rest, a suffix, at most one per worker. |
| `OpenLoop.AccountsSettle` | src/load/open_loop.cpp:52-135 | In every finished run, attempts less connect failures are exactly the claimed slots due before the deadline, and every recorded timing came from a forward clock. |
| `OpenLoop.AttemptsExactly` | src/load/open_loop.cpp:52-135 | The attempts of a finished run are the claimed slots due before the deadline plus the connects that failed after warm-up. |
| `OpenLoop.ConnectsAreCounted` | src/load/open_loop.cpp:56-69 | In every reachable state the connect errors are exactly the failed connects after warm-up, and the connections opened exactly the successful ones. |
| `OpenLoop.BooksAreTurns` | src/load/open_loop.cpp:49-136 | Over any turns, failed connects, opened connections and requests carried are counted off the turns themselves, up to the turn at which the worker returns. |
| `OpenLoop.CarriedIsWhatHappened` | src/load/open_loop.cpp:71-111 | In every reachable state each worker's records are its finished exchanges with the slot it claimed, the instant it came free and the instant it sent, as the run took them. |
| `OpenLoop.AttemptsMeetTheRate` | src/load/open_loop.cpp:194-197 | A finished run sends every slot it claimed when it claimed no more than `slots_due`, and otherwise `slots_due` or one more. |
| `OpenLoop.WorkersAreSequential` | src/load/open_loop.cpp:49-136 | Interleaving does not show: each finished worker's books are what the sequential loop computes from that worker's own readings. |
| `OpenLoop.SocketsAccounted` | src/load/open_loop.cpp:56-69 | In every reachable state, every connection a worker opened either broke on an exchange or is still open. |
| `OpenLoop.UnusableIsDropped` | src/load/open_loop.cpp:132-134 | Whatever a worker reads, a connection left unusable by an exchange carries no further request. |
| `OpenLoop.RunPercentilesDominate` | src/load/open_loop.cpp:92-129 | In every reachable state of every run, both dominance statements hold at every percentile if and only if the histograms compared are clear; for latency over lag, when every request sent was timed. |
| `OpenLoop.PunctualRunKeepsUp` | src/load/open_loop.hpp:82-115 | In every run whose sleeps wake exactly on time, every rig lag is zero and the sender has kept up, for every target, pool size and rate. |
| `OpenLoopWorkers.OpenLoopWorker.RecordLateness` | src/load/open_loop.cpp:94-107 | The lag and its two parts are recorded, the rig's part provably not negative. |
| `OpenLoopWorkers.OpenLoopWorker.RecordOutcome` | src/load/open_loop.cpp:114-129 | The latency reaches the histogram for exactly three outcomes, and every outcome but success reaches exactly one counter. |
| `OpenLoopWorkers.OpenLoopWorker.Serve` | src/load/open_loop.cpp:90-134 | One exchange is accounted in four histograms and the counters when its slot is measured, and decides whether the socket survives. |
| `OpenLoopWorkers.OpenLoopWorker.Run` | src/load/open_loop.cpp:49-136 | The loop, updating four histograms and the counters in place, leaves the books that the specification of a worker's turns gives. |
| `OpenLoopWorkers.OpenLoopRun.Collect` | src/load/open_loop.cpp:181-197 | After folding in every worker: the histograms are all the workers' samples, the accounts are consistent, and a summary is absent exactly when nothing was timed. |
| `OpenLoopWorkers.CollectedRunConserves` | src/load/open_loop.cpp:181-197 | When what was collected comes from a finished run, the run object's attempts less its connect failures are exactly the claimed slots due before the deadline. |
| `OpenLoopWorkers.OpenLoopRun.SenderKeptUp` | src/load/open_loop.hpp:109-115 | The verdict depends on the recorded rig lags alone. |
| `OpenLoopWorkers.OpenLoopRun.ConnectionsSaturated` | src/load/open_loop.hpp:124-130 | The same threshold, asked of the recorded connection waits alone. |
| `TimeSeries.Series.Absorb` | src/stats/timeseries.hpp:75-81 | The shared list grows to reach the second and that second is joined with what was pending. |
| `TimeSeries.Writer.Flush` | src/stats/timeseries.hpp:49-54 | A non-empty pending histogram moves to the shared list at the writer's second and a new one begins; an empty one changes nothing. |
| `TimeSeries.SecondExactly` | src/stats/timeseries.hpp:69-73 | An instant is put in second s if and only if it lies in [start + s * 1,000,000,000, start + (s + 1) * 1,000,000,000), anything before the start in second 0. |
| `TimeSeries.Writer.Record` | src/stats/timeseries.hpp:36-43 | A sample of another second first flushes what is pending, even when the clock reading is an earlier one. |
| `TimeSeries.StepKeepsInv` | src/stats/timeseries.hpp:36-54 | Every record and every flush of any writer keeps the agreement between shared list, pending histograms and samples. |
| `TimeSeries.AgreesWithDirectBucketing` | src/stats/timeseries.hpp:36-55 | In every reachable state of any number of writers, for every second, the shared histogram joined with what is pending for it counts exactly the samples whose finishing instants lie in that second of the run. |
| `TimeSeries.AfterFinalFlushes` | src/stats/timeseries.hpp:45-54 | Once nothing is pending, each second is exactly its samples, the seconds merge to the whole, and the list ends at the last second in which anything finished. |
| `ClosedLoop.AttemptsAreMeasuredTurns` | src/load/worker.cpp:33-60 | A worker's attempts are exactly the turns it began inside the measured window; what began in warm-up leaves no trace. |
| `ClosedLoop.BooksAreTurns` | src/load/worker.cpp:28-107 | Over any turns, failed connects, opened connections and measured exchanges are counted off the turns themselves, and every latency is the exchange's own time. |
| `ClosedLoop.RecordedIsWhatHappened` | src/load/worker.cpp:38-101 | In every reachable state each worker has recorded its exchanges that began after warm-up, and the series each timed one at the instant it finished. |
| `ClosedLoop.UnusableIsDropped` | src/load/worker.cpp:103-105 | Whatever a worker reads, a connection left unusable by an exchange carries no further request. |
| `ClosedLoop.StepKeepsInv` | src/load/worker.cpp:28-107 | Every step of any worker keeps each tally its own worker's and the series telling the same samples as the histograms. |
| `ClosedLoop.JoinedRunViewsAgree` | src/load/closed_loop.cpp:66-76 | For every closed-loop run with the series on, once the workers are joined and their writers flushed, the per-second list merges to exactly the run's histogram and each second is exactly its own samples. |
| `ClosedLoop.WorkersAreSequential` | src/load/worker.cpp:28-107 | Each finished worker's books are those of its own turns, and its attempts its measured turns, whatever was interleaved. |
| `ClosedLoop.WritersAreSequential` | src/load/worker.cpp:65-74 | In every reachable state each worker's writer holds what its own turns alone would leave in it, until the merging thread has flushed it. |
| `ClosedLoopWorkers.ConnectionWorker.RecordOutcome` | src/load/worker.cpp:75-100 | The latency reaches the histogram for exactly three outcomes, and every outcome but success reaches exactly one counter. |
| `ClosedLoopWorkers.ConnectionWorker.Serve` | src/load/worker.cpp:62-105 | One exchange is accounted in the histogram, the counters and the series together, or not at all during warm-up, and decides whether the socket survives. |
| `ClosedLoopWorkers.ConnectionWorker.Run` | src/load/worker.cpp:28-107 | The loop in place leaves the books, and tells the series, what the specification of the worker's turns gives; its writer ends with the pending histogram it had or a new one, so workers sharing a series do not meet. |
| `ClosedLoopWorkers.ConnectionWorker.Finish` | src/load/worker.cpp:109-115 | The last partial second reaches the shared series. |
| `ClosedLoopWorkers.ClosedLoopRun.Collect` | src/load/closed_loop.cpp:66-76 | Flushes and folds in every worker: the run's histogram is all their samples, the accounts are consistent, and the per-second list is the series after every flush. |
| `ClosedLoopWorkers.CollectedViewsAgree` | src/load/closed_loop.cpp:66-76 | When what was collected comes from a joined run, the per-second histograms of the run object add up to its own histogram, counter for counter. |
| `Text.Find` | src/load/http.cpp:104-125 | The first occurrence at or after a position, or none when there is none. |
| `Text.FindInPrefix` | src/load/http11_get.cpp:34-38 | More bytes neither move nor hide the first occurrence, and a prefix too short for it holds none. |
| `Text.PrintThenRead` | src/core/endpoint.cpp:126-131 | Printing a number in decimal and reading it back returns it. |
| `Http.ReadStatusCode` | src/load/http.cpp:45-71 | The digit loop finds a code exactly for an HTTP/1.0 or 1.1 version, three digits and no fourth. |
| `Http.StatusExactly` | src/load/http.cpp:45-71 | A code is read if and only if the text starts with an HTTP/1.0 or 1.1 version and exactly three decimal digits, and it is their value. |
| `Http.MatchIgnoringCase` | src/load/http.cpp:75-90 | Names match exactly when they have one length and agree letter by letter up to ASCII case. |
| `Http.CaseExactly` | src/load/http.cpp:75-90 | Two characters match if and only if they are equal or one is a letter A to Z and the other the same letter a to z. |
| `Http.StripSpaces` | src/load/http.cpp:92-100 | The two trimming loops compute the specification of trimming. |
| `Http.TrimExactly` | src/load/http.cpp:92-100 | Trimming recovers the value from any spaces around it: exactly the surrounding spaces go. |
| `Http.LinesReadBack` | src/load/http.cpp:108-126 | Lines joined by line breaks, none holding a break of its own, are read back as they were. |
| `Http.LinesCoverText` | src/load/http.cpp:108-126 | Cutting any text into lines loses nothing: joined again they are the text. |
| `Http.FindHeader` | src/load/http.cpp:104-128 | The line-walking loop returns the first field of the name among the lines after the status line. |
| `Http.FirstFieldWins` | src/load/http.cpp:104-128 | The value is the trimmed text after the first colon of the first line whose whole name matches, however it is spelled and whatever else the header holds. |
| `Http.ReadContentLength` | src/load/http.cpp:130-148 | The overflow check before each digit accepts exactly the non-empty decimal numbers below 2^64. |
| `Http.LengthExactly` | src/load/http.cpp:130-148 | A length is declared if and only if the field's value is a non-empty run of decimal digits below 18,446,744,073,709,551,616, and it is their value. |
| `Http.RequestReadsBack` | src/load/http.cpp:23-43 | Whatever host and path are accepted, the request reads back as one request line, three fields and a blank line. |
| `Http.RequestExactly` | src/load/http.cpp:15-43 | Each refusal has its own fault in host or path, and an accepted request is these bytes. |
| `Framing.MakeRawEcho` | src/load/raw_echo.cpp:11-25 | A zero size is refused; otherwise the payload has that size and the repeating alphabet pattern. |
| `Framing.SuccessExactly` | src/load/http11_get.cpp:74-80 | An HTTP reply succeeds if and only if its status line is HTTP/1.0 or 1.1 with exactly three digits starting with 2; a complete echo always does. |
| `Framing.YesAndNo` | src/load/http11_get.cpp:74-80 | A bare 200 and a bare 503 are both complete; the first succeeds and the second does not. |
| `Framing.ConsumeHttp` | src/load/http11_get.cpp:31-72 | The decisions, made by the scanning loops, are those of the specification, the 64-bit wrap of the total included. |
| `Framing.OneComplete` | src/load/http11_get.cpp:62-71 | Framing law, both protocols: of any bytes at most one prefix is a complete reply. |
| `Framing.ShorterOfComplete` | src/load/http11_get.cpp:34-38 | Every shorter prefix of a complete reply is waited for, unless it is still inside a header block over 64 KiB, which is malformed. |
| `Framing.AwaitedExactly` | src/load/http11_get.cpp:34-38 | A complete reply is waited for through all its prefixes if and only if it is a raw echo or its header block fits in 64 KiB. |
| `Framing.LongerThanComplete` | src/load/http11_get.cpp:69-71 | Every extension of a complete reply is malformed. |
| `Framing.WaitingIsBounded` | src/load/http11_get.cpp:34-65 | Reading always stops: a reply still waited for has at most 64 KiB and no blank line yet, or a declared length and fewer bytes than head, blank line and body make; for an echo, fewer than the payload. |
| `Framing.WaitsExactly` | src/load/http11_get.cpp:31-72 | More is awaited if and only if no blank line has come in at most 65,536 bytes, or the head names no transfer coding and declares a length not yet there; for an echo, while it is short. |
| `Framing.WrappedNeverCompletes` | src/load/http11_get.cpp:62-71 | A Content-Length whose 64-bit total wraps is malformed as soon as the header is whole, so it never completes. |
| `Framing.CompleteExactly` | src/load/http11_get.cpp:31-72 | A head, a blank line and a body are complete if and only if there is no Transfer-Encoding and the body has the declared length, or nothing is declared, the status carries no body and none has come. |
| `Framing.DeclaredReplyCompletes` | src/load/http11_get.cpp:50-68 | A reply as a server writes it, declaring n bytes under any spelling and among any other fields, is complete exactly when its body has n bytes. |
| `Framing.DeclaredIsAwaited` | src/load/http11_get.cpp:50-65 | Under any status, a positive declared length is waited for once the head is whole. |
| `Framing.DeclaredOutranksStatus` | src/load/http11_get.cpp:43-68 | Section 6.3 of RFC 9112 ends a 1xx, 204 or 304 at its headers: the code does if and only if no Transfer-Encoding is named and no length is declared or a length of zero. |
| `Framing.NotModifiedWaits` | src/load/http11_get.cpp:50-65 | One input that fails: a 304 declaring five bytes is waited for after its headers. |
| `Framing.ChunkedNotModifiedIsRefused` | src/load/http11_get.cpp:43-48 | Another: a 304 naming a transfer coding declares no length and is malformed. |
| `Framing.OversizeHeadIsRefused` | src/load/http11_get.cpp:34-38 | The replies that fail: with 64 KiB or more of padding in one field, a reply complete when whole is refused when seen in part. |
| `Exchanges.PerformRequest` | src/load/exchange.cpp:10-78 | Writes the request once. A late write is a timeout and a failed one a write failure. Otherwise every read but the last brought bytes that left the reply unfinished, and the last decides: late is a timeout of that duration, broken or empty a read failure, malformed bytes a protocol error, a whole reply a success or a rejection by its status line; the buffer holds what the reads brought. |
| `Exchanges.UnavailableIsRejected` | src/load/exchange.cpp:69-76 | A 503 that arrives whole is a timed rejection on a usable connection, a 200 a success. |
| `Exchanges.ElapsedIsDifference` | src/load/exchange.cpp:18-42 | On a clock that does not go back, the elapsed time of a timed outcome is the plain difference of two readings. |
| `Exchanges.ReceptionSettles` | src/load/exchange.cpp:35-77 | The buffer is left holding exactly what the exchange's reads brought, and the connection is usable if and only if that is one complete reply, if and only if the outcome is a success or a rejection. |
| `Exchanges.StaysSynchronised` | src/load/exchange.hpp:33-40 | For any stream of complete replies and any segmentation, while exchanges leave a connection usable the k-th has received exactly the k-th reply and together they have consumed exactly the first k. |
| `Exchanges.UsableExactly` | src/load/exchange.cpp:35-77 | An exchange that starts in step leaves the connection usable if and only if its reply arrives whole in reads of its own, none but the last stopping inside a head of more than 64 KiB. |
| `Exchanges.RepliesNeverMisattributed` | src/load/exchange.cpp:20-77 | Over all connections of a worker that drops the unusable ones, failed writes included, every accepted reply is the reply to its own request and is recorded as the success or rejection it is. |
| `Connections.OpenLoopRepliesAreItsOwn` | src/load/open_loop.cpp:52-135 | Whatever an open-loop worker goes through, with exchanges as PerformRequest makes them, every reply it accepts is the reply to its own request. |
| `Connections.ClosedLoopRepliesAreItsOwn` | src/load/worker.cpp:32-106 | The same of every closed-loop worker. |
| `Knobs.SplitOn` | src/fault/knobs.cpp:223-236 | The splitting loop computes the words of a line. |
| `Knobs.SeparatorSplits` | src/fault/knobs.cpp:223-236 | The words of a text around any separator are the words before it and the words after it. |
| `Knobs.TwoArguments` | src/fault/knobs.cpp:223-236 | A verb and its arguments come back as they were written. |
| `Knobs.StoredAlike` | src/fault/knobs.cpp:47-57 | Two cuts are stored alike if and only if they are between the same two nodes, either way round. |
| `Knobs.RefusalChangesNothing` | src/fault/knobs.cpp:268-326 | An error reply means no setting changed, for every command line. |
| `Knobs.LatencyCommand` | src/fault/knobs.cpp:281-286 | Two whole numbers of milliseconds, neither negative and the jitter not above the mean, set both in nanoseconds; each fault has its own refusal. |
| `Knobs.DropCommand` | src/fault/knobs.cpp:287-291 | A number in [0, 1] sets the nearest parts per million; anything else is refused. |
| `Knobs.CutCommands` | src/fault/knobs.cpp:302-311 | Partition adds the cut between two different nodes and heal removes it, and neither touches anything else. |
| `Knobs.OtherCommands` | src/fault/knobs.cpp:292-316 | Hang is on for 1 and true and off otherwise, identity renames, clear leaves only the identity, status changes nothing. |
| `Knobs.StatusCommand` | src/fault/knobs.cpp:317-320 | Status says no faults if and only if the settings are those of a fresh node of that name. |
| `Knobs.OtherLines` | src/fault/knobs.cpp:268-326 | An empty line, a wrong number of arguments and an unknown verb are each refused for that reason. |
| `Knobs.SettingsStaySane` | src/fault/knobs.cpp:118-189 | After every sequence of commands, jitter is between zero and the latency, drops are a fraction, and every cut is between two different named nodes. |
| `Knobs.DropInRange` | src/fault/knobs.cpp:132-139 | A drop probability becomes at most a million parts per million, and none exactly below half a part per million. |
| `Knobs.PartitionThenHeal` | src/fault/knobs.cpp:151-189 | A partition blocks both its nodes and no other pair, a heal written either way round undoes exactly it, and clearing leaves no fault but keeps the identity. |
| `Knobs.FaultKnobs.SetLatency` | src/fault/knobs.cpp:118-130 | Refuses negatives and jitter above the mean without changing anything; otherwise sets both and refreshes the gate. |
| `Knobs.FaultKnobs.SetDropProbability` | src/fault/knobs.cpp:132-139 | Refuses anything outside [0, 1]; otherwise sets the rounded parts per million and refreshes the gate. |
| `Knobs.FaultKnobs.Partition` | src/fault/knobs.cpp:151-164 | Refuses empty or equal names; otherwise adds the unordered cut, through its sorted pair, and both gates follow. |
| `Knobs.FaultKnobs.Heal` | src/fault/knobs.cpp:166-173 | Removes the cut whichever way round it is named, and both gates follow. |
| `Knobs.FaultKnobs.Clear` | src/fault/knobs.cpp:175-189 | Every fault is off and both gates with it; the identity stays. |
| `Knobs.FaultKnobs.Blocked` | src/fault/knobs.cpp:103-116 | The two gates and the sorted lookup answer exactly whether there is a cut between this node and the peer. |
| `Knobs.FaultKnobs.Delay` | src/fault/knobs.cpp:65-89 | For any jitter drawn in its range the wait is mean plus draw and never negative, with or without the gate. |
| `Knobs.FaultKnobs.ShouldDrop` | src/fault/knobs.cpp:91-101 | A response is dropped exactly when the draw is below the probability, with or without the gate. |
| `Knobs.FaultKnobs.ApplyCommand` | src/fault/knobs.cpp:268-326 | The verb dispatch on the gated knobs is the command language on the plain settings, reply for reply, and the gate says whether some fault is on. |
| `Control.Serve` | src/fault/control.cpp:29-67 | Whatever the segmentation, the complete lines of the byte stream are applied once each, in order, and answered in order; the leftover is the stream's; a reply that cannot be written ends the connection after its command was applied. |
| `Control.StreamGrows` | src/fault/control.cpp:42-64 | More bytes complete the line that was waiting and leave every earlier line as it was. |
| `Control.CommandOfLine` | src/fault/control.cpp:45-50 | One carriage return before the newline is taken off the command, and nothing else. |
| `Control.LinesCoverStream` | src/fault/control.cpp:44-48 | The complete lines and the leftover are the whole stream, and no line or leftover holds a newline. |
| `Quoting.Quote` | src/stats/csv.cpp:22-41 | The quoting loop computes the quoted form. |
| `Quoting.UnquotedExactly` | src/stats/csv.cpp:23-30 | A value is written as it stands if and only if it holds no comma, quote, carriage return or newline. |
| `Quoting.FieldReadsBack` | src/stats/csv.cpp:22-41 | Any string at all, quoted, is read back by a reader of section 2 of RFC 4180 and leaves the rest of the record untouched. |
| `Quoting.RoundTripExactly` | src/stats/csv.cpp:22-41 | A record of any strings reads back as written if and only if it has a field; a record of none reads as one empty field. |
| `Quoting.FileReadsBack` | src/stats/csv.hpp:25-31 | A file of such records reads back whole: commas, quotes and line breaks inside a field never move a boundary. |
| `Endpoints.ParsePort` | src/core/endpoint.cpp:22-39 | The digit loop answers as the specification, first fault first. |
| `Endpoints.DigitsExactly` | src/core/endpoint.cpp:26-37 | Checking the bound at every digit accepts exactly the decimal numbers up to 65535, however long the text. |
| `Endpoints.ScanHost` | src/core/endpoint.cpp:106-113 | The scan finds the first forbidden character. |
| `Endpoints.MakesExactlyValid` | src/core/endpoint.cpp:43-63 | The constructor accepts exactly a non-empty host without brackets and a non-zero port. |
| `Endpoints.ParseEndpoint` | src/core/endpoint.cpp:65-117 | Parsing, by the scanning loops, gives the endpoint or the first problem of the specification. |
| `Endpoints.AcceptsExactly` | src/core/endpoint.cpp:65-117 | A text parses if and only if it is a clean host and a decimal port from 1 to 65535, with brackets around the host just when it holds a colon; and to exactly those. |
| `Endpoints.SplitFault` | src/core/endpoint.cpp:65-104 | Each refusal to split host from port names a fault the text has. |
| `Endpoints.HostFault` | src/core/endpoint.cpp:106-113 | The character complained of is in the host and is one of the six refused. |
| `Endpoints.PortFault` | src/core/endpoint.cpp:22-39 | Each refusal of a port names a fault it has. |
| `Endpoints.ConstructorFault` | src/core/endpoint.cpp:43-63 | Each refusal of the constructor names a fault of the host or port. |
| `Endpoints.RoundTripExactly` | src/core/endpoint.cpp:119-131 | An endpoint the constructor accepts prints to a text that parses back to it if and only if its host holds no space, tab, slash, backslash, at sign or question mark. |
| `Endpoints.SpaceDoesNotComeBack` | src/core/endpoint.cpp:106-113 | The input that fails: host "a b" at port 80 is a valid endpoint whose printed form is refused for the space. |
| `Endpoints.ParseStrParse` | src/core/endpoint.cpp:65-131 | Whatever parse accepts is valid and clean, and prints to something that parses to it again, bracketed IPv6 included. |
| `Endpoints.StrInjective` | src/core/endpoint.cpp:126-131 | No two endpoints the constructor accepts print alike. |
| `Endpoints.PrintedAsTypedExactly` | src/core/endpoint.cpp:65-131 | An accepted text is what is printed back if and only if its port has no leading zero. |
| `Endpoints.LeadingZeroIsLost` | src/core/endpoint.cpp:22-39 | The input that fails: "h:080" is accepted as port 80 and printed otherwise. |

## Left out

- Real sockets, listeners, name resolution and polling: a socket is a sequence of answers to reads and writes, and connecting is an answer of its own. Setting timeouts after a connect is taken to succeed.
- The clock and thread creation: time is a non-decreasing value the environment advances, and running out of threads is a smaller number of workers.
- Durations before the clock's own guarantee: the model takes a negative difference of clock readings as zero where the source would store it; on a clock that does not go back the two agree (`Exchanges.ElapsedIsDifference`, `Accounts.ClockedIsUnclamped`).
- Floating-point rounding: rates, percentages and drop probabilities are exact reals, so NaN and infinity, which the rate and probability checks also refuse, do not arise, and nothing is said about the last bit of a double.
- The width of counters: sample counts, schedule indices, latencies and fault delays are unbounded integers. The one width that decides a branch, the 64-bit total of a declared body, is modelled with its wrap.
- Histogram contents of `TimeSeries.Series`: the shared per-second list holds histogram values rather than histogram objects, so aliasing between its elements is not captured; each writer's pending histogram is an object, and a flush replaces it.
- Two setters of the fault knobs racing on the gate, or a reader between the two stores of one setter: the gate invariant is stated between complete calls.
- The sleeping and drawing inside `before_response` and `should_drop`: only the range of the draw and what follows from it, and the hang as a setting.
- Loading faults from the environment, and reading numbers from text in commands: which texts are numbers is a parameter.
- Which of two unreadable numbers in one `latency` command is complained about is left to the evaluation order of C++; the model takes the first.
- The wording of error messages: each reason is a value.
- Message bodies without a declared length, chunked encoding and everything else of RFC 9112 that the code refuses to frame.
- Writing to several addresses in turn, and the reconnect delay: a connect either succeeds or fails.
- The text of CSV numbers, the summary and per-second rows, and the header lines: a histogram row is four numbers.
- The command-line programs, flags, stopwatch, error classes, scripts and build: plumbing.
- Cost: nanoseconds per operation, lock freedom and memory size are not functional properties.

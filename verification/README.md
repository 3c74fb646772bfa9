# Per-region latency bookkeeping of a multi-proxy RTT monitor

The monitor sends one HTTP request at a time through each of several SOCKS
proxies ("regions") and keeps, for every region, counters of sent, received
and lost requests, running latency aggregates (sum, minimum, maximum), a
recent log capped at 5000 entries and a rolling log of the last hour. After
each completed probe it shows the loss rate, the mean latency, the latency
range and a grade of the latest value; a failed request prints only an
error message (main.py:94).

This project models that bookkeeping as pure functions over immutable
values and proves its invariants:

- `Thresholds` — the constants 60 / 100 / 1000 ms; `Measure` turns an
  elapsed time into a stored value or a loss, and `GradeOf` / `Classify`
  grade it Good, Normal, Bad or Loss.
- `Stats` — the per-region record, the update `Apply` for one measurement,
  the derived display values (`LossRate`, `MeanRtt`, `ShownMin`), and
  `Replay`, the record after a whole sequence of measurements. `Replay` is
  compared with direct definitions: counts, the sum of the received values,
  and their least and greatest.
- `History` — the count-bounded recent log (`PushRecent`) and the
  age-bounded rolling log (`PushWindow`, `DropStale`, and the loop
  `EvictStale`).
- `Monitor` — all regions together. `Record` is the effect of one probe.
  `Run` applies a sequence of probes. `Status` holds the values shown
  after a probe.

A request that raises returns before the critical section, so it records
nothing at all. It is not counted as sent and not counted as lost
(main.py:93-95). A failed request therefore never shows up in the loss
counter or the loss rate. The code also presets
`elapsed_ms` to `THRESHOLD_LOSS + 1` (main.py:88), but that value is never
used, because the only path that skips the assignment at line 92 is the
early return.

Latencies and timestamps are `real`. The program's initial minimum of
positive infinity is `None`. The round trip and the clock readings are
inputs of a `Probe`. Its outcome is either `Raised` or
`Completed(elapsedMs, clock, ts, now)`. The clock readings exist only for a
completed request, because the code reads them after the early return:
the time of day as text and the epoch timestamp (main.py:97-98), and the
clock reading used for eviction (main.py:109).

## Model

| member | source | states |
|---|---|---|
| Thresholds.Measure | main.py:101 | a completed round trip is lost exactly when its elapsed time exceeds 1000 ms (so exactly 1000 ms is received), and a kept value is the elapsed time |
| Thresholds.GradeOf | main.py:123-128 | a received value is Good exactly below 60, Bad exactly above 100, Normal exactly on 60..100 inclusive, and never Loss |
| Thresholds.Classify | main.py:114-128 | an absent value is graded Loss and nothing else is; a present value gets its latency grade |
| Thresholds.ClassifyMeasureMonotone | main.py:101-128 | the grade of a round trip is Loss iff it exceeded the loss threshold, and a slower round trip never gets a better grade |
| Thresholds.Boundaries | main.py:18-20 | boundary cases: 1000 ms is received, just over it is lost, 60 and 100 are Normal |
| Stats.Apply | main.py:112-121 | one measurement adds exactly one sent; a loss adds one lost and changes nothing else; a received value adds one received, adds to the sum, lies between the new minimum and maximum; the minimum never rises and the maximum never falls |
| Stats.ApplyPreservesValid | main.py:112-121 | received + lost == sent, a minimum exists iff something was received, and minimum <= maximum are kept by every update |
| Stats.ApplyPreservesSumBounded | main.py:119-121 | the sum stays between received × minimum and received × maximum |
| Stats.LossRate | main.py:130 | loss rate is 0 when nothing was sent; otherwise it lies in [0, 100], is 0 iff nothing was lost and 100 iff everything was |
| Stats.MeanRtt | main.py:131 | mean is 0 when nothing was received; otherwise it lies between the minimum and the maximum |
| Stats.ShownMin | main.py:140 | the displayed minimum is 0 while no value has been received and never exceeds the maximum |
| Stats.ReplayCounts | main.py:112-121 | after any sequence of measurements: sent is their number, received the number of present ones, lost the number of absent ones, the sum is the sum of the received values, and the record is consistent |
| Stats.ReplayExtremes | main.py:56-57 | after any sequence of measurements the minimum is the least received value (absent if none) and the maximum the greatest received value, or 0 |
| Stats.ReplaySumBounded | main.py:119-121 | after any sequence of measurements the sum lies between received × minimum and received × maximum |
| Stats.ReplayMonotone | main.py:119-121 | across any continuation of a sequence, the counters only grow, the minimum never increases and the maximum never decreases |
| History.PushRecent | main.py:102-106 | the new entry is last; a log of at most 5000 stays at most 5000; below capacity nothing is dropped; at capacity exactly the oldest entry is dropped |
| History.FillRecentKeepsNewest | main.py:105-106 | after any pushes onto an empty log it holds exactly the newest min(count, 5000) entries in push order |
| History.DropStale | main.py:109-110 | eviction leaves a suffix of the log; every dropped entry is older than the cutoff and the first kept one is not |
| History.EvictStale | main.py:109-110 | the front-popping loop leaves a suffix, drops only entries older than the cutoff, stops at the first fresh one, and equals `DropStale` |
| History.DropStaleOnChronological | main.py:109-110 | on a chronological log eviction keeps exactly the entries not older than the cutoff, and they stay in order |
| History.DropStaleExact | main.py:109-110 | on a chronological log an entry is kept iff it is not older than the cutoff |
| History.DropStaleChronological | main.py:109-110 | what eviction keeps of a chronological log is chronological |
| History.PushWindow | main.py:103-110 | appending then evicting leaves a suffix of the extended log; every dropped entry is older than now − 3600 and the oldest kept one is not |
| History.PushWindowSuffix | main.py:103-110 | after an append the rolling log is a suffix of (old log ++ [new entry]), and the new entry is kept when it is within the window |
| History.PushWindowKeepsSuffix | main.py:103-110 | a rolling log that is a suffix of some entry sequence stays, after an append, a suffix of that sequence followed by the new entry |
| History.PushWindowEvictsStale | main.py:103-110 | with non-decreasing timestamps, an entry survives an append iff its timestamp is >= now − 3600, and the log stays chronological |
| Monitor.Start | main.py:45-61 | one region per proxy, each with zero counters, no minimum, maximum 0 and two empty logs |
| Monitor.StartValid | main.py:49-61 | every region of the start state is consistent |
| Monitor.RecordRegion | main.py:100-121 | one measurement adds one sent request and keeps the stats consistent, puts its entry last in the recent log without exceeding 5000, and leaves a rolling log that is a suffix of the old one plus the new entry |
| Monitor.Record | main.py:89-112 | a probe whose request raised leaves every region unchanged; any probe leaves every region other than its own unchanged |
| Monitor.RecordEffect | main.py:100-121 | a completed probe adds exactly one sent; it adds one lost iff it exceeded 1000 ms, changing nothing else in the stats, and otherwise one received, leaving the loss count alone, lying in the new [min, max]; the recent log ends with the new entry; the rolling log ends with it when it is within the window |
| Monitor.RecordPreservesValid | main.py:100-121 | a probe keeps every region consistent (counters, capacity, chronological rolling log) when its timestamp is not older than its region's newest entry |
| Monitor.Run | main.py:160-163 | a run of probes keeps the number of regions |
| Monitor.RunFromStart | main.py:93-121 | from the start state each region's stats are the replay of its own completed measurements and its recent log is filled with its own entries; other regions' probes and raised requests leave no trace in either |
| Monitor.RecordReplayStep | main.py:100-121 | one probe extends its own region's measurements and recent entries by one, and any other region's, or any region's for a raised request, by nothing |
| Monitor.RunWindowFromStart | main.py:93-110 | from the start state each region's rolling log is a suffix of its own entries in order; other regions' probes and raised requests leave no trace in it |
| Monitor.RecordWindowSuffix | main.py:103-110 | one probe keeps a region's rolling log a suffix of its entries, extended by the probe's entry only for a completed probe of that region |
| Monitor.RunCounts | main.py:102-118 | over any run each region's sent equals its number of completed probes, received + lost == sent, the sum is the sum of its received values, and the recent log holds its newest entries, at most 5000 |
| Monitor.RunExtremes | main.py:119-131 | over any run each region's minimum and maximum are the least and greatest of its received values, and its mean lies between them |
| Monitor.LastCompleted | main.py:93-98 | the position of the last completed probe, every later probe having raised, or -1 when none completed |
| Monitor.RunStaysValid | main.py:93-121 | when completed probes carry non-decreasing timestamps (raised ones carry none), every region stays consistent over a whole run, no rolling-log entry is newer than the last completed probe, and a run with no completed probe is the start state |
| Monitor.RecordStep | main.py:100-121 | a completed probe stamped no earlier than every rolling-log entry keeps every region consistent and leaves no entry newer than itself |
| Monitor.Status | main.py:114-141 | the shown line carries the counters, the maximum and the latest value, grade Loss iff the value is absent, a loss rate in [0, 100], a displayed minimum no larger than the maximum, and a mean inside the range |
| Monitor.RecordStatus | main.py:114-140 | after a completed probe of a region with consistent counters, whatever the order of its rolling log, the line shows at least one sent, a loss rate in [0, 100], grade Loss iff over 1000 ms, and otherwise the measured value, its latency grade, and the value inside the displayed range |

## Left out

- Session construction, SOCKS proxy set-up and the HTTP/2 warm-up (main.py:30-42, 147-156): foreign library calls with no logic to state.
- The round trip itself and the `time.time()` / `datetime.now()` readings (main.py:87-92, 97-98): I/O and clock reads. They are inputs of `Probe`.
- The eviction loop re-reads the clock on every iteration (main.py:109). The model uses one reading, `now`, for the whole loop.
- Threading, the global lock, the daemon thread, the `running` flag and the sleep cadence (main.py:63-64, 159-164, 173-177): concurrency plumbing. The critical section (main.py:100-143) is modelled as one atomic step. `Run` applies probes in sequence.
- Signal handling and client shutdown (main.py:67-80): process I/O.
- Terminal output and string formatting (main.py:94 error message, 116-128 strings, 133-143): presentation. The shown values, the latest value and its grade are kept; the region name, the time-of-day text and the number formats are not.
- IEEE floating point: sums, divisions and comparisons are exact on `real`. Rounding and the infinity value are not modelled.
- The thresholds are global constants (main.py:18-20). There is no per-region configuration and no validation. The loop sleeps `INTERVAL` after each probe (main.py:164) rather than keeping a fixed cadence.
- Monitor.RecordStatus: does not state the mean-in-range property for one step. That needs the sum bound, which `RunExtremes` states for whole runs from the start state.

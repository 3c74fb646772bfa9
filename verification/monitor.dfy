/** The monitor over all regions: the per-region state, the update one
    probe makes to it, and the status values shown after each probe.
    The update is the body of the critical section of one probe, taken as
    one atomic step; the round trip and the clock readings are its inputs. */
module Monitor {
  import opened Options
  import opened Thresholds
  import opened Stats
  import opened History

  /** Everything the monitor keeps for one region. */
  datatype Region = Region(stats: RegionStats, recent: seq<RecentEntry>, window: seq<WindowEntry>)

  /** How the request of one probe ended. It raised, and nothing more was
      read; or it completed after `elapsedMs` milliseconds, and then the time
      of day as text and the epoch timestamp were read, and `now` is the
      clock reading the eviction of the rolling log compares against. */
  datatype Outcome =
    | Raised
    | Completed(elapsedMs: real, clock: string, ts: real, now: real)

  /** One probe of region `idx`. */
  datatype Probe = Probe(idx: nat, outcome: Outcome)

  /** The values shown after a probe: counters, loss rate in percent, mean,
      displayed minimum and maximum, the latest value (absent for a loss)
      and its grade. */
  datatype StatusLine = StatusLine(
    sent: nat,
    loss: nat,
    lossRate: real,
    meanRtt: real,
    shownMin: real,
    rttMax: real,
    latest: Option<real>,
    grade: Grade)

  /** The consistency a region keeps between probes. */
  ghost predicate RegionValid(r: Region) {
    && Valid(r.stats)
    && |r.recent| <= RecentCapacity
    && Chronological(r.window)
  }

  /** The state before any probe: one empty region per configured proxy. */
  function Start(n: nat): (m: seq<Region>)
    ensures |m| == n
    ensures forall i :: 0 <= i < n ==> m[i] == Region(Fresh, [], [])
  {
    seq(n, _ => Region(Fresh, [], []))
  }

  /** Every region of the start state is consistent. */
  lemma StartValid(n: nat)
    ensures forall i :: 0 <= i < n ==> RegionValid(Start(n)[i])
  {
    EmptyRegionValid();
  }

  lemma EmptyRegionValid()
    ensures RegionValid(Region(Fresh, [], []))
  {
  }

  /** The effect of one measurement on its own region: one more sent
      request in the stats, the new entry last in the recent log (which
      stays within its capacity), and a rolling log that is a suffix of the
      old one extended by the new entry. */
  function RecordRegion(r: Region, val: Option<real>, clock: string, ts: real, now: real): (r': Region)
    ensures r'.stats.sent == r.stats.sent + 1
    ensures Valid(r.stats) ==> Valid(r'.stats)
    ensures |r'.recent| > 0 && r'.recent[|r'.recent| - 1] == RecentEntry(clock, val)
    ensures |r.recent| <= RecentCapacity ==> |r'.recent| <= RecentCapacity
    ensures IsSuffix(r'.window, r.window + [WindowEntry(ts, val)])
  {
    Region(Apply(r.stats, val),
           PushRecent(r.recent, RecentEntry(clock, val)),
           PushWindow(r.window, WindowEntry(ts, val), now))
  }

  /** The effect of one probe. A request that raised changes nothing at all;
      a completed one changes region `idx` only. */
  function Record(m: seq<Region>, p: Probe): (m': seq<Region>)
    requires p.idx < |m|
    ensures |m'| == |m|
    ensures forall i :: 0 <= i < |m| && i != p.idx ==> m'[i] == m[i]
    ensures p.outcome.Raised? ==> m' == m
  {
    match p.outcome
    case Raised => m
    case Completed(elapsed, clock, ts, now) =>
      m[p.idx := RecordRegion(m[p.idx], Measure(elapsed), clock, ts, now)]
  }

  /** A completed probe counts exactly one more sent request; it is lost
      exactly when it took longer than the loss threshold and otherwise lies
      between the new minimum and maximum. The recent log ends with the new
      entry and the rolling log keeps it when it is within the window. */
  lemma RecordEffect(m: seq<Region>, p: Probe)
    requires p.idx < |m| && p.outcome.Completed?
    ensures var o, before, after := p.outcome, m[p.idx], Record(m, p)[p.idx];
      var e := o.elapsedMs;
      && after.stats.sent == before.stats.sent + 1
      && (after.stats.loss == before.stats.loss + 1 <==> e > LossMs)
      && (after.stats.received == before.stats.received + 1 <==> e <= LossMs)
      && (e > LossMs ==>
            after.stats == before.stats.(sent := before.stats.sent + 1, loss := before.stats.loss + 1))
      && (e <= LossMs ==> after.stats.loss == before.stats.loss)
      && (e <= LossMs ==>
            after.stats.rttMin.Some? && after.stats.rttMin.value <= e <= after.stats.rttMax
            && after.stats.rttSum == before.stats.rttSum + e)
      && after.recent[|after.recent| - 1] == RecentEntry(o.clock, Measure(e))
      && (o.ts >= o.now - WindowSeconds ==>
            |after.window| > 0 && after.window[|after.window| - 1] == WindowEntry(o.ts, Measure(e)))
  {
    var o := p.outcome;
    PushWindowSuffix(m[p.idx].window, WindowEntry(o.ts, Measure(o.elapsedMs)), o.now);
  }

  /** A probe keeps every region consistent, provided a completed probe is
      stamped no earlier than the newest entry of its region's rolling log. */
  lemma RecordPreservesValid(m: seq<Region>, p: Probe)
    requires p.idx < |m|
    requires forall i :: 0 <= i < |m| ==> RegionValid(m[i])
    requires var w := m[p.idx].window;
      p.outcome.Completed? && |w| > 0 ==> w[|w| - 1].ts <= p.outcome.ts
    ensures forall i :: 0 <= i < |m| ==> RegionValid(Record(m, p)[i])
  {
    if p.outcome.Completed? {
      var r, o := m[p.idx], p.outcome;
      var val := Measure(o.elapsedMs);
      ApplyPreservesValid(r.stats, val);
      PushWindowEvictsStale(r.window, WindowEntry(o.ts, val), o.now);
      assert RegionValid(Record(m, p)[p.idx]);
    }
  }

  /** The state after the probes `ps`, in order. */
  function Run(m: seq<Region>, ps: seq<Probe>): (m': seq<Region>)
    requires forall k :: 0 <= k < |ps| ==> ps[k].idx < |m|
    ensures |m'| == |m|
    decreases |ps|
  {
    if |ps| == 0 then m
    else Record(Run(m, ps[..|ps| - 1]), ps[|ps| - 1])
  }

  /** The measurements that probes `ps` contribute to region `i`: those of
      its completed requests, in order. Raised requests contribute none. */
  function MeasurementsOf(ps: seq<Probe>, i: nat): seq<Option<real>> {
    if |ps| == 0 then []
    else
      var p := ps[|ps| - 1];
      MeasurementsOf(ps[..|ps| - 1], i)
        + (if p.idx == i && p.outcome.Completed? then [Measure(p.outcome.elapsedMs)] else [])
  }

  /** The recent-log entries that probes `ps` contribute to region `i`. */
  function RecentEntriesOf(ps: seq<Probe>, i: nat): seq<RecentEntry> {
    if |ps| == 0 then []
    else
      var p := ps[|ps| - 1];
      RecentEntriesOf(ps[..|ps| - 1], i)
        + (if p.idx == i && p.outcome.Completed?
           then [RecentEntry(p.outcome.clock, Measure(p.outcome.elapsedMs))] else [])
  }

  /** The rolling-log entries that probes `ps` contribute to region `i`. */
  function WindowEntriesOf(ps: seq<Probe>, i: nat): seq<WindowEntry> {
    if |ps| == 0 then []
    else
      var p := ps[|ps| - 1];
      WindowEntriesOf(ps[..|ps| - 1], i)
        + (if p.idx == i && p.outcome.Completed?
           then [WindowEntry(p.outcome.ts, Measure(p.outcome.elapsedMs))] else [])
  }

  /** From the start state, the stats of each region are the replay of that
      region's own measurements and its recent log is filled with that
      region's own entries: probes of other regions and raised requests
      leave no trace in either. */
  lemma {:induction false} RunFromStart(n: nat, ps: seq<Probe>, i: nat)
    requires forall k :: 0 <= k < |ps| ==> ps[k].idx < n
    requires i < n
    ensures Run(Start(n), ps)[i].stats == Replay(MeasurementsOf(ps, i))
    ensures Run(Start(n), ps)[i].recent == FillRecent(RecentEntriesOf(ps, i))
  {
    if |ps| > 0 {
      var init, p := ps[..|ps| - 1], ps[|ps| - 1];
      RunFromStart(n, init, i);
      var m := Run(Start(n), init);
      assert Run(Start(n), ps) == Record(m, p);
      RecordReplayStep(m, p, i, MeasurementsOf(init, i), RecentEntriesOf(init, i));
    }
  }

  /** One probe extends region `i`'s replayed measurements and recent-log
      entries by its own, when it is a completed probe of region `i`, and by
      nothing otherwise. */
  lemma RecordReplayStep(m: seq<Region>, p: Probe, i: nat, vals: seq<Option<real>>, es: seq<RecentEntry>)
    requires p.idx < |m| && i < |m|
    requires m[i].stats == Replay(vals) && m[i].recent == FillRecent(es)
    ensures var own := p.idx == i && p.outcome.Completed?;
      var v := if own then [Measure(p.outcome.elapsedMs)] else [];
      var r := if own then [RecentEntry(p.outcome.clock, Measure(p.outcome.elapsedMs))] else [];
      Record(m, p)[i].stats == Replay(vals + v) && Record(m, p)[i].recent == FillRecent(es + r)
  {
    if p.idx == i && p.outcome.Completed? {
      var o := p.outcome;
      var v := Measure(o.elapsedMs);
      ReplaySnoc(vals, v);
      FillRecentSnoc(es, RecentEntry(o.clock, v));
    } else {
      assert Record(m, p)[i] == m[i];
      assert vals + [] == vals;
      assert es + [] == es;
    }
  }

  /** From the start state, the rolling log of each region is what is left
      of that region's own entries, in order, after dropping some of the
      oldest: probes of other regions and raised requests leave no trace. */
  lemma {:induction false} RunWindowFromStart(n: nat, ps: seq<Probe>, i: nat)
    requires forall k :: 0 <= k < |ps| ==> ps[k].idx < n
    requires i < n
    ensures IsSuffix(Run(Start(n), ps)[i].window, WindowEntriesOf(ps, i))
  {
    if |ps| > 0 {
      var init, p := ps[..|ps| - 1], ps[|ps| - 1];
      RunWindowFromStart(n, init, i);
      var m := Run(Start(n), init);
      assert Run(Start(n), ps) == Record(m, p);
      RecordWindowSuffix(m, p, i, WindowEntriesOf(init, i));
    }
  }

  /** One probe keeps region `i`'s rolling log a suffix of its entries,
      extended by the probe's own entry when the probe is a completed one
      of region `i`. */
  lemma RecordWindowSuffix(m: seq<Region>, p: Probe, i: nat, ws: seq<WindowEntry>)
    requires p.idx < |m| && i < |m|
    requires IsSuffix(m[i].window, ws)
    ensures IsSuffix(Record(m, p)[i].window,
      ws + (if p.idx == i && p.outcome.Completed?
            then [WindowEntry(p.outcome.ts, Measure(p.outcome.elapsedMs))] else []))
  {
    var w := m[i].window;
    if p.idx == i && p.outcome.Completed? {
      var o := p.outcome;
      var e := WindowEntry(o.ts, Measure(o.elapsedMs));
      assert Record(m, p)[i].window == PushWindow(w, e, o.now);
      PushWindowKeepsSuffix(w, ws, e, o.now);
    } else {
      assert Record(m, p)[i] == m[i];
      assert ws + [] == ws;
    }
  }

  /** Over any run from the start state, each region has sent exactly one
      request per completed probe of its own; every sent request is either
      received or lost; `rttSum` is the sum of its received values; and the
      recent log holds that region's newest entries, at most
      `RecentCapacity` of them. */
  lemma RunCounts(n: nat, ps: seq<Probe>, i: nat)
    requires forall k :: 0 <= k < |ps| ==> ps[k].idx < n
    requires i < n
    ensures var s, vals := Run(Start(n), ps)[i].stats, MeasurementsOf(ps, i);
      && s.sent == |vals|
      && s.received + s.loss == s.sent
      && s.rttSum == Sum(Received(vals))
    ensures var es := RecentEntriesOf(ps, i);
      Run(Start(n), ps)[i].recent == es[|es| - Kept(|es|)..]
  {
    RunFromStart(n, ps, i);
    ReplayCounts(MeasurementsOf(ps, i));
    FillRecentKeepsNewest(RecentEntriesOf(ps, i));
  }

  /** Over any run from the start state, each region's `rttMin` and
      `rttMax` are the least and the greatest of its received values, and
      its mean lies between the two. */
  lemma RunExtremes(n: nat, ps: seq<Probe>, i: nat)
    requires forall k :: 0 <= k < |ps| ==> ps[k].idx < n
    requires i < n
    ensures var s, vals := Run(Start(n), ps)[i].stats, MeasurementsOf(ps, i);
      && ExtremesOf(s, Received(vals))
      && (s.rttMin.Some? ==> s.rttMin.value <= MeanRtt(s) <= s.rttMax)
  {
    var vals := MeasurementsOf(ps, i);
    RunFromStart(n, ps, i);
    ReplayCounts(vals);
    ReplayExtremes(vals);
    ReplaySumBounded(vals);
  }

  /** Every timestamp in the rolling logs of `m` is at most `t`. */
  ghost predicate StampedBy(m: seq<Region>, t: real) {
    forall i, k :: 0 <= i < |m| && 0 <= k < |m[i].window| ==> m[i].window[k].ts <= t
  }

  /** The completed probes among `ps` carry non-decreasing timestamps. */
  ghost predicate InTimeOrder(ps: seq<Probe>) {
    forall j, k ::
      0 <= j < k < |ps| && ps[j].outcome.Completed? && ps[k].outcome.Completed? ==>
        ps[j].outcome.ts <= ps[k].outcome.ts
  }

  /** Position of the last completed probe of `ps`, or -1 when there is none. */
  function LastCompleted(ps: seq<Probe>): (k: int)
    ensures -1 <= k < |ps|
    ensures k >= 0 ==> ps[k].outcome.Completed?
    ensures forall j :: k < j < |ps| ==> ps[j].outcome.Raised?
    decreases |ps|
  {
    if |ps| == 0 then -1
    else if ps[|ps| - 1].outcome.Completed? then |ps| - 1
    else LastCompleted(ps[..|ps| - 1])
  }

  /** Completed probes in chronological order keep every region consistent
      over a whole run from the start state; no rolling-log entry is newer
      than the last completed probe, and a run without one is the start
      state itself (`RunInvariant`). */
  lemma {:induction false} RunStaysValid(n: nat, ps: seq<Probe>)
    requires forall k :: 0 <= k < |ps| ==> ps[k].idx < n
    requires InTimeOrder(ps)
    ensures RunInvariant(n, ps)
  {
    if |ps| == 0 {
      StartValid(n);
    } else {
      InTimeOrderPrefix(ps);
      RunStaysValid(n, ps[..|ps| - 1]);
      if ps[|ps| - 1].outcome.Completed? {
        RunStepCompleted(n, ps);
      } else {
        RunStepRaised(n, ps);
      }
    }
  }

  /** What `RunStaysValid` states about the run of `ps` from the start state. */
  ghost predicate RunInvariant(n: nat, ps: seq<Probe>)
    requires forall k :: 0 <= k < |ps| ==> ps[k].idx < n
  {
    var m, k := Run(Start(n), ps), LastCompleted(ps);
    && (forall i :: 0 <= i < n ==> RegionValid(m[i]))
    && (k >= 0 ==> StampedBy(m, ps[k].outcome.ts))
    && (k < 0 ==> m == Start(n))
  }

  lemma RunStepCompleted(n: nat, ps: seq<Probe>)
    requires forall k :: 0 <= k < |ps| ==> ps[k].idx < n
    requires |ps| > 0 && ps[|ps| - 1].outcome.Completed?
    requires InTimeOrder(ps)
    requires RunInvariant(n, ps[..|ps| - 1])
    ensures RunInvariant(n, ps)
  {
    var init, p := ps[..|ps| - 1], ps[|ps| - 1];
    var m := Run(Start(n), init);
    var k0 := LastCompleted(init);
    if k0 >= 0 {
      assert ps[k0] == init[k0];
      StampedByWeaken(m, init[k0].outcome.ts, p.outcome.ts);
    } else {
      StartStampedBy(n, p.outcome.ts);
    }
    RecordStep(m, p);
    assert Run(Start(n), ps) == Record(m, p);
    assert LastCompleted(ps) == |ps| - 1;
  }

  lemma RunStepRaised(n: nat, ps: seq<Probe>)
    requires forall k :: 0 <= k < |ps| ==> ps[k].idx < n
    requires |ps| > 0 && ps[|ps| - 1].outcome.Raised?
    requires RunInvariant(n, ps[..|ps| - 1])
    ensures RunInvariant(n, ps)
  {
    var init := ps[..|ps| - 1];
    var k0 := LastCompleted(init);
    assert Run(Start(n), ps) == Run(Start(n), init);
    assert LastCompleted(ps) == k0;
    if k0 >= 0 {
      assert ps[k0] == init[k0];
    }
  }

  lemma InTimeOrderPrefix(ps: seq<Probe>)
    requires |ps| > 0 && InTimeOrder(ps)
    ensures InTimeOrder(ps[..|ps| - 1])
  {
    var init := ps[..|ps| - 1];
    forall j, k | 0 <= j < k < |init| && init[j].outcome.Completed? && init[k].outcome.Completed?
      ensures init[j].outcome.ts <= init[k].outcome.ts
    {
      assert init[j] == ps[j] && init[k] == ps[k];
    }
  }

  /** A completed probe stamped no earlier than every rolling-log entry
      keeps every region consistent and leaves no entry newer than itself. */
  lemma RecordStep(m: seq<Region>, p: Probe)
    requires p.idx < |m| && p.outcome.Completed?
    requires forall i :: 0 <= i < |m| ==> RegionValid(m[i])
    requires StampedBy(m, p.outcome.ts)
    ensures forall i :: 0 <= i < |m| ==> RegionValid(Record(m, p)[i])
    ensures StampedBy(Record(m, p), p.outcome.ts)
  {
    var w := m[p.idx].window;
    if |w| > 0 {
      assert w[|w| - 1].ts <= p.outcome.ts;
    }
    RecordPreservesValid(m, p);
    RecordStampedBy(m, p);
  }

  lemma StampedByWeaken(m: seq<Region>, t: real, t': real)
    requires StampedBy(m, t) && t <= t'
    ensures StampedBy(m, t')
  {
  }

  lemma StartStampedBy(n: nat, t: real)
    ensures StampedBy(Start(n), t)
  {
  }

  lemma RecordStampedBy(m: seq<Region>, p: Probe)
    requires p.idx < |m| && p.outcome.Completed?
    requires StampedBy(m, p.outcome.ts)
    ensures StampedBy(Record(m, p), p.outcome.ts)
  {
    var o := p.outcome;
    var w := m[p.idx].window;
    var e := WindowEntry(o.ts, Measure(o.elapsedMs));
    assert forall k :: 0 <= k < |w| ==> w[k].ts <= e.ts;
    PushWindowStampedBy(w, e, o.now);
    var m' := Record(m, p);
    forall i, k | 0 <= i < |m'| && 0 <= k < |m'[i].window| ensures m'[i].window[k].ts <= o.ts {
      if i != p.idx {
        assert m'[i] == m[i];
      }
    }
  }

  /** The status values of a region after a measurement `val`. */
  function Status(s: RegionStats, val: Option<real>): (line: StatusLine)
    ensures line.sent == s.sent && line.loss == s.loss && line.rttMax == s.rttMax
    ensures line.latest == val
    ensures line.grade == Loss <==> val.None?
    ensures Valid(s) ==> 0.0 <= line.lossRate <= 100.0 && line.shownMin <= line.rttMax
    ensures Valid(s) && SumBounded(s) && s.received > 0 ==> line.shownMin <= line.meanRtt <= line.rttMax
    ensures s.received == 0 ==> line.meanRtt == 0.0
    ensures s.rttMin.None? ==> line.shownMin == 0.0
  {
    StatusLine(s.sent, s.loss, LossRate(s), MeanRtt(s), ShownMin(s), s.rttMax, val, Classify(val))
  }

  /** After a completed probe of a region whose stats are consistent,
      whatever the order of its rolling log, the status shows at least one
      sent request, a loss rate in [0, 100], the measured time unless it was
      lost, its grade (a loss exactly above the loss threshold), and a
      received time that lies within the displayed range. */
  lemma RecordStatus(m: seq<Region>, p: Probe)
    requires p.idx < |m| && p.outcome.Completed?
    requires Valid(m[p.idx].stats)
    ensures var e := p.outcome.elapsedMs;
      var line := Status(Record(m, p)[p.idx].stats, Measure(e));
      && line.sent >= 1
      && 0.0 <= line.lossRate <= 100.0
      && (line.grade == Loss <==> e > LossMs)
      && (e <= LossMs ==>
            line.latest == Some(e) && line.grade == GradeOf(e)
            && line.shownMin <= e <= line.rttMax)
  {
    ApplyPreservesValid(m[p.idx].stats, Measure(p.outcome.elapsedMs));
  }
}

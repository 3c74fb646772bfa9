/** The per-region counters and running aggregates, the update applied for
    one measurement, and the values derived from them for display. */
module Stats {
  import opened Options

  /** Counters and running aggregates of one region. `rttMin` is `None`
      where the program keeps positive infinity (nothing received yet);
      `rttMax` starts at zero. */
  datatype RegionStats = RegionStats(
    sent: nat,
    received: nat,
    loss: nat,
    rttSum: real,
    rttMin: Option<real>,
    rttMax: real)

  /** The consistency every reachable stats record keeps: every sent probe
      is either received or lost, a minimum exists exactly when something
      was received, and it never exceeds the maximum. */
  ghost predicate Valid(s: RegionStats) {
    && s.received + s.loss == s.sent
    && s.rttMax >= 0.0
    && match s.rttMin
       case None => s.received == 0 && s.rttSum == 0.0
       case Some(lo) => s.received > 0 && lo <= s.rttMax
  }

  /** The sum lies between `received` times the minimum and `received`
      times the maximum. Kept apart from `Valid` because it is the only
      nonlinear fact about a record. */
  ghost predicate SumBounded(s: RegionStats) {
    match s.rttMin
    case None => true
    case Some(lo) =>
      && s.received as real * lo <= s.rttSum
      && s.rttSum <= s.received as real * s.rttMax
  }

  /** The record a region starts with. */
  const Fresh: RegionStats := RegionStats(0, 0, 0, 0.0, None, 0.0)

  function Min(a: real, b: real): real { if b < a then b else a }
  function Max(a: real, b: real): real { if a < b then b else a }

  /** Accounts for one measurement: an absent value is a loss, a present one
      is received and folded into the sum, the minimum and the maximum. */
  function Apply(s: RegionStats, val: Option<real>): (t: RegionStats)
    ensures t.sent == s.sent + 1
    ensures val.None? ==> t == s.(sent := s.sent + 1, loss := s.loss + 1)
    ensures val.Some? ==>
      && t.received == s.received + 1 && t.loss == s.loss
      && t.rttSum == s.rttSum + val.value
      && t.rttMin.Some? && t.rttMin.value <= val.value <= t.rttMax
    ensures s.rttMin.Some? ==> t.rttMin.Some? && t.rttMin.value <= s.rttMin.value
    ensures t.rttMax >= s.rttMax
  {
    match val
    case None => s.(sent := s.sent + 1, loss := s.loss + 1)
    case Some(v) =>
      var lo := match s.rttMin case None => v case Some(m) => Min(m, v);
      s.(sent := s.sent + 1, received := s.received + 1, rttSum := s.rttSum + v,
         rttMin := Some(lo), rttMax := Max(s.rttMax, v))
  }

  /** Applying a measurement keeps a consistent record consistent. */
  lemma ApplyPreservesValid(s: RegionStats, val: Option<real>)
    requires Valid(s)
    ensures Valid(Apply(s, val))
  {
  }

  /** Applying a measurement keeps the sum between `received` times the
      minimum and `received` times the maximum. */
  lemma ApplyPreservesSumBounded(s: RegionStats, val: Option<real>)
    requires Valid(s) && SumBounded(s)
    ensures SumBounded(Apply(s, val))
  {
    if val.Some? && s.rttMin.Some? {
      var v := val.value;
      var t := Apply(s, val);
      var n := s.received as real;
      assert t.received as real == n + 1.0;
      var m, M := s.rttMin.value, s.rttMax;
      var m', M' := t.rttMin.value, t.rttMax;
      assert m' <= m && M <= M';
      assert m' <= v <= M';
      assert n * m' <= n * m by { MulLeft(n, m', m); }
      assert n * M <= n * M' by { MulLeft(n, M, M'); }
      assert t.rttSum == s.rttSum + v;
      assert s.rttSum <= n * M && n * m <= s.rttSum;
      assert (n + 1.0) * m' == n * m' + m';
      assert (n + 1.0) * M' == n * M' + M';
      assert t.rttSum <= (n + 1.0) * M';
      assert (n + 1.0) * m' <= t.rttSum;
    }
  }

  lemma MulLeft(n: real, a: real, b: real)
    requires n >= 0.0 && a <= b
    ensures n * a <= n * b
  {
  }

  /** Loss rate in percent: zero while nothing was sent, otherwise the share
      of sent probes that were lost. */
  function LossRate(s: RegionStats): (r: real)
    ensures s.sent == 0 ==> r == 0.0
    ensures s.loss <= s.sent ==> 0.0 <= r <= 100.0
    ensures s.sent > 0 ==> (r == 0.0 <==> s.loss == 0)
    ensures s.sent > 0 ==> (r == 100.0 <==> s.loss == s.sent)
  {
    if s.sent == 0 then 0.0
    else
      var q := s.loss as real / s.sent as real;
      RatioBounds(s.loss as real, s.sent as real);
      q * 100.0
  }

  /** The ratio of two counts lies in [0, 1] and hits either end exactly
      when the numerator is zero or equal to the denominator. */
  lemma RatioBounds(a: real, b: real)
    requires 0.0 <= a && 0.0 < b
    ensures 0.0 <= a / b
    ensures a <= b ==> a / b <= 1.0
    ensures a / b == 0.0 <==> a == 0.0
    ensures a / b == 1.0 <==> a == b
  {
    var q := a / b;
    assert q * b == a;
  }

  /** Mean latency of the received values: zero while nothing was received,
      otherwise between the minimum and the maximum. */
  function MeanRtt(s: RegionStats): (r: real)
    ensures s.received == 0 ==> r == 0.0
    ensures Valid(s) && SumBounded(s) && s.received > 0 ==> s.rttMin.value <= r <= s.rttMax
  {
    if s.received == 0 then 0.0
    else s.rttSum / s.received as real
  }

  /** The minimum as displayed: zero while nothing was received. The
      displayed range never runs backwards. */
  function ShownMin(s: RegionStats): (r: real)
    ensures s.rttMin.None? ==> r == 0.0
    ensures Valid(s) ==> r <= s.rttMax
  {
    s.rttMin.GetOr(0.0)
  }

  /** The stats of a region after the measurements `vals`, oldest first. */
  function Replay(vals: seq<Option<real>>): RegionStats {
    if |vals| == 0 then Fresh
    else Apply(Replay(vals[..|vals| - 1]), vals[|vals| - 1])
  }

  lemma ReplaySnoc(init: seq<Option<real>>, last: Option<real>)
    ensures Replay(init + [last]) == Apply(Replay(init), last)
  {
    assert (init + [last])[..|init|] == init;
  }

  /** The received values among `vals`, in order. */
  function Received(vals: seq<Option<real>>): seq<real> {
    if |vals| == 0 then []
    else (if vals[0].Some? then [vals[0].value] else []) + Received(vals[1..])
  }

  function Sum(xs: seq<real>): real {
    if |xs| == 0 then 0.0 else xs[0] + Sum(xs[1..])
  }

  lemma {:induction false} ReceivedSnoc(vals: seq<Option<real>>, val: Option<real>)
    ensures Received(vals + [val]) == Received(vals) + (if val.Some? then [val.value] else [])
  {
    if |vals| > 0 {
      assert (vals + [val])[1..] == vals[1..] + [val];
      ReceivedSnoc(vals[1..], val);
    }
  }

  lemma {:induction false} SumSnoc(xs: seq<real>, x: real)
    ensures Sum(xs + [x]) == Sum(xs) + x
  {
    if |xs| > 0 {
      assert (xs + [x])[1..] == xs[1..] + [x];
      SumSnoc(xs[1..], x);
    }
  }

  /** Over any sequence of measurements the counters agree with their
      direct definitions: `sent` counts every measurement, `received` the
      present ones and `loss` the absent ones, and `rttSum` is the sum of
      the received values. The record is also consistent. */
  lemma {:induction false} ReplayCounts(vals: seq<Option<real>>)
    ensures var s, rs := Replay(vals), Received(vals);
      && Valid(s)
      && s.sent == |vals|
      && s.received == |rs|
      && s.loss == |vals| - |rs|
      && s.rttSum == Sum(rs)
  {
    if |vals| > 0 {
      var init, last := vals[..|vals| - 1], vals[|vals| - 1];
      assert vals == init + [last];
      ReplaySnoc(init, last);
      assert Replay(vals) == Apply(Replay(init), last);
      ReplayCounts(init);
      ApplyPreservesValid(Replay(init), last);
      ReceivedSnoc(init, last);
      if last.Some? {
        SumSnoc(Received(init), last.value);
      } else {
        assert Received(init) + [] == Received(init);
      }
    }
  }

  /** Over any sequence of measurements the sum lies between `received`
      times the minimum and `received` times the maximum. */
  lemma {:induction false} ReplaySumBounded(vals: seq<Option<real>>)
    ensures SumBounded(Replay(vals))
  {
    if |vals| > 0 {
      var init, last := vals[..|vals| - 1], vals[|vals| - 1];
      assert vals == init + [last];
      ReplaySnoc(init, last);
      ReplaySumBounded(init);
      ReplayCounts(init);
      ApplyPreservesSumBounded(Replay(init), last);
    }
  }

  /** `rttMin` is the least of `rs` (absent when `rs` is empty) and
      `rttMax` the greatest of `rs`, or zero. */
  ghost predicate ExtremesOf(s: RegionStats, rs: seq<real>) {
    && (s.rttMin.None? <==> |rs| == 0)
    && (s.rttMin.Some? ==> s.rttMin.value in rs)
    && (s.rttMin.Some? ==> forall i :: 0 <= i < |rs| ==> s.rttMin.value <= rs[i])
    && (forall i :: 0 <= i < |rs| ==> rs[i] <= s.rttMax)
    && (s.rttMax == 0.0 || s.rttMax in rs)
  }

  lemma ExtremesStep(s: RegionStats, rs: seq<real>, v: real)
    requires ExtremesOf(s, rs)
    ensures ExtremesOf(Apply(s, Some(v)), rs + [v])
  {
    var t, ts := Apply(s, Some(v)), rs + [v];
    forall i | 0 <= i < |ts|
      ensures t.rttMin.value <= ts[i] && ts[i] <= t.rttMax
    {
      if i < |rs| {
        assert ts[i] == rs[i];
      }
    }
  }

  /** Over any sequence of measurements `rttMin` is the least received
      value (absent while there is none) and `rttMax` the greatest
      received value, or zero. */
  lemma {:induction false} ReplayExtremes(vals: seq<Option<real>>)
    ensures ExtremesOf(Replay(vals), Received(vals))
  {
    if |vals| > 0 {
      var init, last := vals[..|vals| - 1], vals[|vals| - 1];
      assert vals == init + [last];
      ReplaySnoc(init, last);
      ReplayExtremes(init);
      ReceivedSnoc(init, last);
      if last.Some? {
        ExtremesStep(Replay(init), Received(init), last.value);
      } else {
        assert Received(init) + [] == Received(init);
      }
    }
  }

  /** Across any continuation of a measurement sequence the counters only
      grow, the minimum never increases and the maximum never decreases. */
  lemma {:induction false} ReplayMonotone(vals: seq<Option<real>>, more: seq<Option<real>>)
    ensures var a, b := Replay(vals), Replay(vals + more);
      && b.sent == a.sent + |more|
      && b.received >= a.received && b.loss >= a.loss
      && (a.rttMin.Some? ==> b.rttMin.Some? && b.rttMin.value <= a.rttMin.value)
      && b.rttMax >= a.rttMax
  {
    if |more| > 0 {
      var init, last := more[..|more| - 1], more[|more| - 1];
      assert vals + more == (vals + init) + [last];
      assert (vals + more)[..|vals + more| - 1] == vals + init;
      ReplayMonotone(vals, init);
    } else {
      assert vals + more == vals;
    }
  }
}

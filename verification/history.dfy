/** The two per-region history buffers: a recent log bounded by a count
    and a rolling log bounded by age. Both record every measurement,
    received or lost. */
module History {
  import opened Options

  /** The recent log keeps at most this many entries. */
  const RecentCapacity: nat := 5000
  /** The rolling log keeps entries no older than this many seconds. */
  const WindowSeconds: real := 3600.0

  /** A recent-log entry: the wall-clock time of day as text and the
      measurement (absent for a loss). */
  datatype RecentEntry = RecentEntry(clock: string, val: Option<real>)

  /** A rolling-log entry: the epoch timestamp in seconds and the
      measurement (absent for a loss). */
  datatype WindowEntry = WindowEntry(ts: real, val: Option<real>)

  /** How many of `n` pushed entries the recent log can hold. */
  function Kept(n: nat): nat { if n < RecentCapacity then n else RecentCapacity }

  /** Appends `e` to the recent log and, when that makes the log longer than
      its capacity, drops the single oldest entry. */
  function PushRecent(buf: seq<RecentEntry>, e: RecentEntry): (r: seq<RecentEntry>)
    ensures |r| > 0 && r[|r| - 1] == e
    ensures |buf| <= RecentCapacity ==> |r| <= RecentCapacity
    ensures |buf| < RecentCapacity ==> r == buf + [e]
    ensures |buf| >= RecentCapacity ==> r == buf[1..] + [e]
  {
    var b := buf + [e];
    if |b| > RecentCapacity then b[1..] else b
  }

  /** The recent log after pushing `es`, oldest first, onto an empty log. */
  function FillRecent(es: seq<RecentEntry>): seq<RecentEntry> {
    if |es| == 0 then []
    else PushRecent(FillRecent(es[..|es| - 1]), es[|es| - 1])
  }

  lemma FillRecentSnoc(init: seq<RecentEntry>, last: RecentEntry)
    ensures FillRecent(init + [last]) == PushRecent(FillRecent(init), last)
  {
    assert (init + [last])[..|init|] == init;
  }

  /** Whatever was pushed, the recent log holds exactly the newest
      `Kept(|es|)` entries, in the order they were pushed. */
  lemma {:induction false} FillRecentKeepsNewest(es: seq<RecentEntry>)
    ensures FillRecent(es) == es[|es| - Kept(|es|)..]
  {
    if |es| > 0 {
      var init, last := es[..|es| - 1], es[|es| - 1];
      FillRecentKeepsNewest(init);
      var k := |init| - Kept(|init|);
      var buf := init[k..];
      assert FillRecent(es) == PushRecent(buf, last);
      if |init| < RecentCapacity {
        assert k == 0 && |es| - Kept(|es|) == 0;
        assert PushRecent(buf, last) == buf + [last];
        assert buf + [last] == es;
      } else {
        assert |buf| == RecentCapacity;
        assert PushRecent(buf, last) == buf[1..] + [last];
        assert |es| - Kept(|es|) == k + 1;
        assert buf[1..] == es[k + 1..|es| - 1];
        assert buf[1..] + [last] == es[k + 1..];
      }
    }
  }

  /** `a` is what is left of `b` after dropping some entries from its front. */
  ghost predicate IsSuffix<T>(a: seq<T>, b: seq<T>) {
    |a| <= |b| && a == b[|b| - |a|..]
  }

  /** Drops entries from the front of the rolling log while the oldest is
      stamped before `cutoff`. The result is a suffix of `buf`; every dropped
      entry is older than `cutoff` and the first kept one is not. */
  function DropStale(buf: seq<WindowEntry>, cutoff: real): (r: seq<WindowEntry>)
    ensures IsSuffix(r, buf)
    ensures |r| > 0 ==> r[0].ts >= cutoff
    ensures forall i :: 0 <= i < |buf| - |r| ==> buf[i].ts < cutoff
    decreases |buf|
  {
    if |buf| > 0 && buf[0].ts < cutoff then DropStale(buf[1..], cutoff) else buf
  }

  /** The eviction loop as a loop: pops the front while it is stale. It
      removes exactly what `DropStale` removes. */
  method EvictStale(buf: seq<WindowEntry>, cutoff: real) returns (r: seq<WindowEntry>)
    ensures IsSuffix(r, buf)
    ensures |r| > 0 ==> r[0].ts >= cutoff
    ensures forall i :: 0 <= i < |buf| - |r| ==> buf[i].ts < cutoff
    ensures r == DropStale(buf, cutoff)
  {
    r := buf;
    while |r| > 0 && r[0].ts < cutoff
      invariant IsSuffix(r, buf)
      invariant forall i :: 0 <= i < |buf| - |r| ==> buf[i].ts < cutoff
      invariant DropStale(r, cutoff) == DropStale(buf, cutoff)
      decreases |r|
    {
      r := r[1..];
    }
  }

  lemma SuffixAppend<T>(a: seq<T>, b: seq<T>, x: T)
    requires IsSuffix(a, b)
    ensures IsSuffix(a + [x], b + [x])
  {
    assert (b + [x])[|b| - |a|..] == b[|b| - |a|..] + [x];
  }

  lemma SuffixTrans<T>(a: seq<T>, b: seq<T>, c: seq<T>)
    requires IsSuffix(a, b) && IsSuffix(b, c)
    ensures IsSuffix(a, c)
  {
    assert c[|c| - |b|..][|b| - |a|..] == c[|c| - |a|..];
  }

  /** Timestamps never decrease along the log. */
  ghost predicate Chronological(buf: seq<WindowEntry>) {
    forall i, j :: 0 <= i < j < |buf| ==> buf[i].ts <= buf[j].ts
  }

  /** Appends `e` to the rolling log, then evicts entries stamped more than
      `WindowSeconds` before the clock reading `now`. What is left is a
      suffix of the extended log, every entry dropped was stale, and the
      oldest one kept is not. */
  function PushWindow(buf: seq<WindowEntry>, e: WindowEntry, now: real): (r: seq<WindowEntry>)
    ensures IsSuffix(r, buf + [e])
    ensures |r| > 0 ==> r[0].ts >= now - WindowSeconds
    ensures forall i :: 0 <= i < |buf| + 1 - |r| ==> (buf + [e])[i].ts < now - WindowSeconds
  {
    DropStale(buf + [e], now - WindowSeconds)
  }

  /** After an append the rolling log is a suffix of the old log followed by
      the new entry, and the new entry survives when it is itself within the
      window. */
  lemma PushWindowSuffix(buf: seq<WindowEntry>, e: WindowEntry, now: real)
    ensures var b, r := buf + [e], PushWindow(buf, e, now);
      && IsSuffix(r, b)
      && (e.ts >= now - WindowSeconds ==> |r| > 0 && r[|r| - 1] == e)
  {
    var b, r := buf + [e], PushWindow(buf, e, now);
    if e.ts >= now - WindowSeconds {
      assert b[|b| - 1] == e;
      assert |r| > 0;
      assert r[|r| - 1] == b[|b| - 1];
    }
  }

  /** A rolling log that is a suffix of `ws` stays, after pushing `e`, a
      suffix of `ws` followed by `e`. */
  lemma PushWindowKeepsSuffix(w: seq<WindowEntry>, ws: seq<WindowEntry>, e: WindowEntry, now: real)
    requires IsSuffix(w, ws)
    ensures IsSuffix(PushWindow(w, e, now), ws + [e])
  {
    PushWindowSuffix(w, e, now);
    SuffixAppend(w, ws, e);
    SuffixTrans(PushWindow(w, e, now), w + [e], ws + [e]);
  }

  /** Pushing `e` onto a rolling log stamped no later than `e` leaves every
      entry stamped no later than `e`. */
  lemma PushWindowStampedBy(w: seq<WindowEntry>, e: WindowEntry, now: real)
    requires forall k :: 0 <= k < |w| ==> w[k].ts <= e.ts
    ensures var r := PushWindow(w, e, now);
      forall k :: 0 <= k < |r| ==> r[k].ts <= e.ts
  {
    var b, r := w + [e], PushWindow(w, e, now);
    PushWindowSuffix(w, e, now);
    forall k | 0 <= k < |r| ensures r[k].ts <= e.ts {
      assert r[k] == b[|b| - |r| + k];
    }
  }

  lemma ChronologicalAppend(buf: seq<WindowEntry>, e: WindowEntry)
    requires Chronological(buf)
    requires |buf| > 0 ==> buf[|buf| - 1].ts <= e.ts
    ensures Chronological(buf + [e])
  {
    var b := buf + [e];
    forall i, j | 0 <= i < j < |b| ensures b[i].ts <= b[j].ts {
      if j == |buf| {
        assert b[i] == buf[i] && b[j] == e;
        assert buf[i].ts <= buf[|buf| - 1].ts;
      } else {
        assert b[i] == buf[i] && b[j] == buf[j];
      }
    }
  }

  /** On a chronological log the eviction is exact: an entry is kept if and
      only if it is stamped no earlier than `cutoff`. */
  lemma {:induction false} DropStaleExact(b: seq<WindowEntry>, cutoff: real)
    requires Chronological(b)
    ensures var r := DropStale(b, cutoff);
      forall i :: 0 <= i < |b| ==> (|b| - |r| <= i <==> b[i].ts >= cutoff)
  {
    var r := DropStale(b, cutoff);
    var k := |b| - |r|;
    forall i | 0 <= i < |b| ensures k <= i <==> b[i].ts >= cutoff {
      if k <= i {
        assert r[0] == b[k];
        assert b[k].ts <= b[i].ts;
      }
    }
  }

  /** What eviction keeps of a chronological log is chronological. */
  lemma DropStaleChronological(b: seq<WindowEntry>, cutoff: real)
    requires Chronological(b)
    ensures Chronological(DropStale(b, cutoff))
  {
    var r := DropStale(b, cutoff);
    ChronologicalSuffix(b, |b| - |r|);
    assert r == b[|b| - |r|..];
  }

  lemma ChronologicalSuffix(b: seq<WindowEntry>, k: nat)
    requires Chronological(b) && k <= |b|
    ensures Chronological(b[k..])
  {
    var r := b[k..];
    forall i, j | 0 <= i < j < |r| ensures r[i].ts <= r[j].ts {
      assert r[i] == b[k + i] && r[j] == b[k + j];
    }
  }

  /** Both facts about eviction on a chronological log together: what is
      kept is exactly what is not older than `cutoff`, and it stays in order. */
  lemma DropStaleOnChronological(b: seq<WindowEntry>, cutoff: real)
    requires Chronological(b)
    ensures var r := DropStale(b, cutoff);
      && Chronological(r)
      && (forall i :: 0 <= i < |b| ==> (|b| - |r| <= i <==> b[i].ts >= cutoff))
  {
    DropStaleExact(b, cutoff);
    DropStaleChronological(b, cutoff);
  }

  /** On a chronological log, with the new entry stamped no earlier than the
      last one, an append followed by eviction keeps an entry if and only if
      it is stamped no earlier than `now - WindowSeconds`, and the log stays
      chronological. */
  lemma PushWindowEvictsStale(buf: seq<WindowEntry>, e: WindowEntry, now: real)
    requires Chronological(buf)
    requires |buf| > 0 ==> buf[|buf| - 1].ts <= e.ts
    ensures var b, r := buf + [e], PushWindow(buf, e, now);
      && Chronological(r)
      && (forall i :: 0 <= i < |b| ==> (|b| - |r| <= i <==> b[i].ts >= now - WindowSeconds))
  {
    ChronologicalAppend(buf, e);
    DropStaleOnChronological(buf + [e], now - WindowSeconds);
  }
}

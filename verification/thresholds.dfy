/** The fixed thresholds of the monitor and the two classifications built on
    them: whether a completed round trip counts as received or lost, and how
    good a received latency is. */
module Thresholds {
  import opened Options

  /** Below this many milliseconds a latency is graded good. */
  const GoodMs: real := 60.0
  /** Above this many milliseconds a latency is graded bad. */
  const BadMs: real := 100.0
  /** Above this many milliseconds a completed round trip counts as lost. */
  const LossMs: real := 1000.0

  datatype Grade = Good | Normal | Bad | Loss

  /** The value stored for a round trip that completed in `elapsedMs`:
      the elapsed time itself, or nothing when it is over the loss threshold. */
  function Measure(elapsedMs: real): (val: Option<real>)
    ensures val.None? <==> elapsedMs > LossMs
    ensures val.Some? ==> val.value == elapsedMs
  {
    if elapsedMs <= LossMs then Some(elapsedMs) else None
  }

  /** Grade of a received latency; the three grades split the real line
      into `< GoodMs`, `[GoodMs, BadMs]` and `> BadMs`. */
  function GradeOf(v: real): (g: Grade)
    ensures g != Loss
    ensures g == Good <==> v < GoodMs
    ensures g == Normal <==> GoodMs <= v <= BadMs
    ensures g == Bad <==> v > BadMs
  {
    if v < GoodMs then Good
    else if v > BadMs then Bad
    else Normal
  }

  /** Grade of a stored measurement: an absent value is a loss. */
  function Classify(val: Option<real>): (g: Grade)
    ensures g == Loss <==> val.None?
    ensures val.Some? ==> g == GradeOf(val.value)
  {
    match val
    case None => Loss
    case Some(v) => GradeOf(v)
  }

  /** Position of a grade from best to worst. */
  function Rank(g: Grade): nat {
    match g
    case Good => 0
    case Normal => 1
    case Bad => 2
    case Loss => 3
  }

  /** A round trip is graded a loss exactly when it took longer than the loss
      threshold, and a slower round trip never gets a better grade than a
      faster one. */
  lemma ClassifyMeasureMonotone(a: real, b: real)
    requires a <= b
    ensures Classify(Measure(a)) == Loss <==> a > LossMs
    ensures Rank(Classify(Measure(a))) <= Rank(Classify(Measure(b)))
  {
  }

  /** The boundary cases of both classifications: exactly `LossMs` is still
      received, exactly `GoodMs` and exactly `BadMs` are normal. */
  lemma Boundaries()
    ensures Measure(LossMs) == Some(1000.0)
    ensures Classify(Measure(1000.0 + 0.001)) == Loss
    ensures GradeOf(GoodMs) == Normal && GradeOf(BadMs) == Normal
    ensures GradeOf(59.9) == Good && GradeOf(100.1) == Bad
  {
  }
}

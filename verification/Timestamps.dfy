/** Protobuf timestamps and the nanosecond columns they are compared with. */
module Timestamps {
  import opened Common

  const NANOS_PER_SECOND: int := 1_000_000_000

  /** `seconds` is an `i64` and `nanos` an `i32`; neither is otherwise constrained on the wire. */
  datatype Timestamp = Timestamp(seconds: int, nanos: int)

  predicate IsI64(v: int) {
    I64_MIN <= v <= I64_MAX
  }

  /** Checked multiplication, then checked addition; `None` is the range error. */
  function TimestampToNanos(ts: Timestamp): Option<int> {
    var scaled := ts.seconds * NANOS_PER_SECOND;
    if !IsI64(scaled) then None
    else if !IsI64(scaled + ts.nanos) then None
    else Some(scaled + ts.nanos)
  }

  /** Euclidean division, so `nanos` is never negative. */
  function NanosToTimestamp(v: int): Timestamp {
    Timestamp(v / NANOS_PER_SECOND, v % NANOS_PER_SECOND)
  }

  /**
   A stored column value survives the trip through a timestamp exactly when it is not in the
   first, partial second of the `i64` range: there the multiplication underflows first.
   */
  lemma NanosRoundTrip(v: int)
    requires IsI64(v)
    ensures TimestampToNanos(NanosToTimestamp(v)) == Some(v) <==> -9_223_372_036_000_000_000 <= v
    ensures TimestampToNanos(NanosToTimestamp(v)) in {None, Some(v)}
  {
    var s := v / NANOS_PER_SECOND;
    assert v == s * NANOS_PER_SECOND + v % NANOS_PER_SECOND;
    assert -9_223_372_036 <= s <==> -9_223_372_036_000_000_000 <= v;
  }

  /** A normalised timestamp that converts comes back unchanged. */
  lemma TimestampRoundTrip(ts: Timestamp)
    requires 0 <= ts.nanos < NANOS_PER_SECOND
    requires TimestampToNanos(ts).Some?
    ensures NanosToTimestamp(TimestampToNanos(ts).value) == ts
  {
    var v := ts.seconds * NANOS_PER_SECOND + ts.nanos;
    assert v / NANOS_PER_SECOND == ts.seconds;
  }

  predicate Before(a: Timestamp, b: Timestamp) {
    a.seconds < b.seconds || (a.seconds == b.seconds && a.nanos < b.nanos)
  }

  /** Nanoseconds are in order exactly when their timestamps are. */
  lemma OrderPreserved(v: int, w: int)
    ensures v < w <==> Before(NanosToTimestamp(v), NanosToTimestamp(w))
  {
    assert v == v / NANOS_PER_SECOND * NANOS_PER_SECOND + v % NANOS_PER_SECOND;
    assert w == w / NANOS_PER_SECOND * NANOS_PER_SECOND + w % NANOS_PER_SECOND;
  }
}

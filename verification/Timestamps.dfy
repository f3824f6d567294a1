/** Times as seconds and nanoseconds, as stored nanoseconds, and the version 4 migration. */
module Timestamps {
  import opened Basics
  import opened Chunking

  const NANOS: int := 1_000_000_000
  const I64_MIN: int := -0x8000_0000_0000_0000
  const U32_MAX: int := 0xFFFF_FFFF

  /** Below the epoch, `secs` is minus the whole seconds and `nsec` counts further away from it. */
  datatype Timestamp = Timestamp(secs: int, nsec: int) {
    /** Any value the two machine fields can hold. */
    predicate IsMachine() {
      I64_MIN <= secs <= I64_MAX && 0 <= nsec <= U32_MAX
    }

    predicate Normalized() {
      IsMachine() && nsec < NANOS
    }

    function Unclamped(): int {
      if secs < 0 then -(-secs * NANOS + nsec) else secs * NANOS + nsec
    }

    function ToNs(): (ns: int)
      ensures I64_MIN <= ns <= I64_MAX
    {
      Max(I64_MIN, Min(Unclamped(), I64_MAX))
    }
  }

  function FromNs(ns: int): (t: Timestamp)
    requires I64_MIN <= ns <= I64_MAX
    ensures t.Normalized()
  {
    var magnitude := if ns < 0 then -ns else ns;
    var secs := magnitude / NANOS;
    Timestamp(if ns < 0 then -secs else secs, magnitude % NANOS)
  }

  /** Storing a time and reading it back gives it again exactly when it is in range. */
  lemma StoredTimeReadsBack(t: Timestamp)
    requires t.Normalized()
    ensures FromNs(t.ToNs()) == t <==> I64_MIN <= t.Unclamped() <= I64_MAX
  {
    var m := if t.secs < 0 then -t.secs else t.secs;
    assert (m * NANOS + t.nsec) / NANOS == m && (m * NANOS + t.nsec) % NANOS == t.nsec;
    if t.Unclamped() > I64_MAX || t.Unclamped() < I64_MIN {
      var r := FromNs(t.ToNs());
      assert r.Unclamped() == t.ToNs();
    }
  }

  /** Reading a stored value and storing it gives it again, except less than a second before the
      epoch, where the sign is lost and the value comes back mirrored. */
  lemma ReadTimeStoresBack(ns: int)
    requires I64_MIN <= ns <= I64_MAX
    ensures FromNs(ns).ToNs() == ns <==> !(-NANOS < ns < 0)
    ensures -NANOS < ns < 0 ==> FromNs(ns).ToNs() == -ns
  {
    var magnitude := if ns < 0 then -ns else ns;
    assert magnitude == magnitude / NANOS * NANOS + magnitude % NANOS;
  }

  /** What storing produces always reads back and stores again unchanged. */
  lemma StoredValuesAreStable(t: Timestamp)
    requires t.Normalized()
    ensures FromNs(t.ToNs()).ToNs() == t.ToNs()
    ensures !(-NANOS < t.ToNs() < 0) && !(-NANOS < MergedNs(t.secs, t.nsec) < 0)
  {
    ReadTimeStoresBack(t.ToNs());
  }

  /** A system time is its distance from the epoch in nanoseconds, negative before it. */
  type SystemTime = int

  predicate Representable(time: SystemTime) {
    -(I64_MAX + 1) * NANOS < time < (I64_MAX + 1) * NANOS
  }

  function FromSystemTime(time: SystemTime): (t: Timestamp)
    requires Representable(time)
    ensures t.Normalized()
  {
    if time >= 0 then Timestamp(time / NANOS, time % NANOS)
    else Timestamp(-(-time / NANOS), -time % NANOS)
  }

  function ToSystemTime(t: Timestamp): SystemTime
    requires t.IsMachine()
  {
    if t.secs >= 0 then t.secs * NANOS + t.nsec else -(-t.secs * NANOS + t.nsec)
  }

  /** A time handed in survives the conversion exactly when it is not within a second before the
      epoch, where it comes back mirrored to the other side. */
  lemma SystemTimeConvertsBack(time: SystemTime)
    requires Representable(time)
    ensures ToSystemTime(FromSystemTime(time)) == time <==> !(-NANOS < time < 0)
    ensures -NANOS < time < 0 ==> ToSystemTime(FromSystemTime(time)) == -time
  {
    var magnitude := if time < 0 then -time else time;
    assert magnitude == magnitude / NANOS * NANOS + magnitude % NANOS;
  }

  /** What is stored of a time handed in: the time itself where it is in range and keeps its sign,
      the nearest end of the range outside. */
  lemma SystemTimeStoresAs(time: SystemTime)
    requires Representable(time)
    ensures FromSystemTime(time).ToNs() ==
            if -NANOS < time < 0 then -time else Max(I64_MIN, Min(time, I64_MAX))
  {
    var magnitude := if time < 0 then -time else time;
    assert magnitude == magnitude / NANOS * NANOS + magnitude % NANOS;
  }

  /** The migration's SQL expression. */
  function MergedNs(secs: int, nsec: int): int {
    if secs > 9223372035 then 9223372036854775807
    else if secs < -9223372035 then -9223372036854775807 - 1
    else if secs < 0 then secs * 1000000000 - nsec
    else secs * 1000000000 + nsec
  }

  /** The migration never overflows, agrees with `ToNs` wherever it computes, and where it clamps
      early it is off by less than a second. */
  lemma MigrationAgrees(t: Timestamp)
    requires t.Normalized()
    ensures I64_MIN <= MergedNs(t.secs, t.nsec) <= I64_MAX
    ensures -9223372035 <= t.secs <= 9223372035 ==> MergedNs(t.secs, t.nsec) == t.ToNs()
    ensures -NANOS < MergedNs(t.secs, t.nsec) - t.ToNs() < NANOS
  {
  }
}

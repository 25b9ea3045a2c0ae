/** The timing source: `timed_poke` reads the real-time clock before and after
    one descriptor request and turns the two readings into nanoseconds. */
module Timing {

  const NanosPerSecond: int := 1000000000

  /** A `struct timespec` reading of the real-time clock. */
  datatype Timespec = Timespec(sec: int, nsec: int)

  /** The clock keeps the nanosecond field within one second. */
  predicate Normalized(t: Timespec)
  {
    0 <= t.nsec < NanosPerSecond
  }

  /** The instant a reading denotes, in nanoseconds since the epoch. */
  function Nanos(t: Timespec): int
  {
    t.sec * NanosPerSecond + t.nsec
  }

  /** Readings ordered as instants: earlier second, or same second and fewer nanoseconds. */
  predicate Earlier(a: Timespec, b: Timespec)
  {
    a.sec < b.sec || (a.sec == b.sec && a.nsec < b.nsec)
  }

  /** The duration `timed_poke` returns for readings `t1` (before) and `t2` (after):
      whole seconds scaled first, then the nanosecond fields added and subtracted. */
  function TimedPoke(t1: Timespec, t2: Timespec): (d: int)
    ensures d == Nanos(t2) - Nanos(t1)
  {
    var dummy := t2.sec - t1.sec;
    (dummy * 1000000000 + t2.nsec) - t1.nsec
  }

  /** For readings the clock can produce, the duration is positive exactly when
      the second reading is later, zero exactly when both are the same, and
      negative exactly when the clock stepped backwards. */
  lemma TimedPokeSign(t1: Timespec, t2: Timespec)
    requires Normalized(t1) && Normalized(t2)
    ensures TimedPoke(t1, t2) > 0 <==> Earlier(t1, t2)
    ensures TimedPoke(t1, t2) == 0 <==> t1 == t2
    ensures TimedPoke(t1, t2) < 0 <==> Earlier(t2, t1)
  {
    var ds := t2.sec - t1.sec;
    assert TimedPoke(t1, t2) == ds * NanosPerSecond + (t2.nsec - t1.nsec);
    if ds >= 1 {
      assert ds * NanosPerSecond >= NanosPerSecond;
    } else if ds <= -1 {
      assert ds * NanosPerSecond <= -NanosPerSecond;
    }
  }
}

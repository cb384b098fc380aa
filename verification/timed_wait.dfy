/**
  The timed-wait helpers `timed_wait` and `timed_wait_milli`, up to the point where they
  hand an absolute deadline to `pthread_cond_timedwait`. The clock reading is a parameter;
  the wait itself, and what the OS makes of the deadline, are not modelled.
 */
module TimedWait {

  const NANOS_PER_SEC := 1_000_000_000
  const NANOS_PER_MILLI := 1_000_000
  const NANOS_PER_MICRO := 1_000
  const MICROS_PER_SEC := 1_000_000

  const INT32_MIN := -0x8000_0000
  const INT32_MAX := 0x7fff_ffff

  /** A `struct timeval` as filled in by `gettimeofday`. */
  datatype Timeval = Timeval(sec: int, usec: int)

  /** The return code of `gettimeofday` together with what it wrote. */
  datatype ClockReading = ClockReading(rc: int, tp: Timeval)

  /** A `struct timespec` deadline. */
  datatype Timespec = Timespec(sec: int, nsec: int)

  /** `Returned(rc)`: the helper returns `rc` before calling `pthread_cond_timedwait`.
      `WaitUntil(d)`: it calls `pthread_cond_timedwait` with the deadline `d`; how soon that
      call returns (at once for a past or rejected deadline) is up to the OS. */
  datatype WaitStep = Returned(rc: int) | WaitUntil(deadline: Timespec)

  predicate IsInt32(x: int) {
    INT32_MIN <= x <= INT32_MAX
  }

  /** A reading `gettimeofday` can produce: microseconds below one second. */
  predicate ValidTimeval(tv: Timeval) {
    0 <= tv.usec < MICROS_PER_SEC
  }

  /** A deadline `pthread_cond_timedwait` accepts: nanoseconds below one second. */
  predicate Normalised(ts: Timespec) {
    0 <= ts.nsec < NANOS_PER_SEC
  }

  function TimevalNanos(tv: Timeval): int {
    tv.sec * NANOS_PER_SEC + tv.usec * NANOS_PER_MICRO
  }

  function TimespecNanos(ts: Timespec): int {
    ts.sec * NANOS_PER_SEC + ts.nsec
  }

  /** The value a 32-bit two's-complement `int` holds after an arithmetic result `x`
      is stored into it. */
  function Wrap32(x: int): (r: int)
    ensures IsInt32(r)
    ensures IsInt32(x) ==> r == x
    ensures (x - r) % 0x1_0000_0000 == 0
  {
    var low := x % 0x1_0000_0000;
    if low > INT32_MAX then low - 0x1_0000_0000 else low
  }

  /** The deadline `timed_wait(secs)` builds: the current time moved on by whole seconds. */
  function SecondsDeadline(secs: int, tp: Timeval): (ts: Timespec)
    requires ValidTimeval(tp)
    ensures Normalised(ts)
    ensures TimespecNanos(ts) == TimevalNanos(tp) + secs * NANOS_PER_SEC
  {
    Timespec(tp.sec + secs, tp.usec * NANOS_PER_MICRO)
  }

  /** `timed_wait(secs)`: no guard on the duration; a failing clock read is returned as is. */
  function TimedWaitSeconds(secs: int, clock: ClockReading): (w: WaitStep)
    requires ValidTimeval(clock.tp)
    ensures w.Returned? <==> clock.rc != 0
    ensures w.Returned? ==> w.rc == clock.rc
    ensures w.WaitUntil? ==> w.deadline == SecondsDeadline(secs, clock.tp) && Normalised(w.deadline)
    ensures w.WaitUntil? ==> TimespecNanos(w.deadline) == TimevalNanos(clock.tp) + secs * NANOS_PER_SEC
  {
    if clock.rc != 0 then Returned(clock.rc)
    else WaitUntil(SecondsDeadline(secs, clock.tp))
  }

  /** The deadline `timed_wait_milli(ms)` builds as written: `ms` is scaled to nanoseconds
      in an `int` and added to the microsecond field, with no carry into the seconds. */
  function MilliDeadlineAsWritten(ms: int, tp: Timeval): (ts: Timespec)
    requires IsInt32(ms)
    ensures ts.sec == tp.sec
    ensures 0 < ms <= 2147 ==> TimespecNanos(ts) == TimevalNanos(tp) + ms * NANOS_PER_MILLI - 999 * tp.usec
  {
    Timespec(tp.sec, tp.usec + Wrap32(ms * NANOS_PER_MILLI))
  }

  /** `timed_wait_milli(ms)` as written. A non-positive duration returns 0 before the
      clock is read; otherwise a failing clock read is returned, and a successful one
      yields the deadline above. */
  function TimedWaitMilli(ms: int, clock: ClockReading): (w: WaitStep)
    requires IsInt32(ms)
    ensures ms <= 0 ==> w == Returned(0)
    ensures w.Returned? <==> ms <= 0 || clock.rc != 0
    ensures ms > 0 && clock.rc != 0 ==> w == Returned(clock.rc)
    ensures w.WaitUntil? ==> w.deadline == MilliDeadlineAsWritten(ms, clock.tp)
  {
    if ms <= 0 then Returned(0)
    else if clock.rc != 0 then Returned(clock.rc)
    else WaitUntil(MilliDeadlineAsWritten(ms, clock.tp))
  }

  /** For a non-positive duration the clock plays no part at all. */
  lemma NonPositiveWaitIgnoresClock(ms: int, c1: ClockReading, c2: ClockReading)
    requires IsInt32(ms) && ms <= 0
    ensures TimedWaitMilli(ms, c1) == TimedWaitMilli(ms, c2) == Returned(0)
  {
  }

  /** One second or more: the nanosecond field reaches a full second, a deadline
      `pthread_cond_timedwait` rejects, whatever the clock said. */
  lemma MilliDeadlineNotNormalised(ms: int, tp: Timeval)
    requires ValidTimeval(tp) && 1000 <= ms <= 2147
    ensures !Normalised(MilliDeadlineAsWritten(ms, tp))
  {
  }

  /** Below one second the deadline is still wrong: half way through a second, a
      one-millisecond wait gets a deadline almost half a second in the past. */
  lemma MilliDeadlineInPast()
    ensures var tp := Timeval(0, 500_000);
            TimespecNanos(MilliDeadlineAsWritten(1, tp)) < TimevalNanos(tp)
  {
  }

  /** From 2148 ms on, scaling to nanoseconds overflows the `int` and the wrapped
      nanosecond field is negative. */
  lemma MilliScaleOverflows(tp: Timeval)
    requires ValidTimeval(tp)
    ensures 2148 * NANOS_PER_MILLI > INT32_MAX
    ensures MilliDeadlineAsWritten(2148, tp).nsec < 0
  {
  }

  /** The deadline `ms` milliseconds after the clock reading, carried into seconds. */
  function MilliDeadline(ms: int, tp: Timeval): (ts: Timespec)
    requires 0 < ms && ValidTimeval(tp)
    ensures Normalised(ts)
    ensures TimespecNanos(ts) == TimevalNanos(tp) + ms * NANOS_PER_MILLI
  {
    var total := tp.usec * NANOS_PER_MICRO + ms * NANOS_PER_MILLI;
    Timespec(tp.sec + total / NANOS_PER_SEC, total % NANOS_PER_SEC)
  }

  /** `timed_wait_milli(ms)` with the deadline computed as `MilliDeadline`: the same
      guard and clock handling, and a valid deadline exactly `ms` after the reading. */
  function TimedWaitMilliFixed(ms: int, clock: ClockReading): (w: WaitStep)
    requires IsInt32(ms) && ValidTimeval(clock.tp)
    ensures w.Returned? <==> ms <= 0 || clock.rc != 0
    ensures w.Returned? ==> w == TimedWaitMilli(ms, clock)
    ensures w.WaitUntil? ==> Normalised(w.deadline)
    ensures w.WaitUntil? ==> TimespecNanos(w.deadline) == TimevalNanos(clock.tp) + ms * NANOS_PER_MILLI
  {
    if ms <= 0 then Returned(0)
    else if clock.rc != 0 then Returned(clock.rc)
    else WaitUntil(MilliDeadline(ms, clock.tp))
  }
}

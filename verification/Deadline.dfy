/**
  Millisecond timeouts turned into the structures the system calls take: the
  absolute deadline of `vxi11_connect` and the relative `timeval` of the TCP
  backend.  C divides toward zero, so a negative timeout needs care.
 */
module Deadline {

  const NANOS_PER_SECOND := 1_000_000_000
  const NANOS_PER_MILLI := 1_000_000

  /** C's `/` and `%`: the quotient is truncated toward zero. */
  function CDiv(a: int, b: int): int
    requires b > 0
  {
    if a >= 0 then a / b else -((-a) / b)
  }

  function CMod(a: int, b: int): int
    requires b > 0
  {
    if a >= 0 then a % b else -((-a) % b)
  }

  datatype Timespec = Timespec(sec: int, nsec: int) {
    function Nanos(): int { sec * NANOS_PER_SECOND + nsec }

    /** The range `pthread_cond_timedwait` accepts; outside it the call returns EINVAL. */
    predicate Valid() { 0 <= nsec < NANOS_PER_SECOND }
  }

  function AbsoluteDeadline(now: Timespec, timeout: int): Timespec {
    var sec := now.sec + CDiv(timeout, 1000);
    var nsec := now.nsec + CMod(timeout, 1000) * NANOS_PER_MILLI;
    if nsec >= NANOS_PER_SECOND then Timespec(sec + 1, CMod(nsec, NANOS_PER_SECOND)) else Timespec(sec, nsec)
  }

  /**
    The deadline denotes the instant `timeout` milliseconds from now, whatever the
    sign of the timeout, but it is well-formed exactly when the clock's nanoseconds
    cover the fractional second a negative timeout takes away.
   */
  lemma DeadlineIsExact(now: Timespec, timeout: int)
    requires now.Valid()
    ensures AbsoluteDeadline(now, timeout).Nanos() == now.Nanos() + timeout * NANOS_PER_MILLI
    ensures AbsoluteDeadline(now, timeout).Valid() <==>
            timeout >= 0 || (-timeout) % 1000 * NANOS_PER_MILLI <= now.nsec
  {
    var a := if timeout >= 0 then timeout else -timeout;
    assert a == a / 1000 * 1000 + a % 1000;
  }

  datatype Timeval = Timeval(sec: int, usec: int)

  function RelativeTimeout(timeout: int): Timeval {
    Timeval(CDiv(timeout, 1000), CMod(timeout, 1000) * 1000)
  }

  /**
    The split loses nothing, and the microseconds are in range unless the timeout is
    negative and not whole seconds.
   */
  lemma RelativeTimeoutIsExact(timeout: int)
    ensures var tv := RelativeTimeout(timeout);
      && tv.sec * 1_000_000 + tv.usec == timeout * 1000
      && (0 <= tv.usec < 1_000_000 <==> timeout >= 0 || timeout % 1000 == 0)
  {
    var a := if timeout >= 0 then timeout else -timeout;
    assert a == a / 1000 * 1000 + a % 1000;
  }
}

/** Clock arithmetic of the transfer timeouts: normalised seconds and nanoseconds, the deadline of
    a transfer, and the number of milliseconds to poll for. */
module Deadlines {

  const NSEC_PER_SEC := 1_000_000_000
  const NSEC_PER_MSEC := 1_000_000
  const NSEC_PER_USEC := 1_000
  
  datatype Timespec = Timespec(sec: int, nsec: int)
  datatype Timeval = Timeval(sec: int, usec: int)

  /** The all-zero timespec stands for "no deadline". */
  const NEVER := Timespec(0, 0)

  predicate IsSet(t: Timespec) {
    t.sec != 0 || t.nsec != 0
  }

  predicate Normal(t: Timespec) {
    t.sec >= 0 && 0 <= t.nsec < 1_000_000_000
  }

  /** TIMESPEC_CMP(a, b, >) */
  predicate Later(a: Timespec, b: Timespec) {
    if a.sec == b.sec then a.nsec > b.nsec else a.sec > b.sec
  }

  /** TIMESPEC_CMP(a, b, <) */
  predicate Earlier(a: Timespec, b: Timespec) {
    if a.sec == b.sec then a.nsec < b.nsec else a.sec < b.sec
  }

  function Nanos(t: Timespec): int {
    t.sec * 1_000_000_000 + t.nsec
  }

  lemma ComparisonIsNumeric(a: Timespec, b: Timespec)
    requires Normal(a) && Normal(b)
    ensures Later(a, b) <==> Nanos(a) > Nanos(b)
    ensures Earlier(a, b) <==> Nanos(a) < Nanos(b)
    ensures IsSet(a) <==> Nanos(a) != 0
  {
    if a.sec < b.sec {
      assert (a.sec + 1) * 1_000_000_000 <= b.sec * 1_000_000_000;
    } else if a.sec > b.sec {
      assert (b.sec + 1) * 1_000_000_000 <= a.sec * 1_000_000_000;
    }
  }

  /** calculate_timeout: the deadline of a transfer submitted at `now` with a timeout in
      milliseconds, 0 meaning none.  A real deadline is normalised, lies exactly that far in
      the future, and is never mistaken for "no deadline". */
  function Deadline(now: Timespec, timeoutMs: nat): (d: Timespec)
    requires Normal(now)
    ensures timeoutMs == 0 ==> !IsSet(d)
    ensures timeoutMs != 0 ==> IsSet(d) && Nanos(d) == Nanos(now) + timeoutMs * 1_000_000
    ensures Normal(d)
  {
    if timeoutMs == 0 then NEVER
    else
      var sec, nsec := now.sec + timeoutMs / 1000, now.nsec + (timeoutMs % 1000) * NSEC_PER_MSEC;
      if nsec >= NSEC_PER_SEC then Timespec(sec + 1, nsec - NSEC_PER_SEC) else Timespec(sec, nsec)
  }

  /** TIMESPEC_SUB */
  function Minus(a: Timespec, b: Timespec): (d: Timespec)
    requires Normal(a) && Normal(b)
    ensures Nanos(d) == Nanos(a) - Nanos(b) && 0 <= d.nsec < 1_000_000_000
  {
    var sec, nsec := a.sec - b.sec, a.nsec - b.nsec;
    if nsec < 0 then Timespec(sec - 1, nsec + NSEC_PER_SEC) else Timespec(sec, nsec)
  }

  /** TIMESPEC_TO_TIMEVAL */
  function ToTimeval(t: Timespec): Timeval {
    Timeval(t.sec, t.nsec / NSEC_PER_USEC)
  }

  function Micros(t: Timeval): int {
    t.sec * 1_000_000 + t.usec
  }

  predicate ValidTimeval(t: Timeval) {
    t.sec >= 0 && 0 <= t.usec < 1_000_000
  }

  /** timercmp(a, b, <) */
  predicate Shorter(a: Timeval, b: Timeval) {
    if a.sec == b.sec then a.usec < b.usec else a.sec < b.sec
  }

  /** The rounding in handle_events. */
  function PollMillis(t: Timeval): int {
    t.sec * 1000 + t.usec / 1000 + if t.usec % 1000 != 0 then 1 else 0
  }

  /** Poll durations round a timeval up, by less than a millisecond. */
  lemma PollRoundsUp(t: Timeval)
    requires ValidTimeval(t)
    ensures Micros(t) <= PollMillis(t) * 1000 < Micros(t) + 1000
  {
    assert t.usec == (t.usec / 1000) * 1000 + t.usec % 1000;
  }

  /** What libusb_get_next_timeout reports of a deadline. */
  function TimeLeft(deadline: Timespec, now: Timespec): Timeval
    requires Normal(deadline) && Normal(now)
  {
    if !Earlier(now, deadline) then Timeval(0, 0) else ToTimeval(Minus(deadline, now))
  }

  /** It is the time left, cut to microseconds, and zero once the deadline has passed. */
  lemma TimeLeftIsCut(deadline: Timespec, now: Timespec)
    requires Normal(deadline) && Normal(now)
    ensures var t := TimeLeft(deadline, now);
      && ValidTimeval(t)
      && (Nanos(deadline) <= Nanos(now) ==> t == Timeval(0, 0))
      && (Nanos(deadline) > Nanos(now) ==>
            1000 * Micros(t) <= Nanos(deadline) - Nanos(now) < 1000 * (Micros(t) + 1))
  {
    hide Nanos, Micros, ToTimeval, Minus, Earlier;
    ComparisonIsNumeric(now, deadline);
    CutToMicros(Minus(deadline, now));
  }

  lemma CutToMicros(d: Timespec)
    requires 0 <= d.nsec < 1_000_000_000
    ensures 1000 * Micros(ToTimeval(d)) <= Nanos(d) < 1000 * (Micros(ToTimeval(d)) + 1)
    ensures Nanos(d) > 0 ==> ValidTimeval(ToTimeval(d))
  {
    assert d.nsec == 1000 * (d.nsec / 1000) + d.nsec % 1000;
  }

  /** Polling until a deadline overshoots it by less than a millisecond.  Because the time left
      is first cut to microseconds and only then rounded up to milliseconds, the poll ends
      before the deadline - by less than a microsecond - exactly when the time left is a whole
      number of milliseconds plus a fraction of a microsecond. */
  lemma PollMeetsDeadline(deadline: Timespec, now: Timespec)
    requires Normal(deadline) && Normal(now) && Nanos(deadline) > Nanos(now)
    ensures
      var left := Nanos(deadline) - Nanos(now);
      var polled := PollMillis(TimeLeft(deadline, now)) * 1_000_000;
      && left - 1000 < polled < left + 1_000_000
      && (polled < left <==> 0 < left % 1_000_000 < 1000)
  {
    TimeLeftIsCut(deadline, now);
    PollRoundsUp(TimeLeft(deadline, now));
    hide Nanos, TimeLeft, PollMillis;
    RoundedTwice(Nanos(deadline) - Nanos(now), Micros(TimeLeft(deadline, now)), PollMillis(TimeLeft(deadline, now)));
  }

  lemma RoundedTwice(left: int, us: int, ms: int)
    requires 1000 * us <= left < 1000 * (us + 1) && us <= ms * 1000 < us + 1000
    ensures left - 1000 < ms * 1_000_000 < left + 1_000_000
    ensures ms * 1_000_000 < left <==> 0 < left % 1_000_000 < 1000
  {
    var up, cut := ms * 1000 - us, left - us * 1000;
    if up == 0 { Modulo(ms, cut); } else { Modulo(ms - 1, 1_000_000 - up * 1000 + cut); }
  }

  lemma Modulo(q: int, r: int)
    requires 0 <= r < 1_000_000
    ensures (q * 1_000_000 + r) % 1_000_000 == r
  {
  }

  const INT_MAX := 0x7fff_ffff

  /** A conversion to a C int of 32 bits. */
  function ToInt(x: int): (r: int)
    ensures -INT_MAX - 1 <= r <= INT_MAX
  {
    var low := x % 0x1_0000_0000;
    if low <= INT_MAX then low else low - 0x1_0000_0000
  }

  /** The argument of the wait: handle_events computes the milliseconds in an int. */
  function PollArgument(t: Timeval): int {
    ToInt(ToInt(t.sec * 1000) + t.usec / 1000 + if t.usec % 1000 != 0 then 1 else 0)
  }

  /** It is the number of milliseconds exactly if that fits an int.  Beyond, it is off by a
      multiple of 2^32, and negative - which makes the wait endless - for every other range of
      2^31 milliseconds, the first of which begins after not quite 25 days. */
  lemma PollArgumentIsExactIff(t: Timeval)
    requires ValidTimeval(t)
    ensures PollArgument(t) == PollMillis(t) <==> PollMillis(t) <= INT_MAX
    ensures PollArgument(t) < 0 <==> PollMillis(t) / 0x8000_0000 % 2 == 1
  {
    hide ToInt;
    CastOnce(t.sec * 1000, t.usec / 1000 + if t.usec % 1000 != 0 then 1 else 0);
    CastIsExactIff(PollMillis(t));
  }

  lemma CastIsExactIff(ms: nat)
    ensures ToInt(ms) == ms <==> ms <= INT_MAX
    ensures ToInt(ms) < 0 <==> ms / 0x8000_0000 % 2 == 1
  {
    var q, r := ms / 0x8000_0000, ms % 0x8000_0000;
    if q % 2 == 1 {
      assert ms == (q / 2) * 0x1_0000_0000 + (0x8000_0000 + r);
      LowPart(q / 2, 0x8000_0000 + r);
    } else {
      assert ms == (q / 2) * 0x1_0000_0000 + r;
      LowPart(q / 2, r);
    }
  }

  lemma LowPart(q: int, r: int)
    requires 0 <= r < 0x1_0000_0000
    ensures (q * 0x1_0000_0000 + r) % 0x1_0000_0000 == r
  {
  }

  /** Casting a part of a sum first makes no difference. */
  lemma CastOnce(x: int, y: int)
    ensures ToInt(ToInt(x) + y) == ToInt(x + y)
  {
    var q := x / 0x1_0000_0000;
    var low := x % 0x1_0000_0000;
    assert x == q * 0x1_0000_0000 + low;
    assert exists k :: ToInt(x) == x - k * 0x1_0000_0000 by {
      if low <= INT_MAX {
        assert ToInt(x) == x - q * 0x1_0000_0000;
      } else {
        assert ToInt(x) == x - (q + 1) * 0x1_0000_0000;
      }
    }
    var k :| ToInt(x) == x - k * 0x1_0000_0000;
    var z := ToInt(x) + y;
    LowPart(z / 0x1_0000_0000 + k, z % 0x1_0000_0000);
    assert x + y == (z / 0x1_0000_0000 + k) * 0x1_0000_0000 + z % 0x1_0000_0000;
  }

  /** What libusb_get_next_timeout reports: nothing pending, or the time left. */
  datatype Remaining = NothingPending | Remaining(left: Timeval)

  /** get_next_timeout: the shorter of the time left and the caller's limit, or "expired". */
  datatype Wait = Expired | WaitFor(limit: Timeval)

  function NextWait(pending: Remaining, user: Timeval): Wait {
    match pending
    case NothingPending => WaitFor(user)
    case Remaining(left) =>
      if left == Timeval(0, 0) then Expired
      else if Shorter(left, user) then WaitFor(left) else WaitFor(user)
  }

  /** The wait is never longer than the caller's limit, and equals it without a pending deadline.
      With one it is the smaller of the limit and the time left, and it is given up as expired
      exactly when less than a microsecond is left. */
  lemma NextWaitIsSmaller(deadline: Timespec, now: Timespec, user: Timeval)
    requires Normal(deadline) && Normal(now) && ValidTimeval(user)
    ensures NextWait(NothingPending, user) == WaitFor(user)
    ensures
      var left := TimeLeft(deadline, now);
      match NextWait(Remaining(left), user)
      case Expired => Nanos(deadline) - Nanos(now) < 1000
      case WaitFor(w) =>
        && Nanos(deadline) - Nanos(now) >= 1000
        && Micros(w) == if Micros(left) < Micros(user) then Micros(left) else Micros(user)
  {
    hide Nanos, TimeLeft;
    TimeLeftIsCut(deadline, now);
  }
}

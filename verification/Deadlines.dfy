/** Transfer deadlines of libusb (io.c): how they are computed and compared, and
    how long poll may sleep before the next one. */
module Deadlines {
  import opened Options

  datatype Timespec = Timespec(sec: int, nsec: int)

  datatype Timeval = Timeval(sec: int, usec: int)

  const NANOS := 1_000_000_000
  const MICROS := 1_000_000

  /** What clock_gettime delivers. */
  predicate Clock(ts: Timespec) {
    ts.sec >= 0 && 0 <= ts.nsec < NANOS
  }

  predicate Normal(tv: Timeval) {
    tv.sec >= 0 && 0 <= tv.usec < MICROS
  }

  /** What calculate_timeout stores: tv_usec can reach one full second. */
  predicate NearlyNormal(tv: Timeval) {
    tv.sec >= 0 && 0 <= tv.usec <= MICROS
  }

  function ToTimeval(ts: Timespec): Timeval {
    Timeval(ts.sec, ts.nsec / 1000)
  }

  function Nanos(ts: Timespec): int {
    ts.sec * NANOS + ts.nsec
  }

  function Micros(tv: Timeval): int {
    tv.sec * MICROS + tv.usec
  }

  /** timerisset; an unset deadline means none. */
  predicate IsSet(tv: Timeval) {
    tv.sec != 0 || tv.usec != 0
  }

  /** The field-by-field comparison that io.c spells out: a > b. */
  predicate After(a: Timeval, b: Timeval) {
    a.sec > b.sec || (a.sec == b.sec && a.usec > b.usec)
  }

  /** The list order: earlier or equal, with "no deadline" last. */
  predicate NotLater(a: Timeval, b: Timeval) {
    !IsSet(b) || (IsSet(a) && !After(a, b))
  }

  /** calculate_timeout for a clock that can be read.  A timeout of 0 leaves the
      stored deadline as it is. */
  function Deadline(stored: Timeval, timeout: nat, now: Timespec): Timeval {
    if timeout == 0 then stored
    else
      var sec := now.sec + timeout / 1000;
      var nsec := now.nsec + (timeout % 1000) * 1_000_000;
      if nsec > NANOS then ToTimeval(Timespec(sec + 1, nsec - NANOS)) else ToTimeval(Timespec(sec, nsec))
  }

  /** The stored deadline is `timeout` milliseconds after the clock reading, to
      the microsecond, and it never reads as "no deadline". */
  lemma DeadlineIsTimeoutAfterNow(stored: Timeval, timeout: nat, now: Timespec)
    requires Clock(now) && timeout > 0
    ensures var d := Deadline(stored, timeout, now);
      && Micros(d) == Nanos(now) / 1000 + timeout * 1000
      && NearlyNormal(d) && IsSet(d)
  {
    var nsec := now.nsec + (timeout % 1000) * 1_000_000;
    assert nsec / 1000 == now.nsec / 1000 + (timeout % 1000) * 1000;
    assert Nanos(now) / 1000 == now.sec * MICROS + now.nsec / 1000;
    assert timeout == (timeout / 1000) * 1000 + timeout % 1000;
  }

  /** Exactly when tv_usec comes out below one second: the code carries only when
      the nanoseconds exceed one second, not when they equal it. */
  lemma DeadlineNormalExactly(stored: Timeval, timeout: nat, now: Timespec)
    requires Clock(now) && timeout > 0
    ensures Normal(Deadline(stored, timeout, now)) <==> now.nsec + (timeout % 1000) * 1_000_000 != NANOS
  {
    DeadlineIsTimeoutAfterNow(stored, timeout, now);
  }

  /** A submission: the timeout asked for, and the clock if it could be read. */
  datatype Submission = Submission(timeout: nat, clock: Option<Timespec>)

  /** The submission gives the transfer a deadline. */
  predicate Sets(x: Submission) {
    x.timeout > 0 && x.clock.Some?
  }

  /** The deadline that a new transfer has stored after some submissions. */
  function Stored(history: seq<Submission>): Timeval {
    if history == [] then Timeval(0, 0)
    else
      var before, x := Stored(history[..|history| - 1]), history[|history| - 1];
      if x.clock.Some? then Deadline(before, x.timeout, x.clock.value) else before
  }

  /** A transfer with timeout 0 is documented as unlimited.  After any submissions it has
      no deadline exactly if none so far set one; otherwise it has that of the last which
      did, whatever came since. */
  lemma {:induction false} UnlimitedExactly(history: seq<Submission>)
    requires forall i :: 0 <= i < |history| && history[i].clock.Some? ==> Clock(history[i].clock.value)
    ensures !IsSet(Stored(history)) <==> forall i :: 0 <= i < |history| ==> !Sets(history[i])
    ensures forall i :: 0 <= i < |history| && Sets(history[i]) && (forall j :: i < j < |history| ==> !Sets(history[j]))
              ==> Stored(history) == Deadline(Timeval(0, 0), history[i].timeout, history[i].clock.value)
  {
    if history != [] {
      var before, x := history[..|history| - 1], history[|history| - 1];
      UnlimitedExactly(before);
      assert forall i :: 0 <= i < |before| ==> before[i] == history[i];
      if Sets(x) {
        DeadlineIsTimeoutAfterNow(Stored(before), x.timeout, x.clock.value);
        assert Sets(history[|before|]);
      } else {
        assert Stored(history) == Stored(before);
        forall i | 0 <= i < |history| && Sets(history[i]) && forall j :: i < j < |history| ==> !Sets(history[j])
          ensures Stored(history) == Deadline(Timeval(0, 0), history[i].timeout, history[i].clock.value)
        {
          assert i < |before| && forall j :: i < j < |before| ==> !Sets(before[j]);
        }
      }
    }
  }

  /** The field-by-field comparison respects real time, although tv_usec may
      reach one full second: earlier in time is earlier in the list order. */
  lemma OrderRespectsTime(a: Timeval, b: Timeval)
    requires NearlyNormal(a) && NearlyNormal(b)
    ensures Micros(a) < Micros(b) ==> After(b, a)
    ensures After(b, a) ==> Micros(a) <= Micros(b)
    ensures Normal(b) ==> (After(a, b) <==> Micros(a) > Micros(b))
  {
  }

  // ---------------------------------------------------------------------
  // From the next deadline to the poll timeout

  function TimerSub(a: Timeval, b: Timeval): Timeval {
    if a.usec - b.usec < 0 then Timeval(a.sec - b.sec - 1, a.usec - b.usec + MICROS)
    else Timeval(a.sec - b.sec, a.usec - b.usec)
  }

  /** The time libusb_get_next_timeout reports for a deadline; zero once it has
      passed. */
  function TimeLeft(deadline: Timeval, now: Timeval): Timeval {
    if After(deadline, now) then TimerSub(deadline, now) else Timeval(0, 0)
  }

  /** get_next_timeout: None when a deadline has already passed. */
  function PollTimeout(left: Option<Timeval>, user: Timeval): Option<Timeval> {
    match left
    case None => Some(user)
    case Some(tv) =>
      if !IsSet(tv) then None
      else if After(user, tv) then Some(tv) else Some(user)
  }

  /** Conversion to a 32-bit int. */
  function ToInt32(x: int): int {
    (x + 0x8000_0000) % 0x1_0000_0000 - 0x8000_0000
  }

  /** The timeout handle_events passes to poll, in milliseconds. */
  function PollMillis(tv: Timeval): int {
    var whole := ToInt32(tv.sec * 1000 + tv.usec / 1000);
    if tv.usec % 1000 != 0 then ToInt32(whole + 1) else whole
  }

  /** Some int holds the wait rounded up to milliseconds. */
  predicate FitsPoll(tv: Timeval) {
    tv.sec * 1000 + (tv.usec + 999) / 1000 < 0x8000_0000
  }

  function Min(a: int, b: int): int {
    if a <= b then a else b
  }

  /** The time left is exact, and zero exactly when the deadline has passed. */
  lemma TimeLeftExact(deadline: Timeval, now: Timeval)
    requires NearlyNormal(deadline) && Normal(now)
    ensures var left := TimeLeft(deadline, now);
      && NearlyNormal(left)
      && (IsSet(left) <==> Micros(now) < Micros(deadline))
      && (IsSet(left) ==> Micros(left) == Micros(deadline) - Micros(now))
  {
    OrderRespectsTime(deadline, now);
  }

  /** The wait chosen is the smaller of the caller's timeout and the time left, and the
      caller's timeout when no deadline is pending. */
  lemma PollTimeoutIsMin(deadline: Timeval, now: Timeval, user: Timeval)
    requires NearlyNormal(deadline) && Normal(now) && Normal(user)
    ensures var wait := PollTimeout(Some(TimeLeft(deadline, now)), user);
      && (wait.None? <==> Micros(deadline) <= Micros(now))
      && (wait.Some? ==> NearlyNormal(wait.value)
                         && Micros(wait.value) == Min(Micros(user), Micros(deadline) - Micros(now)))
    ensures PollTimeout(None, user) == Some(user)
  {
    TimeLeftExact(deadline, now);
    OrderRespectsTime(TimeLeft(deadline, now), user);
  }

  /** poll is asked to sleep the wait rounded up to the next millisecond exactly
      when that fits an int; beyond, the value wraps. */
  lemma PollMillisRoundsUpExactly(tv: Timeval)
    requires NearlyNormal(tv)
    ensures 0 <= PollMillis(tv) * 1000 - Micros(tv) < 1000 <==> FitsPoll(tv)
  {
    hide ToInt32;
    var ms, whole := tv.sec * 1000 + (tv.usec + 999) / 1000, tv.sec * 1000 + tv.usec / 1000;
    assert 0 <= ms * 1000 - Micros(tv) < 1000;
    Int32(whole);
    Int32(ToInt32(whole) + 1);
    if ms < 0x8000_0000 {
      assert PollMillis(tv) == ms;
    } else {
      assert PollMillis(tv) < 0x8000_0000 <= ms;
    }
  }

  lemma Int32(x: int)
    ensures -0x8000_0000 <= ToInt32(x) < 0x8000_0000
    ensures -0x8000_0000 <= x < 0x8000_0000 ==> ToInt32(x) == x
  {
  }

  /** So many milliseconds are that many microseconds rounded up, if an int holds them. */
  predicate RoundsUp(ms: int, micros: int) {
    (micros + 999) / 1000 <= 0x7FFF_FFFF ==> 0 <= ms * 1000 - micros < 1000
  }

  lemma PollMillisRoundsUp(tv: Timeval)
    requires NearlyNormal(tv)
    ensures RoundsUp(PollMillis(tv), Micros(tv))
  {
    PollMillisRoundsUpExactly(tv);
    assert (Micros(tv) + 999) / 1000 == tv.sec * 1000 + (tv.usec + 999) / 1000;
  }

  /** A wait of 2147484 seconds makes poll's timeout negative, which means forever. */
  lemma LongWaitBlocksForever()
    ensures PollMillis(Timeval(2147484, 0)) < 0
  {
  }

  /** When the deadline is the smaller of the two and its wait fits an int, a poll
      that sleeps its full timeout returns at or after the deadline, so that the
      next scan finds it expired. */
  lemma FullPollReachesDeadline(deadline: Timeval, before: Timespec, user: Timeval, after: Timespec)
    requires NearlyNormal(deadline) && Clock(before) && Clock(after) && Normal(user)
    requires Micros(deadline) > Micros(ToTimeval(before))
    requires Micros(deadline) - Micros(ToTimeval(before)) <= Micros(user)
    requires var wait := PollTimeout(Some(TimeLeft(deadline, ToTimeval(before))), user);
      wait.Some? && FitsPoll(wait.value) && Nanos(after) >= Nanos(before) + PollMillis(wait.value) * 1_000_000
    ensures !After(deadline, ToTimeval(after))
  {
    var now := ToTimeval(before);
    var wait := PollTimeout(Some(TimeLeft(deadline, now)), user).value;
    PollTimeoutIsMin(deadline, now, user);
    PollMillisRoundsUpExactly(wait);
    assert Micros(now) == Nanos(before) / 1000;
    assert Micros(ToTimeval(after)) == Nanos(after) / 1000;
    assert Nanos(after) / 1000 >= Nanos(before) / 1000 + PollMillis(wait) * 1000;
    OrderRespectsTime(deadline, ToTimeval(after));
  }

  lemma ToTimevalMonotone(a: Timespec, b: Timespec)
    requires Clock(a) && Clock(b) && Nanos(a) <= Nanos(b)
    ensures Micros(ToTimeval(a)) <= Micros(ToTimeval(b)) && Normal(ToTimeval(b))
  {
  }

  lemma MillisMonotone(a: Timeval, b: Timeval)
    requires NearlyNormal(a) && NearlyNormal(b) && Micros(a) <= Micros(b)
    ensures FitsPoll(b) ==> FitsPoll(a)
  {
    assert (Micros(a) + 999) / 1000 == a.sec * 1000 + (a.usec + 999) / 1000;
    assert (Micros(b) + 999) / 1000 == b.sec * 1000 + (b.usec + 999) / 1000;
  }
}

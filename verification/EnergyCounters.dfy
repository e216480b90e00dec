/** Energy meters over wrapping hardware counters (energy-linux.cpp).  Each register
    shows a true, unbounded counter modulo its range; the meters add up differences of
    consecutive readings.  CPU identifiers are 0..n-1. */
module EnergyCounters {
  import opened Arithmetic
  import opened Options

  /** 2^32. */
  const RANGE: nat := 0x1_0000_0000

  function ToUint32(x: int): nat {
    x % RANGE
  }

  // ---------------------------------------------------------------------
  // Differences

  /** deltaDiff, in 32-bit arithmetic. */
  function DeltaDiff(c1: nat, c2: nat): nat
    requires c1 < RANGE && c2 < RANGE
  {
    if c2 > c1 then ToUint32(c2 - c1)
    else ToUint32(ToUint32(ToUint32(0xFFFF_FFFF - c1) + 1) + c2)
  }

  /** It is subtraction modulo 2^32; equal readings give 0. */
  lemma DeltaDiffIsSubtraction(c1: nat, c2: nat)
    requires c1 < RANGE && c2 < RANGE
    ensures DeltaDiff(c1, c2) == Difference(c1, c2, RANGE)
    ensures c1 == c2 ==> DeltaDiff(c1, c2) == 0
  {
    if c2 <= c1 {
      if c1 == 0 {
        assert ToUint32(0xFFFF_FFFF + 1) == 0;
      } else {
        assert 0xFFFF_FFFF - c1 + 1 == RANGE - c1 < RANGE;
        ModShift(c2 - c1, RANGE);
      }
    }
  }

  function Difference(from: int, to: int, range: nat): (d: nat)
    requires range > 0
    ensures d < range
  {
    (to - from) % range
  }

  /** The difference of two readings is that of the true counters modulo the range. */
  lemma DifferenceOfReadings(t1: int, t2: int, range: nat)
    requires range > 0
    ensures Difference(t1 % range, t2 % range, range) == (t2 - t1) % range
  {
    var q1, q2 := t1 / range, t2 / range;
    var d := t2 % range - t1 % range;
    assert t2 - t1 == (q2 - q1) * range + d;
    ModUnique(t2 - t1, q2 - q1 + d / range, d % range, range);
  }

  /** No count is lost between two readings exactly when the counter moved by less than
      its range. */
  lemma DeltaLosslessExactly(t1: nat, t2: nat)
    requires t1 <= t2
    ensures DeltaDiff(t1 % RANGE, t2 % RANGE) == t2 - t1 <==> t2 - t1 < RANGE
  {
    DeltaDiffIsSubtraction(t1 % RANGE, t2 % RANGE);
    DifferenceOfReadings(t1, t2, RANGE);
    if t2 - t1 < RANGE { ModUnique(t2 - t1, 0, t2 - t1, RANGE); }
  }

  /** CounterCpusLinuxSysFs::read, in microjoules: the range is max_energy_range_uj. */
  function SysFsDiff(last: int, now: int, maxValue: int): int {
    if last > now then maxValue - last + now else now - last
  }

  /** It is subtraction modulo that range, unless a file goes from 0 to the range itself.
      A file that counts one further, up to the range itself, loses one microjoule each
      time it starts again. */
  lemma SysFsDiffIsSubtraction(last: nat, now: nat, maxValue: nat)
    requires maxValue > 0 && last <= maxValue && now <= maxValue
    ensures SysFsDiff(last, now, maxValue) == Difference(last, now, maxValue) <==> !(last == 0 && now == maxValue)
    ensures SysFsDiff(last, now, maxValue) == Difference(last, now, maxValue + 1) - if last > now then 1 else 0
  {
    if last > now {
      ModUnique(now - last, -1, maxValue + 1 - last + now, maxValue + 1);
      if now == 0 && last == maxValue {
        ModUnique(now - last, -1, 0, maxValue);
      } else {
        ModUnique(now - last, -1, maxValue - last + now, maxValue);
      }
    } else {
      ModUnique(now - last, 0, now - last, maxValue + 1);
      if last == 0 && now == maxValue {
        ModUnique(maxValue, 1, 0, maxValue);
      } else {
        ModUnique(now - last, 0, now - last, maxValue);
      }
    }
  }

  // ---------------------------------------------------------------------
  // One meter

  /** What is kept for one counter: the joules since the last reset and the last
      reading. */
  datatype Meter = Meter(joules: real, last: nat)

  /** What happens to it, at the true counter t: a read, by a user or the refresher; a
      reset under the lock; the assignment of 0 in the reset of the sysfs meters, which
      is not under the lock that the read before it has released. */
  datatype Event = Read(t: nat) | Reset(t: nat) | Zero

  function Next(m: Meter, e: Event, range: nat, unit: real): Meter
    requires range > 0
  {
    match e
    case Read(t) => Meter(m.joules + Difference(m.last, t % range, range) as real * unit, t % range)
    case Reset(t) => Meter(0.0, t % range)
    case Zero => Meter(0.0, m.last)
  }

  function Run(m: Meter, events: seq<Event>, range: nat, unit: real): Meter
    requires range > 0
  {
    if events == [] then m
    else Next(Run(m, events[..|events| - 1], range, unit), events[|events| - 1], range, unit)
  }

  /** The true counter when it was last looked at. */
  function Seen(start: nat, events: seq<Event>): nat {
    if events == [] then start
    else
      match events[|events| - 1]
      case Read(t) => t
      case Reset(t) => t
      case Zero => Seen(start, events[..|events| - 1])
  }

  /** The true counter from which the meter counts: at the last reset, or when it was
      looked at last before it was set to 0. */
  function Base(start: nat, events: seq<Event>): nat {
    if events == [] then start
    else
      match events[|events| - 1]
      case Read(t) => Base(start, events[..|events| - 1])
      case Reset(t) => t
      case Zero => Seen(start, events[..|events| - 1])
  }

  /** The true counter never goes back. */
  predicate Forward(start: nat, events: seq<Event>) {
    events == [] ||
    (Forward(start, events[..|events| - 1]) && Seen(start, events[..|events| - 1]) <= Seen(start, events))
  }

  /** Since the last reset no two consecutive looks were a whole range apart. */
  predicate Close(start: nat, events: seq<Event>, range: nat) {
    events == [] ||
    match events[|events| - 1]
    case Read(t) => t < Seen(start, events[..|events| - 1]) + range && Close(start, events[..|events| - 1], range)
    case Reset(t) => true
    case Zero => true
  }

  lemma {:induction false} BaseBeforeSeen(start: nat, events: seq<Event>)
    requires Forward(start, events)
    ensures Base(start, events) <= Seen(start, events)
  {
    if events != [] { BaseBeforeSeen(start, events[..|events| - 1]); }
  }

  lemma StepOf(range: nat, seen: nat, t: nat)
    requires range > 0 && seen <= t
    ensures Difference(seen % range, t % range, range) <= t - seen
    ensures Difference(seen % range, t % range, range) == t - seen <==> t - seen < range
  {
    DifferenceOfReadings(seen, t, range);
    var d := t - seen;
    if d < range {
      ModUnique(d, 0, d, range);
    } else {
      assert d == d / range * range + d % range;
    }
  }

  /** The counts that a meter has added up since the last reset. */
  function Counted(start: nat, events: seq<Event>, range: nat): nat
    requires range > 0
  {
    if events == [] || !events[|events| - 1].Read? then 0
    else
      var front := events[..|events| - 1];
      Counted(start, front, range) + Difference(Seen(start, front) % range, events[|events| - 1].t % range, range)
  }

  lemma ScaleAdds(a: nat, b: nat, unit: real)
    ensures (a + b) as real * unit == a as real * unit + b as real * unit
  {
  }

  lemma {:induction false} RunCounts(start: nat, events: seq<Event>, range: nat, unit: real)
    requires range > 0
    ensures Run(Meter(0.0, start % range), events, range, unit)
         == Meter(Counted(start, events, range) as real * unit, Seen(start, events) % range)
  {
    hide Difference;
    if events != [] {
      var front, e := events[..|events| - 1], events[|events| - 1];
      RunCounts(start, front, range, unit);
      if e.Read? {
        var c, d := Counted(start, front, range), Difference(Seen(start, front) % range, e.t % range, range);
        ScaleAdds(c, d, unit);
      }
    }
  }

  lemma {:induction false} CountedExactly(start: nat, events: seq<Event>, range: nat)
    requires range > 0 && Forward(start, events)
    ensures Counted(start, events, range) <= Seen(start, events) - Base(start, events)
    ensures Counted(start, events, range) == Seen(start, events) - Base(start, events) <==> Close(start, events, range)
  {
    if events != [] {
      var front, e := events[..|events| - 1], events[|events| - 1];
      CountedExactly(start, front, range);
      BaseBeforeSeen(start, front);
      if e.Read? {
        StepOf(range, Seen(start, front), e.t);
      }
    }
  }

  lemma ScaleCancels(a: nat, b: nat, unit: real)
    requires unit > 0.0
    ensures a as real * unit == b as real * unit <==> a == b
    ensures a as real * unit <= b as real * unit <==> a <= b
  {
    if a < b {
      assert (b - a) as real * unit > 0.0;
    } else if a > b {
      assert (a - b) as real * unit > 0.0;
    }
  }

  /** Lossless metering, exactly: whatever the order of reads, refreshes and resets, the
      meter shows the energy of the true increase since the last reset if and only if no
      two consecutive looks since then were a whole range apart.  It never shows more. */
  lemma LosslessExactly(start: nat, events: seq<Event>, range: nat, unit: real)
    requires range > 0 && unit > 0.0 && Forward(start, events)
    ensures Base(start, events) <= Seen(start, events)
    ensures var shown := Run(Meter(0.0, start % range), events, range, unit).joules;
      var true_ := (Seen(start, events) - Base(start, events)) as real * unit;
      shown <= true_ && (shown == true_ <==> Close(start, events, range))
  {
    hide Run, Counted, Seen, Base, Close, Forward;
    RunCounts(start, events, range, unit);
    CountedExactly(start, events, range);
    BaseBeforeSeen(start, events);
    ScaleCancels(Counted(start, events, range), Seen(start, events) - Base(start, events), unit);
  }

  /** How often the meter is read in between does not change what it shows. */
  lemma ReadsDoNotMatter(start: nat, a: seq<Event>, b: seq<Event>, range: nat, unit: real)
    requires range > 0 && Forward(start, a) && Forward(start, b) && Close(start, a, range) && Close(start, b, range)
    requires Seen(start, a) == Seen(start, b) && Base(start, a) == Base(start, b)
    ensures Run(Meter(0.0, start % range), a, range, unit) == Run(Meter(0.0, start % range), b, range, unit)
  {
    hide Run, Counted, Seen, Base, Close, Forward;
    RunCounts(start, a, range, unit);
    RunCounts(start, b, range, unit);
    CountedExactly(start, a, range);
    CountedExactly(start, b, range);
  }

  /** Joules in a microjoule. */
  const MICRO := 0.000001

  /** CounterCpusLinuxSysFs::read on one slot.  The files show microjoules up to
      max_energy_range_uj.  The meter makes a read step with that range, unless the file
      has gone from 0 to the range itself, which counts and a step would not. */
  method SysFsRead(cumulative: real, last: nat, now: nat, maxValue: nat) returns (joules: real, current: nat)
    requires maxValue > 0 && last <= maxValue && now <= maxValue
    ensures Meter(joules, current % maxValue) == Next(Meter(cumulative, last), Read(now), maxValue, MICRO)
       <==> !(last == 0 && now == maxValue)
    ensures current == now && joules == cumulative + SysFsDiff(last, now, maxValue) as real * MICRO
  {
    SysFsDiffIsSubtraction(last, now, maxValue);
    SameRemainder(last, now, maxValue);
    var r: int;
    if last > now {
      r := maxValue - last + now;
    } else {
      r := now - last;
    }
    joules := cumulative + r as real * MICRO;
    current := now;
  }

  lemma SameRemainder(last: int, now: nat, range: nat)
    requires range > 0 && now <= range
    ensures Difference(last, now % range, range) == Difference(last, now, range)
  {
    if now == range {
      ModUnique(now, 1, 0, range);
      ModShift(-last, range);
    } else {
      ModUnique(now, 0, now, range);
    }
  }

  // ---------------------------------------------------------------------
  // The refresher

  /** CounterCpusLinuxMsr::getWrappingInterval, in seconds. */
  function WrappingInterval(energyPerUnit: real, thermalSpecPower: real): real
    requires thermalSpecPower > 0.0
  {
    0xFFFF_FFFF as real * energyPerUnit / thermalSpecPower
  }

  /** The pause of the refresher, in milliseconds. */
  function SleepingInterval(energyPerUnit: real, thermalSpecPower: real): real
    requires thermalSpecPower > 0.0
  {
    (WrappingInterval(energyPerUnit, thermalSpecPower) / 2.0) * 1000.0
  }

  /** A moment at which a meter is used, in seconds: by the refresher, or by a user. */
  datatype Moment = Moment(at: real, use: Use)

  datatype Use = Refresh | UserRead | UserReset | UserZero

  /** The energy that the processor has taken up to a moment, in joules. */
  type Energy = real -> real

  /** It takes no more than some power. */
  ghost predicate WithinPower(energy: Energy, power: real) {
    && (forall a: real :: energy(a) >= 0.0)
    && (forall a: real, b: real :: a <= b ==> 0.0 <= energy(b) - energy(a) <= Product(power, b - a))
  }

  /** The true counter: whole units of energy. */
  function Counter(energy: Energy, unit: real, at: real): nat
    requires unit > 0.0
  {
    var units := (energy(at) / unit).Floor;
    if units < 0 then 0 else units
  }

  /** A product whose factors most proofs need not see. */
  function Product(a: real, b: real): real {
    a * b
  }

  lemma ProductAdds(a: real, b: real, unit: real)
    ensures Product(a + b, unit) == Product(a, unit) + Product(b, unit)
    ensures Product(1.0, unit) == unit && Product(0.0, unit) == 0.0
  {
  }

  lemma ProductOrders(a: real, b: real, unit: real)
    requires unit > 0.0
    ensures a < b <==> Product(a, unit) < Product(b, unit)
  {
    ProductAdds(a, b - a, unit);
    ProductAdds(b, a - b, unit);
    if a < b {
      assert Product(b - a, unit) > 0.0;
    } else if a > b {
      assert Product(a - b, unit) > 0.0;
    }
  }

  lemma CounterBrackets(energy: Energy, unit: real, at: real)
    requires unit > 0.0 && energy(at) >= 0.0
    ensures var n := Counter(energy, unit, at) as real;
      Product(n, unit) <= energy(at) < Product(n, unit) + unit
  {
    hide Product;
    var q := energy(at) / unit;
    Quotient(energy(at), unit);
    ProductAdds(0.0, 0.0, unit);
    ProductOrders(q, 0.0, unit);
    var n := Counter(energy, unit, at) as real;
    ProductOrders(q, n + 1.0, unit);
    ProductOrders(q, n, unit);
    ProductAdds(n, 1.0, unit);
  }

  lemma Quotient(x: real, unit: real)
    requires unit > 0.0
    ensures Product(x / unit, unit) == x
  {
  }

  /** A counter of whole units can be ahead of or behind the energy by less than a unit. */
  lemma CounterFollows(energy: Energy, unit: real, power: real, a: real, b: real)
    requires unit > 0.0 && WithinPower(energy, power) && a <= b
    ensures Counter(energy, unit, a) <= Counter(energy, unit, b)
    ensures energy(b) - energy(a) - unit
          < Product((Counter(energy, unit, b) - Counter(energy, unit, a)) as real, unit)
          < energy(b) - energy(a) + unit
  {
    hide Counter, Product;
    CounterBrackets(energy, unit, a);
    CounterBrackets(energy, unit, b);
    var m, n := Counter(energy, unit, a), Counter(energy, unit, b);
    assert energy(a) >= 0.0 && energy(b) >= 0.0 && energy(b) - energy(a) >= 0.0;
    ProductAdds(n as real, 1.0, unit);
    ProductOrders(m as real, n as real + 1.0, unit);
    ProductAdds(m as real, (n - m) as real, unit);
  }

  function EventOf(energy: Energy, unit: real, m: Moment): Event
    requires unit > 0.0
  {
    match m.use
    case Refresh => Read(Counter(energy, unit, m.at))
    case UserRead => Read(Counter(energy, unit, m.at))
    case UserReset => Reset(Counter(energy, unit, m.at))
    case UserZero => Zero
  }

  function EventsOf(energy: Energy, unit: real, run: seq<Moment>): (events: seq<Event>)
    requires unit > 0.0
    ensures |events| == |run|
  {
    if run == [] then []
    else EventsOf(energy, unit, run[..|run| - 1]) + [EventOf(energy, unit, run[|run| - 1])]
  }

  /** When the refresher read last. */
  function Refreshed(begin: real, run: seq<Moment>): real {
    if run == [] then begin
    else
      var m := run[|run| - 1];
      if m.use.Refresh? then m.at else Refreshed(begin, run[..|run| - 1])
  }

  /** When anyone looked last. */
  function Looked(begin: real, run: seq<Moment>): real {
    if run == [] then begin
    else
      var m := run[|run| - 1];
      if m.use.UserZero? then Looked(begin, run[..|run| - 1]) else m.at
  }

  /** The moment from which the meter counts: the last reset, or the last look before it
      was set to 0. */
  function Since(begin: real, run: seq<Moment>): real {
    if run == [] then begin
    else
      var before, m := run[..|run| - 1], run[|run| - 1];
      match m.use
      case Refresh => Since(begin, before)
      case UserRead => Since(begin, before)
      case UserReset => m.at
      case UserZero => Looked(begin, before)
  }

  function Latest(begin: real, run: seq<Moment>): real {
    if run == [] then begin else run[|run| - 1].at
  }

  /** Time goes on, and nothing happens later after a reading of the refresher than twice
      its pause: it is late by no more than the pause itself. */
  predicate Punctual(begin: real, run: seq<Moment>, pause: real) {
    run == [] ||
    var before, m := run[..|run| - 1], run[|run| - 1];
    && Punctual(begin, before, pause)
    && Latest(begin, before) <= m.at
    && (m.at - Refreshed(begin, before)) * 1000.0 <= 2.0 * pause
  }

  /** Twice the pause, up to the thermal power, is less than a range, whatever fraction of
      a unit the counter is ahead. */
  lemma PauseIsShort(unit: real, power: real, elapsed: real, t1: nat, t2: nat)
    requires unit > 0.0 && power > 0.0 && t1 <= t2
    requires elapsed * 1000.0 <= 2.0 * SleepingInterval(unit, power)
    requires Product((t2 - t1) as real, unit) < Product(power, elapsed) + unit
    ensures t2 < t1 + RANGE
  {
    hide Product;
    PowerOverPause(unit, power, elapsed);
    ProductAdds(0xFFFF_FFFF as real, 1.0, unit);
    ProductOrders((t2 - t1) as real, RANGE as real, unit);
  }

  lemma PowerOverPause(unit: real, power: real, elapsed: real)
    requires unit > 0.0 && power > 0.0
    requires elapsed * 1000.0 <= 2.0 * SleepingInterval(unit, power)
    ensures Product(power, elapsed) <= Product(0xFFFF_FFFF as real, unit)
  {
    var w := WrappingInterval(unit, power);
    assert elapsed <= w;
    assert power * elapsed <= power * w by {
      assert power * (w - elapsed) >= 0.0;
    }
    assert power * w == 0xFFFF_FFFF as real * unit;
  }

  lemma {:induction false} LookedAfterRefreshed(begin: real, run: seq<Moment>, pause: real)
    requires Punctual(begin, run, pause)
    ensures Refreshed(begin, run) <= Looked(begin, run) <= Latest(begin, run)
    ensures Since(begin, run) <= Looked(begin, run)
  {
    if run != [] { LookedAfterRefreshed(begin, run[..|run| - 1], pause); }
  }

  lemma EventsFront(energy: Energy, unit: real, run: seq<Moment>)
    requires unit > 0.0 && run != []
    ensures var events := EventsOf(energy, unit, run);
      && events[..|events| - 1] == EventsOf(energy, unit, run[..|run| - 1])
      && events[|events| - 1] == EventOf(energy, unit, run[|run| - 1])
  {
  }

  lemma {:induction false} SeenWhenLooked(energy: Energy, unit: real, begin: real, run: seq<Moment>)
    requires unit > 0.0
    ensures var start, events := Counter(energy, unit, begin), EventsOf(energy, unit, run);
      && Seen(start, events) == Counter(energy, unit, Looked(begin, run))
      && Base(start, events) == Counter(energy, unit, Since(begin, run))
  {
    hide Counter;
    if run != [] {
      SeenWhenLooked(energy, unit, begin, run[..|run| - 1]);
      EventsFront(energy, unit, run);
    }
  }

  lemma GapIsShort(energy: Energy, unit: real, power: real, begin: real, before: seq<Moment>, at: real)
    requires unit > 0.0 && power > 0.0 && WithinPower(energy, power)
    requires Punctual(begin, before, SleepingInterval(unit, power)) && Latest(begin, before) <= at
    requires (at - Refreshed(begin, before)) * 1000.0 <= 2.0 * SleepingInterval(unit, power)
    ensures var seen := Counter(energy, unit, Looked(begin, before));
      seen <= Counter(energy, unit, at) < seen + RANGE
  {
    hide SleepingInterval, Punctual, Looked, Latest, Refreshed, Counter, Product;
    LookedAfterRefreshed(begin, before, SleepingInterval(unit, power));
    var last := Looked(begin, before);
    CounterFollows(energy, unit, power, last, at);
    assert energy(at) - energy(last) <= Product(power, at - last);
    PauseIsShort(unit, power, at - last, Counter(energy, unit, last), Counter(energy, unit, at));
  }

  lemma CloseSnoc(start: nat, events: seq<Event>, e: Event, range: nat)
    requires Forward(start, events) && Close(start, events, range)
    requires !e.Zero? ==> Seen(start, events) <= e.t < Seen(start, events) + range
    ensures Forward(start, events + [e]) && Close(start, events + [e], range)
  {
    assert (events + [e])[..|events|] == events;
  }

  lemma NoEvents(start: nat, range: nat)
    ensures Forward(start, []) && Close(start, [], range)
  {
  }

  /** Over every timed run of users and refresher in which the processor stays within its
      thermal power and the refresher is late by no more than its pause, no two
      consecutive looks are a range apart. */
  lemma {:induction false} RefresherKeepsClose(energy: Energy, unit: real, power: real, begin: real, run: seq<Moment>)
    requires unit > 0.0 && power > 0.0 && WithinPower(energy, power)
    requires Punctual(begin, run, SleepingInterval(unit, power))
    ensures var start, events := Counter(energy, unit, begin), EventsOf(energy, unit, run);
      Forward(start, events) && Close(start, events, RANGE)
  {
    hide SleepingInterval, Seen, Base, WithinPower, Forward, Close, Looked, Refreshed, Latest, Counter;
    if run == [] {
      NoEvents(Counter(energy, unit, begin), RANGE);
    } else {
      var before, m := run[..|run| - 1], run[|run| - 1];
      RefresherKeepsClose(energy, unit, power, begin, before);
      SeenWhenLooked(energy, unit, begin, before);
      GapIsShort(energy, unit, power, begin, before, m.at);
      CloseSnoc(Counter(energy, unit, begin), EventsOf(energy, unit, before), EventOf(energy, unit, m), RANGE);
    }
  }

  /** So the meter shows, to less than a unit, the energy taken since its last reset up to
      the last look. */
  lemma RefresherKeepsEnergy(energy: Energy, unit: real, power: real, begin: real, run: seq<Moment>)
    requires unit > 0.0 && power > 0.0 && WithinPower(energy, power)
    requires Punctual(begin, run, SleepingInterval(unit, power))
    ensures var start := Counter(energy, unit, begin);
      var shown := Run(Meter(0.0, start % RANGE), EventsOf(energy, unit, run), RANGE, unit).joules;
      var taken := energy(Looked(begin, run)) - energy(Since(begin, run));
      taken - unit < shown < taken + unit
  {
    hide Run, Seen, Base, Close, Forward, Punctual, WithinPower, Counter;
    RefresherKeepsClose(energy, unit, power, begin, run);
    SeenWhenLooked(energy, unit, begin, run);
    LookedAfterRefreshed(begin, run, SleepingInterval(unit, power));
    CounterFollows(energy, unit, power, Since(begin, run), Looked(begin, run));
    LosslessExactly(Counter(energy, unit, begin), EventsOf(energy, unit, run), RANGE, unit);
  }

  // ---------------------------------------------------------------------
  // A processor at full power

  /** It takes its whole power from moment 0 on. */
  function FullPower(power: real): Energy {
    at => if at <= 0.0 then 0.0 else power * at
  }

  lemma FullPowerIsWithin(power: real)
    requires power > 0.0
    ensures WithinPower(FullPower(power), power)
  {
    hide FullPower;
    forall a: real
      ensures FullPower(power)(a) >= 0.0
    {
      FullPowerGrows(power, a, a);
    }
    forall a: real, b: real | a <= b
      ensures 0.0 <= FullPower(power)(b) - FullPower(power)(a) <= Product(power, b - a)
    {
      FullPowerGrows(power, a, b);
    }
  }

  lemma FullPowerGrows(power: real, a: real, b: real)
    requires power > 0.0 && a <= b
    ensures var energy := FullPower(power);
      energy(a) >= 0.0 && 0.0 <= energy(b) - energy(a) <= power * (b - a)
  {
    var x, y := if a <= 0.0 then 0.0 else a, if b <= 0.0 then 0.0 else b;
    assert FullPower(power)(a) == power * x && FullPower(power)(b) == power * y;
    assert power * x >= 0.0 && power * (y - x) >= 0.0 && power * ((b - a) - (y - x)) >= 0.0;
    assert power * (y - x) == power * y - power * x;
    assert power * ((b - a) - (y - x)) == power * (b - a) - power * (y - x);
  }

  /** Its counter moves by one for each unit of energy. */
  lemma FullPowerCounts(unit: real, power: real, n: nat)
    requires unit > 0.0 && power > 0.0
    ensures Counter(FullPower(power), unit, n as real * unit / power) == n
  {
    var at := n as real * unit / power;
    assert power * at == n as real * unit;
    if n == 0 {
      assert at == 0.0;
      assert 0.0 / unit == 0.0;
    } else {
      assert n as real * unit > 0.0;
      assert at > 0.0;
      assert (n as real * unit) / unit == n as real;
      assert FullPower(power)(at) / unit == n as real;
    }
  }

  /** One reading of the refresher, n units after the start, and what the meter then
      shows. */
  lemma FullPowerShows(unit: real, power: real, n: nat)
    requires unit > 0.0 && power > 0.0
    ensures var run := [Moment(n as real * unit / power, Refresh)];
      Run(Meter(0.0, Counter(FullPower(power), unit, 0.0) % RANGE), EventsOf(FullPower(power), unit, run), RANGE, unit)
      == Meter((n % RANGE) as real * unit, n % RANGE)
  {
    hide Counter;
    var energy, run := FullPower(power), [Moment(n as real * unit / power, Refresh)];
    FullPowerCounts(unit, power, n);
    FullPowerCounts(unit, power, 0);
    assert run[..0] == [];
    var events := EventsOf(energy, unit, run);
    assert events == [] + [Read(n)] && events[..0] == [];
    DifferenceOfReadings(0, n, RANGE);
  }

  /** Twice the pause after the start at full power all is shown that was taken. */
  lemma OnTimeShowsAll(unit: real, power: real)
    requires unit > 0.0 && power > 0.0
    ensures var w := WrappingInterval(unit, power);
      var run, energy := [Moment(w, Refresh)], FullPower(power);
      && WithinPower(energy, power) && Punctual(0.0, run, SleepingInterval(unit, power))
      && Run(Meter(0.0, Counter(energy, unit, 0.0) % RANGE), EventsOf(energy, unit, run), RANGE, unit).joules
         == energy(w) == 0xFFFF_FFFF as real * unit
  {
    hide Counter, Run, EventsOf;
    var w := WrappingInterval(unit, power);
    FullPowerIsWithin(power);
    FullPowerShows(unit, power, 0xFFFF_FFFF);
    assert power * w == 0xFFFF_FFFF as real * unit > 0.0;
    assert w > 0.0;
    assert [Moment(w, Refresh)][..0] == [];
  }

  /** The refresher has no time to spare but the one unit that the wrapping interval is
      short of a range: one more unit late, and at full power a whole range is lost. */
  lemma LaterIsTooLate(unit: real, power: real)
    requires unit > 0.0 && power > 0.0
    ensures var late := WrappingInterval(unit, power) + unit / power;
      var run, energy := [Moment(late, Refresh)], FullPower(power);
      && WithinPower(energy, power) && energy(late) == RANGE as real * unit
      && !Punctual(0.0, run, SleepingInterval(unit, power))
      && Run(Meter(0.0, Counter(energy, unit, 0.0) % RANGE), EventsOf(energy, unit, run), RANGE, unit).joules == 0.0
  {
    hide Counter, Run, EventsOf;
    var late := WrappingInterval(unit, power) + unit / power;
    FullPowerIsWithin(power);
    FullPowerShows(unit, power, RANGE);
    assert late == RANGE as real * unit / power;
    assert power * late == RANGE as real * unit > 0.0;
    assert late > 0.0 && unit / power > 0.0;
    assert [Moment(late, Refresh)][..0] == [];
  }

  // ---------------------------------------------------------------------
  // The meters of all processors, read from registers

  datatype Kind = Package | Cores | Graphic | Dram

  datatype Family = Intel | Amd

  /** JoulesCpu. */
  datatype Joules = Joules(cpu: real, cores: real, graphic: real, dram: real)

  function JoulesOf(j: Joules, kind: Kind): real {
    match kind
    case Package => j.cpu
    case Cores => j.cores
    case Graphic => j.graphic
    case Dram => j.dram
  }

  datatype Result = Value(joules: real) | Error

  class CounterCpusLinuxMsr {
    const cpus: nat
    const family: Family
    const energyPerUnit: real
    const hasCores: bool
    const hasGraphic: bool
    const hasDram: bool
    const joulesCpus: array<Joules>
    const lastCpu: array<nat>
    const lastCores: array<nat>
    const lastGraphic: array<nat>
    const lastDram: array<nat>

    /** On AMD only the package counters are there. */
    ghost predicate Valid()
      reads lastCpu, lastCores, lastGraphic, lastDram
    {
      && joulesCpus.Length == lastCpu.Length == lastCores.Length == lastGraphic.Length == lastDram.Length == cpus
      && lastCpu != lastCores && lastCpu != lastGraphic && lastCpu != lastDram
      && lastCores != lastGraphic && lastCores != lastDram && lastGraphic != lastDram
      && (family.Amd? ==> !hasCores && !hasGraphic && !hasDram)
      && (forall i :: 0 <= i < cpus ==>
            lastCpu[i] < RANGE && lastCores[i] < RANGE && lastGraphic[i] < RANGE && lastDram[i] < RANGE)
    }

    predicate Has(kind: Kind) {
      match kind
      case Package => true
      case Cores => hasCores
      case Graphic => hasGraphic
      case Dram => hasDram
    }

    function Last(kind: Kind): array<nat> {
      match kind
      case Package => lastCpu
      case Cores => lastCores
      case Graphic => lastGraphic
      case Dram => lastDram
    }

    ghost function MeterOf(kind: Kind, cpuId: nat): Meter
      requires Valid() && cpuId < cpus
      reads joulesCpus, lastCpu, lastCores, lastGraphic, lastDram
    {
      Meter(JoulesOf(joulesCpus[cpuId], kind), Last(kind)[cpuId])
    }

    constructor (cpus: nat, family: Family, energyPerUnit: real, hasCores: bool, hasGraphic: bool, hasDram: bool)
      requires family.Amd? ==> !hasCores && !hasGraphic && !hasDram
      ensures Valid() && this.cpus == cpus && this.energyPerUnit == energyPerUnit
      ensures fresh(joulesCpus) && fresh(lastCpu) && fresh(lastCores) && fresh(lastGraphic) && fresh(lastDram)
    {
      this.cpus, this.family, this.energyPerUnit := cpus, family, energyPerUnit;
      this.hasCores, this.hasGraphic, this.hasDram := hasCores, hasGraphic, hasDram;
      joulesCpus := new Joules[cpus](_ => Joules(0.0, 0.0, 0.0, 0.0));
      lastCpu := new nat[cpus](_ => 0);
      lastCores := new nat[cpus](_ => 0);
      lastGraphic := new nat[cpus](_ => 0);
      lastDram := new nat[cpus](_ => 0);
    }

    /** readEnergyCounter: reg is the 64-bit register, None when it cannot be read.  A
        register that shows 0 is an error as well. */
    method ReadEnergyCounter(reg: Option<nat>) returns (r: Option<nat>)
      ensures r.None? <==> reg.None? || reg.value == 0
      ensures r.Some? ==> r.value == reg.value % RANGE
    {
      if reg.None? || reg.value == 0 {
        return None;
      }
      r := Some(reg.value % RANGE);
    }

    /** updateCounter on some joules and a slot of last readings. */
    method UpdateCounter(joules: real, last: array<nat>, cpuId: nat, reg: Option<nat>) returns (r: Result)
      requires cpuId < last.Length && last[cpuId] < RANGE
      modifies last
      ensures r.Error? <==> reg.None? || reg.value == 0
      ensures r.Error? ==> last[..] == old(last[..])
      ensures r.Value? ==> last[..] == old(last[..])[cpuId := reg.value % RANGE]
      ensures r.Value? ==>
                Meter(r.joules, last[cpuId])
                == Next(Meter(joules, old(last[cpuId])), Read(reg.value), RANGE, energyPerUnit)
    {
      var current := ReadEnergyCounter(reg);
      if current.None? {
        return Error;
      }
      DeltaDiffIsSubtraction(last[cpuId], current.value);
      r := Value(joules + DeltaDiff(last[cpuId], current.value) as real * energyPerUnit);
      last[cpuId] := current.value;
    }

    /** getJoulesCpu, getJoulesCores, getJoulesGraphic and getJoulesDram.  One meter makes
        a read step, all others stay; an error changes nothing. */
    method GetJoules(kind: Kind, cpuId: nat, reg: Option<nat>) returns (r: Result)
      requires Valid() && cpuId < cpus
      modifies joulesCpus, lastCpu, lastCores, lastGraphic, lastDram
      ensures Valid()
      ensures r.Error? <==> Has(kind) && (reg.None? || reg.value == 0)
      ensures !Has(kind) ==> r == Value(0.0)
      ensures Has(kind) && r.Value? ==>
                && MeterOf(kind, cpuId) == Next(old(MeterOf(kind, cpuId)), Read(reg.value), RANGE, energyPerUnit)
                && r.joules == MeterOf(kind, cpuId).joules
      ensures forall k, i :: 0 <= i < cpus && !(Has(kind) && r.Value? && k == kind && i == cpuId) ==>
                MeterOf(k, i) == old(MeterOf(k, i))
    {
      if !Has(kind) {
        return Value(0.0);
      }
      var j := joulesCpus[cpuId];
      r := UpdateCounter(JoulesOf(j, kind), Last(kind), cpuId, reg);
      if r.Value? {
        joulesCpus[cpuId] := match kind
          case Package => j.(cpu := r.joules)
          case Cores => j.(cores := r.joules)
          case Graphic => j.(graphic := r.joules)
          case Dram => j.(dram := r.joules);
      }
    }

    /** The register of a meter that is there shows a reading. */
    predicate Readable(kind: Kind, cpuId: nat, regs: (Kind, nat) -> Option<nat>) {
      Has(kind) ==> regs(kind, cpuId).Some? && regs(kind, cpuId).value != 0
    }

    /** What a reset makes of a meter; where there is none only the joules are set. */
    function AfterReset(kind: Kind, cpuId: nat, before: Meter, regs: (Kind, nat) -> Option<nat>): Meter {
      if Has(kind) && regs(kind, cpuId).Some? then Next(before, Reset(regs(kind, cpuId).value), RANGE, energyPerUnit)
      else Next(before, Zero, RANGE, energyPerUnit)
    }

    lemma ReadableIs(kind: Kind, cpuId: nat, regs: (Kind, nat) -> Option<nat>)
      ensures Readable(kind, cpuId, regs) ==> Has(kind) ==> regs(kind, cpuId).Some?
    {
    }

    /** It shows 0, and counts from what the register shows if there is one. */
    lemma AfterResetIs(kind: Kind, cpuId: nat, before: Meter, regs: (Kind, nat) -> Option<nat>)
      requires Readable(kind, cpuId, regs)
      ensures AfterReset(kind, cpuId, before, regs)
           == Meter(0.0, if Has(kind) then regs(kind, cpuId).value % 0x1_0000_0000 else before.last)
    {
    }

    lemma AllKinds(cpuId: nat, regs: (Kind, nat) -> Option<nat>)
      ensures (Readable(Package, cpuId, regs) && Readable(Cores, cpuId, regs)
               && Readable(Graphic, cpuId, regs) && Readable(Dram, cpuId, regs))
              <==> forall k: Kind :: Readable(k, cpuId, regs)
    {
      hide Readable;
      if Readable(Package, cpuId, regs) && Readable(Cores, cpuId, regs)
         && Readable(Graphic, cpuId, regs) && Readable(Dram, cpuId, regs) {
        forall k: Kind
          ensures Readable(k, cpuId, regs)
        {
          match k {
            case Package =>
            case Cores =>
            case Graphic =>
            case Dram =>
          }
        }
      }
    }

    /** One assignment of reset, if the meter is there. */
    method ResetLast(kind: Kind, cpuId: nat, regs: (Kind, nat) -> Option<nat>) returns (ok: bool)
      requires Valid() && cpuId < cpus
      modifies Last(kind)
      ensures Valid() && (ok <==> Readable(kind, cpuId, regs))
      ensures forall j :: 0 <= j < cpus && j != cpuId ==> Last(kind)[j] == old(Last(kind)[j])
      ensures ok ==> Last(kind)[cpuId] == if Has(kind) then regs(kind, cpuId).value % RANGE else old(Last(kind)[cpuId])
    {
      if !Has(kind) {
        return true;
      }
      var current := ReadEnergyCounter(regs(kind, cpuId));
      if current.None? {
        return false;
      }
      var last := Last(kind);
      last[cpuId] := current.value;
      ok := true;
    }

    /** The body of the loop of reset. */
    method ResetCpu(cpuId: nat, regs: (Kind, nat) -> Option<nat>) returns (ok: bool)
      requires Valid() && cpuId < cpus
      modifies joulesCpus, lastCpu, lastCores, lastGraphic, lastDram
      ensures Valid()
      ensures ok <==> forall k: Kind :: Readable(k, cpuId, regs)
      ensures ok ==> forall k: Kind :: MeterOf(k, cpuId) == AfterReset(k, cpuId, old(MeterOf(k, cpuId)), regs)
      ensures forall k: Kind, j | 0 <= j < cpus && j != cpuId :: MeterOf(k, j) == old(MeterOf(k, j))
    {
      hide Has;
      AllKinds(cpuId, regs);
      ok := ResetLast(Package, cpuId, regs);
      if !ok { return; }
      ok := ResetLast(Cores, cpuId, regs);
      if !ok { return; }
      ok := ResetLast(Graphic, cpuId, regs);
      if !ok { return; }
      ok := ResetLast(Dram, cpuId, regs);
      if !ok { return; }
      joulesCpus[cpuId] := Joules(0.0, 0.0, 0.0, 0.0);
      forall k: Kind
        ensures MeterOf(k, cpuId) == AfterReset(k, cpuId, old(MeterOf(k, cpuId)), regs)
      {
        assert Readable(k, cpuId, regs);
        match k {
          case Package =>
          case Cores =>
          case Graphic =>
          case Dram =>
        }
      }
    }

    /** reset: every meter shows 0 and counts from its register; it fails at the first
        register that cannot be read or shows 0. */
    method ResetAll(regs: (Kind, nat) -> Option<nat>) returns (ok: bool)
      requires Valid()
      modifies joulesCpus, lastCpu, lastCores, lastGraphic, lastDram
      ensures Valid()
      ensures ok <==> forall k: Kind, i | 0 <= i < cpus :: Readable(k, i, regs)
      ensures ok ==> forall k: Kind, i | 0 <= i < cpus ::
                       && MeterOf(k, i) == AfterReset(k, i, old(MeterOf(k, i)), regs)
                       && MeterOf(k, i).joules == 0.0
                       && (Has(k) ==> regs(k, i).Some? && MeterOf(k, i).last == regs(k, i).value % 0x1_0000_0000)
    {
      hide Readable, Has, JoulesOf, Last, AfterReset;
      var i := 0;
      while i < cpus
        invariant 0 <= i <= cpus && Valid()
        invariant forall k: Kind, j | 0 <= j < i :: Readable(k, j, regs)
        invariant forall k: Kind, j | 0 <= j < i :: MeterOf(k, j) == AfterReset(k, j, old(MeterOf(k, j)), regs)
        invariant forall k: Kind, j | i <= j < cpus :: MeterOf(k, j) == old(MeterOf(k, j))
      {
        ok := ResetCpu(i, regs);
        if !ok { return; }
        i := i + 1;
      }
      forall k: Kind, i | 0 <= i < cpus
        ensures Has(k) ==> regs(k, i).Some?
        ensures AfterReset(k, i, old(MeterOf(k, i)), regs)
             == Meter(0.0, if Has(k) then regs(k, i).value % 0x1_0000_0000 else old(MeterOf(k, i)).last)
      {
        ReadableIs(k, i, regs);
        AfterResetIs(k, i, old(MeterOf(k, i)), regs);
      }
      ok := true;
    }
  }
}

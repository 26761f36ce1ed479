/** Counting seconds from a 32-bit millisecond counter that wraps around every 49.7 days. */
module Uptime {
  import opened Common

  const FAILSAFE_MS := 3600000
  const MAX_GAP_MS := 3599000

  datatype Clock = Clock(lastMillis: u32, deviceUptime: u32, connectionUptime: u32)

  function Elapsed(c: Clock, millis: u32): u32 {
    (millis - c.lastMillis) % U32_MODULUS
  }

  /** One reading: whole seconds are counted, the rest is kept for later; after an implausible gap
      counting starts again from the reading. */
  function Tick(c: Clock, millis: u32): Clock {
    var d := Elapsed(c, millis);
    if d > FAILSAFE_MS then c.(lastMillis := millis)
    else Count(c, d)
  }

  /** The clock after counting the whole seconds of d milliseconds. */
  function Count(c: Clock, d: nat): Clock {
    Clock((c.lastMillis + 1000 * (d / 1000)) % U32_MODULUS,
          (c.deviceUptime + d / 1000) % U32_MODULUS,
          (c.connectionUptime + d / 1000) % U32_MODULUS)
  }

  lemma CountOne(c: Clock, d: nat)
    requires d % 1000 == 0
    ensures var n := Count(c, d);
            Count(c, d + 1000) == Clock((n.lastMillis + 1000) % U32_MODULUS, (n.deviceUptime + 1) % U32_MODULUS,
                                        (n.connectionUptime + 1) % U32_MODULUS)
  {
    var k := d / 1000;
    assert (d + 1000) / 1000 == k + 1;
    ModSum(c.lastMillis + 1000 * k, 1000);
    ModSum(c.deviceUptime + k, 1);
    ModSum(c.connectionUptime + k, 1);
  }

  lemma CountAll(c: Clock, d: nat, rest: nat)
    requires rest < 1000 && rest <= d && (d - rest) % 1000 == 0
    ensures Count(c, d - rest) == Count(c, d)
  {
    assert (d - rest) / 1000 == d / 1000;
  }

  class Counter {
    var lastMillis: u32
    var deviceUptime: u32
    var connectionUptime: u32

    ghost function View(): Clock
      reads this
    {
      Clock(lastMillis, deviceUptime, connectionUptime)
    }

    constructor ()
      ensures View() == Clock(0, 0, 0)
    {
      lastMillis, deviceUptime, connectionUptime := 0, 0, 0;
    }

    method Iterate(millis: u32)
      modifies this
      ensures View() == Tick(old(View()), millis)
    {
      var timediff := (millis - lastMillis) % U32_MODULUS;
      if timediff > FAILSAFE_MS {
        lastMillis := millis;
        return;
      }
      ghost var c, d := View(), timediff;
      while timediff >= 1000
        invariant 0 <= timediff <= d && View() == Count(c, d - timediff) && (d - timediff) % 1000 == 0
      {
        CountOne(c, d - timediff);
        deviceUptime := (deviceUptime + 1) % U32_MODULUS;
        connectionUptime := (connectionUptime + 1) % U32_MODULUS;
        timediff := timediff - 1000;
        lastMillis := (lastMillis + 1000) % U32_MODULUS;
      }
      CountAll(c, d, timediff);
    }

    method ResetConnectionUptime()
      modifies this
      ensures View() == old(View()).(connectionUptime := 0)
    {
      connectionUptime := 0;
    }
  }

  // ----- against true time

  /** The counters at true time t, the connection counter reset when "since" seconds had been counted. */
  ghost predicate Exact(c: Clock, t: nat, since: nat) {
    && since <= t / 1000
    && c.lastMillis == (1000 * (t / 1000)) % U32_MODULUS
    && c.deviceUptime == (t / 1000) % U32_MODULUS
    && c.connectionUptime == (t / 1000 - since) % U32_MODULUS
  }

  lemma ModDifference(a: nat, b: nat)
    requires a <= b && b - a < U32_MODULUS
    ensures (b % U32_MODULUS - a % U32_MODULUS) % U32_MODULUS == b - a
  {}

  lemma ModSum(a: int, b: int)
    ensures (a % U32_MODULUS + b) % U32_MODULUS == (a + b) % U32_MODULUS
  {}

  lemma ElapsedIs(c: Clock, t: nat, since: nat, t': nat)
    requires Exact(c, t, since) && t <= t' && t' - 1000 * (t / 1000) < U32_MODULUS
    ensures Elapsed(c, t' % U32_MODULUS) == t' - 1000 * (t / 1000)
    ensures (t' - 1000 * (t / 1000)) / 1000 == t' / 1000 - t / 1000
  {
    ModDifference(1000 * (t / 1000), t');
  }

  /** A reading within the failsafe keeps the counters exact, across any number of wraps. */
  lemma TickExact(c: Clock, t: nat, since: nat, t': nat)
    requires Exact(c, t, since) && t <= t' && t' - 1000 * (t / 1000) <= FAILSAFE_MS
    ensures Exact(Tick(c, t' % U32_MODULUS), t', since)
  {
    ElapsedIs(c, t, since, t');
    var n := t' / 1000 - t / 1000;
    ModSum(1000 * (t / 1000), 1000 * n);
    ModSum(t / 1000, n);
    ModSum(t / 1000 - since, n);
  }

  /** Exactly when a reading keeps the device counter right: no more than the failsafe since the last
      counted second (for gaps below one wrap of the counter). */
  lemma TickExactIff(c: Clock, t: nat, since: nat, t': nat)
    requires Exact(c, t, since) && t <= t' && t' - 1000 * (t / 1000) < U32_MODULUS
    ensures Tick(c, t' % U32_MODULUS).deviceUptime == (t' / 1000) % U32_MODULUS
            <==> t' - 1000 * (t / 1000) <= FAILSAFE_MS
  {
    ElapsedIs(c, t, since, t');
    if t' - 1000 * (t / 1000) <= FAILSAFE_MS {
      TickExact(c, t, since, t');
    } else {
      ModDifference(t / 1000, t' / 1000);
    }
  }

  /** After a gap of more than an hour, however it came about, nothing is counted and counting goes on
      from the reading. */
  lemma GapIsSkipped(c: Clock, millis: u32, d: nat)
    requires (millis - c.lastMillis) % 0x1_0000_0000 > 3600000 && d <= 3600000
    ensures var n := Tick(c, millis);
            && n.lastMillis == millis && n.deviceUptime == c.deviceUptime && n.connectionUptime == c.connectionUptime
            && var later := Tick(n, (millis + d) % 0x1_0000_0000);
               && later.deviceUptime == (c.deviceUptime + d / 1000) % 0x1_0000_0000
               && later.connectionUptime == (c.connectionUptime + d / 1000) % 0x1_0000_0000
               && later.lastMillis == (millis + d - d % 1000) % 0x1_0000_0000
  {
    var n := Tick(c, millis);
    CountIs(n, d);
    hide Count;
    ElapsedBehind(n, d);
  }

  lemma ElapsedBehind(c: Clock, d: nat)
    requires d < 0x1_0000_0000
    ensures Elapsed(c, (c.lastMillis + d) % 0x1_0000_0000) == d
  {}

  lemma CountIs(c: Clock, d: nat)
    ensures var n := Count(c, d);
            && n.deviceUptime == (c.deviceUptime + d / 1000) % 0x1_0000_0000
            && n.connectionUptime == (c.connectionUptime + d / 1000) % 0x1_0000_0000
            && n.lastMillis == (c.lastMillis + d - d % 1000) % 0x1_0000_0000
  {}

  datatype Event = At(time: nat) | Reset

  /** Readings in the order of time, no two of them, nor start and first, too far apart. */
  ghost predicate Timely(t: nat, events: seq<Event>)
    decreases |events|
  {
    events == [] ||
    match events[0]
    case At(t') => t <= t' <= t + MAX_GAP_MS && Timely(t', events[1..])
    case Reset => Timely(t, events[1..])
  }

  ghost function Run(c: Clock, events: seq<Event>): Clock
    decreases |events|
  {
    if events == [] then c
    else
      match events[0]
      case At(t') => Run(Tick(c, t' % U32_MODULUS), events[1..])
      case Reset => Run(c.(connectionUptime := 0), events[1..])
  }

  /** The time of the last reading, and the seconds counted at the last reset. */
  ghost function EndTime(t: nat, events: seq<Event>): nat
    decreases |events|
  {
    if events == [] then t else EndTime(if events[0].At? then events[0].time else t, events[1..])
  }

  ghost function LastReset(t: nat, since: nat, events: seq<Event>): nat
    decreases |events|
  {
    if events == [] then since
    else if events[0].At? then LastReset(events[0].time, since, events[1..])
    else LastReset(t, t / 1000, events[1..])
  }

  /** Conservation of time: over every timely run the device counter is the true time in seconds and
      the connection counter the seconds ticked since the last reset, both modulo 2^32. */
  lemma {:induction false} RunExact(c: Clock, t: nat, since: nat, events: seq<Event>)
    requires Exact(c, t, since) && Timely(t, events)
    ensures Exact(Run(c, events), EndTime(t, events), LastReset(t, since, events))
    decreases |events|
  {
    if events != [] {
      match events[0]
      case At(t') =>
        TickExact(c, t, since, t');
        RunExact(Tick(c, t' % U32_MODULUS), t', since, events[1..]);
      case Reset =>
        RunExact(c.(connectionUptime := 0), t, t / 1000, events[1..]);
    }
  }
}

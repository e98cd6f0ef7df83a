/** Interval arithmetic (src/hw/timers.rs, `PeriodicSync` of src/hw/ble.rs) and the connection anchor
    (the top of `Conn::event` in src/hw/conn.rs): fractional ticks are carried, so schedules never drift. */
module Timing {
  import opened Wrappers
  import opened Octets

  const DENOM: nat := 32
  const WORD: nat := 0x1_0000_0000
  const COUNTER: nat := 0x1_0000

  /** Thirty-seconds of a tick in a 0.625 ms unit and in a 1.25 ms unit. */
  const UNIT_625: nat := 625
  const UNIT_1250: nat := 1250

  class IntervalAccum {
    const whole: nat
    const fracPart: nat
    var frac: nat

    /** Thirty-seconds of a tick per unit. */
    ghost function Weight(): nat { DENOM * whole + fracPart }

    ghost predicate Valid()
      reads this
    {
      frac < DENOM && whole <= 39 && fracPart < DENOM
    }

    constructor New()
      ensures Valid() && frac == 0 && Weight() == UNIT_625
    {
      whole, fracPart, frac := 625 / 32, 625 % 32, 0;
    }

    constructor New125ms()
      ensures Valid() && frac == 0 && Weight() == UNIT_1250
    {
      whole, fracPart, frac := 39, 2, 0;
    }

    /** The ticks and the fraction kept are worth exactly the units and the fraction before; nothing
        overflows 32 bits. */
    method Next(units: u16) returns (ticks: nat)
      requires Valid()
      modifies this
      ensures Valid() && DENOM * ticks + frac == Weight() * units + old(frac)
      ensures ticks == Ticks(Weight(), old(frac), units) && frac == Fraction(Weight(), old(frac), units)
      ensures ticks < WORD
    {
      var base := units * whole;
      Product(units, whole, 39);
      Product(units, fracPart, 31);
      assert base < WORD && frac + units * fracPart < WORD;
      frac := frac + units * fracPart;
      var carry := frac / DENOM;
      frac := frac % DENOM;
      ticks := base + carry;
      Distribute(whole, fracPart, units);
      Unique(ticks, frac, Weight() * units + old(frac));
    }
  }

  lemma Product(a: u16, b: nat, limit: nat)
    requires b <= limit
    ensures a * b <= 0xFFFF * limit
  {}

  lemma Distribute(whole: nat, part: nat, units: nat)
    ensures (DENOM * whole + part) * units == DENOM * (units * whole) + units * part
  {}

  lemma Unique(q: nat, r: nat, total: nat)
    requires total == DENOM * q + r && r < DENOM
    ensures q == total / DENOM && r == total % DENOM
  {}

  class PeriodicSync {
    var units: u16
    var frac: nat
    var nextEvent: nat

    constructor (units: u16)
      ensures this.units == units && frac == 0 && nextEvent == 0
    {
      this.units, frac, nextEvent := units, 0, 0;
    }

    /** Step for step the same ticks and fraction as an accumulator for 1.25 ms units. */
    method NextInterval() returns (ticks: nat)
      requires frac < DENOM
      modifies this`frac
      ensures frac < DENOM && DENOM * ticks + frac == UNIT_1250 * units + old(frac)
      ensures ticks == Ticks(UNIT_1250, old(frac), units) && frac == Fraction(UNIT_1250, old(frac), units)
    {
      var base := units * 39;
      frac := frac + units * 2;
      var carry := frac / DENOM;
      frac := frac % DENOM;
      ticks := base + carry;
      Unique(ticks, frac, UNIT_1250 * units + old(frac));
    }

    /** How callers schedule the next event. */
    method Advance()
      requires frac < DENOM
      modifies this`frac, this`nextEvent
      ensures frac < DENOM && nextEvent == (old(nextEvent) + Ticks(UNIT_1250, old(frac), units)) % WORD
      ensures frac == Fraction(UNIT_1250, old(frac), units)
    {
      var ticks := NextInterval();
      nextEvent := (nextEvent + ticks) % WORD;
    }
  }

  // ---------- Whole schedules ----------

  function Ticks(weight: nat, frac: nat, units: nat): nat { (weight * units + frac) / DENOM }

  function Fraction(weight: nat, frac: nat, units: nat): nat { (weight * units + frac) % DENOM }

  function Sum(us: seq<nat>): nat
    decreases |us|
  {
    if us == [] then 0 else Sum(us[..|us| - 1]) + us[|us| - 1]
  }

  /** The fraction kept after a sequence of intervals from a fresh accumulator. */
  function FracAfter(weight: nat, us: seq<nat>): nat
    decreases |us|
  {
    if us == [] then 0 else Fraction(weight, FracAfter(weight, us[..|us| - 1]), us[|us| - 1])
  }

  function TotalTicks(weight: nat, us: seq<nat>): nat
    decreases |us|
  {
    if us == [] then 0
    else TotalTicks(weight, us[..|us| - 1]) + Ticks(weight, FracAfter(weight, us[..|us| - 1]), us[|us| - 1])
  }

  lemma Carry(weight: nat, frac: nat, units: nat)
    ensures DENOM * Ticks(weight, frac, units) + Fraction(weight, frac, units) == weight * units + frac
  {}

  /** Over any sequence of intervals the ticks handed out are the exact total, rounded down once. */
  lemma {:induction false} ScheduleExact(weight: nat, us: seq<nat>)
    ensures TotalTicks(weight, us) == weight * Sum(us) / DENOM
    ensures FracAfter(weight, us) == weight * Sum(us) % DENOM
    decreases |us|
  {
    hide Ticks, Fraction;
    if us == [] {
      assert weight * Sum(us) == 0;
    } else {
      var n := |us| - 1;
      ScheduleExact(weight, us[..n]);
      Carry(weight, FracAfter(weight, us[..n]), us[n]);
      assert weight * Sum(us) == weight * Sum(us[..n]) + weight * us[n];
      FractionSmall(weight, FracAfter(weight, us[..n]), us[n]);
      Unique(TotalTicks(weight, us), FracAfter(weight, us), weight * Sum(us));
    }
  }

  lemma FractionSmall(weight: nat, frac: nat, units: nat)
    ensures Fraction(weight, frac, units) < DENOM
  {}

  /** In ticks of 32 microseconds: 625 thirty-seconds to a unit of 0.625 ms and 1250 to one of 1.25 ms. */
  lemma SchedulesInTicks(us: seq<nat>)
    ensures TotalTicks(UNIT_625, us) == 625 * Sum(us) / 32 && TotalTicks(UNIT_1250, us) == 1250 * Sum(us) / 32
  {
    ScheduleExact(UNIT_625, us);
    ScheduleExact(UNIT_1250, us);
  }

  // ---------- The connection anchor ----------

  /** The timing state of a connection; `pending` is an update with its new interval. */
  datatype Sched = Sched(counter: nat, interval: u16, frac: nat, anchor: nat, pending: Option<u16>, instant: nat)

  /** One connection event. The pending update is not cleared when it is applied. */
  function EventStep(s: Sched): Sched {
    var counter := (s.counter + 1) % COUNTER;
    var due := s.pending.Some? && counter == s.instant;
    var interval := if due then s.pending.value else s.interval;
    var frac := if due then 0 else s.frac;
    Sched(counter, interval, Fraction(UNIT_1250, frac, interval), (s.anchor + Ticks(UNIT_1250, frac, interval)) % WORD,
          s.pending, s.instant)
  }

  function Events(s: Sched, n: nat): Sched
    decreases n
  {
    if n == 0 then s else EventStep(Events(s, n - 1))
  }

  class ConnTiming {
    var eventCounter: nat
    var interval: u16
    var accum: IntervalAccum
    var anchor: nat
    var pendingUpdate: Option<u16>
    var pendingUpdateInstant: nat

    ghost predicate Valid()
      reads this, accum
    {
      accum.Valid() && accum.Weight() == UNIT_1250
    }

    ghost function State(): Sched
      reads this, accum
    {
      Sched(eventCounter, interval, accum.frac, anchor, pendingUpdate, pendingUpdateInstant)
    }

    constructor (interval: u16, anchor: nat)
      ensures Valid() && State() == Sched(0, interval, 0, anchor, None, 0) && fresh(accum)
    {
      eventCounter, this.interval, this.anchor := 0, interval, anchor;
      pendingUpdate, pendingUpdateInstant := None, 0;
      accum := new IntervalAccum.New125ms();
    }

    method Event()
      requires Valid()
      modifies this, accum
      ensures Valid() && State() == EventStep(old(State())) && (accum == old(accum) || fresh(accum))
    {
      eventCounter := (eventCounter + 1) % COUNTER;
      if pendingUpdate.Some? && eventCounter == pendingUpdateInstant {
        interval := pendingUpdate.value;
        accum := new IntervalAccum.New125ms();
      }
      var ticks := accum.Next(interval);
      anchor := (anchor + ticks) % WORD;
    }
  }

  /** The exact position of the `n`-th anchor, `frac` thirty-seconds in. */
  function Exact(s: Sched, n: nat): nat { UNIT_1250 * (n * s.interval) + s.frac }

  lemma ExactStep(s: Sched, n: nat)
    requires n > 0
    ensures Exact(s, n) == Exact(s, n - 1) + UNIT_1250 * s.interval
  {
    assert n * s.interval == (n - 1) * s.interval + s.interval;
  }

  lemma StepExact(s: Sched, t: Sched, n: nat)
    requires n > 0 && s.frac < DENOM
    requires t.interval == s.interval && t.frac == Exact(s, n - 1) % DENOM && t.anchor == (s.anchor + Exact(s, n - 1) / DENOM) % WORD
    ensures Fraction(UNIT_1250, t.frac, t.interval) == Exact(s, n) % DENOM
    ensures (t.anchor + Ticks(UNIT_1250, t.frac, t.interval)) % WORD == (s.anchor + Exact(s, n) / DENOM) % WORD
  {
    hide Exact, Ticks, Fraction;
    var before, after := Exact(s, n - 1), Exact(s, n);
    ExactStep(s, n);
    Carry(UNIT_1250, t.frac, t.interval);
    FractionSmall(UNIT_1250, t.frac, t.interval);
    var ticks := Ticks(UNIT_1250, t.frac, t.interval);
    Unique(before / DENOM + ticks, Fraction(UNIT_1250, t.frac, t.interval), after);
    ModAdd(s.anchor + before / DENOM, ticks, WORD);
  }

  lemma ExactZero(s: Sched)
    requires s.frac < DENOM
    ensures Exact(s, 0) / DENOM == 0 && Exact(s, 0) % DENOM == s.frac
  {}

  /** `t` is where an undisturbed schedule from `s` stands after `n` events. */
  predicate OnSchedule(s: Sched, t: Sched, n: nat) {
    && t.anchor == (s.anchor + Exact(s, n) / DENOM) % WORD && t.frac == Exact(s, n) % DENOM
    && t.interval == s.interval && t.pending == s.pending && t.instant == s.instant
    && t.counter == CounterAt(s, n)
  }

  /** The event counter after `n` events. */
  function CounterAt(s: Sched, n: nat): nat { (s.counter + n) % COUNTER }

  /** The next event applies the pending update. */
  predicate Due(s: Sched) { s.pending.Some? && CounterAt(s, 1) == s.instant }

  lemma StartOnSchedule(s: Sched)
    requires s.frac < DENOM && s.anchor < WORD && s.counter < COUNTER
    ensures OnSchedule(s, s, 0)
  {
    hide Exact;
    ExactZero(s);
  }

  lemma OnScheduleBounds(s: Sched, t: Sched, n: nat)
    requires OnSchedule(s, t, n)
    ensures t.anchor < WORD && t.counter < COUNTER
  {
    hide Exact;
  }

  lemma CounterStep(s: Sched, t: Sched, n: nat)
    requires n > 0 && t.counter == CounterAt(s, n - 1)
    ensures CounterAt(t, 1) == CounterAt(s, n)
  {}

  lemma StepCounter(t: Sched)
    ensures EventStep(t).counter == CounterAt(t, 1)
  {}

  /** An event keeps the schedule if no update falls due or the one that does changes nothing. */
  lemma EventOnSchedule(s: Sched, t: Sched, n: nat)
    requires n > 0 && s.frac < DENOM && OnSchedule(s, t, n - 1)
    requires Due(t) ==> t.pending == Some(t.interval) && t.frac == 0
    ensures OnSchedule(s, EventStep(t), n)
  {
    hide Exact, Ticks, Fraction, CounterAt;
    StepExact(s, t, n);
    CounterStep(s, t, n);
    StepCounter(t);
  }

  /** No update falls due within `n` events. */
  ghost predicate NotDue(s: Sched, n: nat) {
    s.pending.Some? ==> forall j :: 1 <= j <= n ==> CounterAt(s, j) != s.instant
  }

  /** While no update falls due the anchor after `n` events is the start plus the exact interval sum,
      rounded down once, modulo 2^32. */
  lemma {:induction false} AnchorExact(s: Sched, n: nat)
    requires s.frac < DENOM && s.anchor < WORD && s.counter < COUNTER && NotDue(s, n)
    ensures OnSchedule(s, Events(s, n), n)
    decreases n
  {
    hide EventStep, Exact, CounterAt;
    if n == 0 {
      StartOnSchedule(s);
    } else {
      AnchorExact(s, n - 1);
      CounterStep(s, Events(s, n - 1), n);
      EventOnSchedule(s, Events(s, n - 1), n);
    }
  }

  /** The same in numbers: 32-bit anchors and a 16-bit event counter. */
  lemma AnchorInTicks(s: Sched, n: nat)
    requires s.frac < 32 && s.anchor < 0x1_0000_0000 && s.counter < 0x1_0000 && NotDue(s, n)
    ensures var t := Events(s, n);
            && t.anchor == (s.anchor + (1250 * (n * s.interval) + s.frac) / 32) % 0x1_0000_0000
            && t.counter == (s.counter + n) % 0x1_0000
  {
    hide Events, NotDue;
    AnchorExact(s, n);
  }

  /** An update that has been applied: it stays pending and is applied again each time the 16-bit event
      counter comes round, when 65536 intervals make a whole number of ticks. So the reset of the
      fraction changes nothing and the anchor stays exact for ever. */
  lemma {:induction false} AppliedUpdateStaysExact(s: Sched, n: nat)
    requires s.pending == Some(s.interval) && s.frac == 0 && s.anchor < WORD && s.counter < COUNTER
    requires s.instant == CounterAt(s, 1)
    ensures OnSchedule(s, Events(s, n), n)
    decreases n
  {
    hide EventStep, Exact, CounterAt;
    if n == 0 {
      StartOnSchedule(s);
    } else {
      AppliedUpdateStaysExact(s, n - 1);
      ReappliedWhole(s, Events(s, n - 1), n);
      EventOnSchedule(s, Events(s, n - 1), n);
    }
  }

  /** When the update falls due again no fraction is left. */
  lemma ReappliedWhole(s: Sched, t: Sched, n: nat)
    requires n > 0 && s.frac == 0 && s.counter < COUNTER && s.instant == CounterAt(s, 1)
    requires OnSchedule(s, t, n - 1)
    ensures Due(t) ==> t.frac == 0
  {
    hide Exact, CounterAt;
    CounterStep(s, t, n);
    if Due(t) {
      CounterRound(s, n);
      WholeRound(s, n - 1);
    }
  }

  lemma CounterRound(s: Sched, n: nat)
    requires n > 0 && CounterAt(s, n) == CounterAt(s, 1)
    ensures (n - 1) % COUNTER == 0
  {
    var q := (s.counter + n) / COUNTER - (s.counter + 1) / COUNTER;
    assert n - 1 == COUNTER * q;
  }

  lemma WholeRound(s: Sched, n: nat)
    requires n % COUNTER == 0 && s.frac == 0
    ensures Exact(s, n) % DENOM == 0
  {
    var k := n / COUNTER;
    assert n == COUNTER * k;
    assert n * s.interval == COUNTER * (k * s.interval);
    assert Exact(s, n) == DENOM * (2_560_000 * (k * s.interval));
  }

  /** `n` intervals of `interval` units, rounded down once. */
  function IntervalTicks(n: nat, interval: u16): nat { UNIT_1250 * (n * interval) / DENOM }

  /** From the event at which an update falls due: the new interval counts from that event on, the
      fraction left by the old one is dropped, and the schedule never drifts again. */
  lemma UpdatedScheduleExact(s: Sched, n: nat)
    requires Due(s) && s.anchor < WORD && s.counter < COUNTER && n > 0
    ensures var i := s.pending.value; var t := Events(s, n);
            t.interval == i && t.anchor == (s.anchor + IntervalTicks(n, i)) % WORD
  {
    hide Events, CounterAt, EventStep, Exact, IntervalTicks;
    AppliedCounts(s, n);
    SameFromFirstEvent(s, Applied(s), n);
    AppliedUpdateStaysExact(Applied(s), n);
  }

  /** `s` with its pending update already in force. */
  function Applied(s: Sched): Sched
    requires s.pending.Some?
  {
    s.(interval := s.pending.value, frac := 0)
  }

  lemma AppliedCounts(s: Sched, n: nat)
    requires Due(s)
    ensures EventStep(s) == EventStep(Applied(s)) && CounterAt(Applied(s), 1) == s.instant
    ensures Exact(Applied(s), n) / DENOM == IntervalTicks(n, s.pending.value)
  {
    hide Ticks, Fraction;
  }

  lemma {:induction false} SameFromFirstEvent(s: Sched, t: Sched, n: nat)
    requires EventStep(s) == EventStep(t) && n > 0
    ensures Events(s, n) == Events(t, n)
    decreases n
  {
    hide EventStep;
    if n == 1 {
      assert Events(s, 0) == s && Events(t, 0) == t;
    } else {
      SameFromFirstEvent(s, t, n - 1);
    }
  }

  /** How many events pass before the one that applies the pending update. */
  function Wait(s: Sched): nat
    requires s.counter < COUNTER
  {
    (s.instant + COUNTER - 1 - s.counter) % COUNTER
  }

  lemma WaitEndsDue(s: Sched, t: Sched)
    requires s.pending.Some? && s.counter < COUNTER && s.instant < COUNTER && OnSchedule(s, t, Wait(s))
    ensures Due(t)
  {
    hide Exact;
  }

  lemma WaitNotDue(s: Sched, n: nat)
    requires s.counter < COUNTER && s.instant < COUNTER && n <= Wait(s)
    ensures NotDue(s, n)
  {}

  lemma {:induction false} EventsAdd(s: Sched, m: nat, n: nat)
    ensures Events(s, m + n) == Events(Events(s, m), n)
    decreases n
  {
    hide EventStep;
    if n > 0 {
      EventsAdd(s, m, n - 1);
    }
  }

  /** From any state with an update pending, over any number of events: up to the instant the anchors are
      exact in the old interval, from the instant on they are exact in the new one, and the only thing
      ever dropped is the fraction of a tick left at the instant. */
  lemma ScheduleThroughUpdate(s: Sched, n: nat)
    requires s.pending.Some? && s.frac < DENOM && s.anchor < WORD && s.counter < COUNTER && s.instant < COUNTER
    ensures var w := Wait(s); var i := s.pending.value; var t := Events(s, n);
            if n <= w then t.interval == s.interval && t.anchor == (s.anchor + Exact(s, n) / DENOM) % WORD
            else t.interval == i && t.anchor == (s.anchor + Exact(s, w) / DENOM + IntervalTicks(n - w, i)) % WORD
  {
    hide Exact, Events, Wait, NotDue, Due, IntervalTicks, CounterAt;
    var w := Wait(s);
    if n <= w {
      WaitNotDue(s, n);
      AnchorExact(s, n);
    } else {
      WaitNotDue(s, w);
      AnchorExact(s, w);
      var d := Events(s, w);
      WaitEndsDue(s, d);
      OnScheduleBounds(s, d, w);
      EventsAdd(s, w, n - w);
      UpdatedScheduleExact(d, n - w);
      ModAdd(s.anchor + Exact(s, w) / DENOM, IntervalTicks(n - w, s.pending.value), WORD);
    }
  }
}

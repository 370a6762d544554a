/**
 * The two forecasters. The fixed-clock forecaster lays the same morning and
 * evening times of day over consecutive local days; the two flavours of the
 * library differ only in how they halve the daylight. The solar forecaster
 * asks a sun-event oracle about each day and fails as a whole if any day
 * lacks an event.
 */
module Forecasts {
  import opened Wrappers
  import opened Time
  import opened Transitions
  import opened Cycles
  import opened Schedules

  /** Default arguments of the fixed-clock forecast: 06:00, 18:00, 30 minutes, 7 cycles. */
  const DefaultMorning: TimeOfDay := 6 * 3600
  const DefaultEvening: TimeOfDay := 18 * 3600
  const DefaultDurationMs: int := 30 * 60 * 1000
  const DefaultCycleCount: int := 7

  /** QTime::secsTo. */
  function SecsBetween(from: TimeOfDay, to: TimeOfDay): int
  {
    to - from
  }

  /**
   * The length of daylight from `morning` to `evening`, going past midnight
   * when the evening is not after the morning.
   */
  function DaylightSeconds(morning: TimeOfDay, evening: TimeOfDay): (d: int)
    ensures 0 < d <= DaySecs
    ensures (morning + d) % DaySecs == evening
  {
    if morning < evening then SecsBetween(morning, evening)
    else DaySecs - SecsBetween(evening, morning)
  }

  /** Half of the daylight, in seconds, as each flavour computes it. */
  function HalfDaylight(f: Flavour, morning: TimeOfDay, evening: TimeOfDay): (half: int)
    ensures f == DarkLight ==>
              0 <= 2 * half <= DaylightSeconds(morning, evening) < 2 * half + 2
    ensures f == NightTime && morning <= evening ==>
              0 <= 2 * half <= evening - morning < 2 * half + 2
    ensures f == NightTime && evening < morning ==>
              2 * half - 2 < evening - morning <= 2 * half <= 0
  {
    match f
    case DarkLight => DaylightSeconds(morning, evening) / 2
    case NightTime => TruncDiv(SecsBetween(morning, evening), 2)
  }

  /** The time of day of noon: the morning plus half the daylight, wrapped. */
  function NoonTime(f: Flavour, morning: TimeOfDay, evening: TimeOfDay): TimeOfDay
  {
    AddSecs(morning, HalfDaylight(f, morning, evening))
  }

  /** The cycle the fixed-clock forecast builds for `day` days after the reference's local date. */
  function ClockCycle(f: Flavour, ref: int, off: int, morning: TimeOfDay, evening: TimeOfDay,
                      durationMs: int, day: int): (c: Cycle)
    ensures LocalDay(c.noon, off) == LocalDay(ref, off) + day
    ensures LocalTimeOfDay(c.noon, off) == NoonTime(f, morning, evening) * SecMs
    ensures c.noon - c.morning.start == c.evening.start - c.noon == HalfDaylight(f, morning, evening) * SecMs
    ensures c.morning.end - c.morning.start == c.evening.end - c.evening.start == durationMs
    ensures Labelled(c)
  {
    var half := HalfDaylight(f, morning, evening);
    var noon := LocalInstant(LocalDay(ref, off) + day, NoonTime(f, morning, evening) * SecMs, off);
    var morningStart := noon - half * SecMs;
    var eveningStart := noon + half * SecMs;
    Cycle(noon,
          Transition(Morning, morningStart, morningStart + durationMs),
          Transition(Evening, eveningStart, eveningStart + durationMs))
  }

  /** How many cycles a loop over days -1 .. cycleCount - 1 produces. */
  function CycleTotal(cycleCount: int): (n: nat)
    ensures cycleCount >= -1 ==> n == cycleCount + 1
    ensures cycleCount < -1 ==> n == 0
  {
    if cycleCount < -1 then 0 else cycleCount + 1
  }

  /** The cycles of the fixed-clock forecast, one for each day from -1 to cycleCount - 1. */
  function ClockCycles(f: Flavour, ref: int, off: int, morning: TimeOfDay, evening: TimeOfDay,
                       durationMs: int, cycleCount: int): (cs: seq<Cycle>)
    ensures |cs| == CycleTotal(cycleCount)
  {
    seq(CycleTotal(cycleCount), i => ClockCycle(f, ref, off, morning, evening, durationMs, i - 1))
  }

  /** `forecast(dateTime, morning, evening, transitionDuration, cycleCount)` */
  method ClockForecast(f: Flavour, ref: int, off: int, morning: TimeOfDay, evening: TimeOfDay,
                       durationMs: int, cycleCount: int) returns (s: Schedule)
    ensures s.cycles == ClockCycles(f, ref, off, morning, evening, durationMs, cycleCount)
  {
    var half := HalfDaylight(f, morning, evening);
    var noonTime := AddSecs(morning, half);
    var localDay := LocalDay(ref, off);
    var cycles: seq<Cycle> := [];
    var day := -1;
    while day < cycleCount
      invariant -1 <= day && (day <= cycleCount || day == -1)
      invariant |cycles| == day + 1
      invariant forall i | 0 <= i < |cycles| :: cycles[i] == ClockCycle(f, ref, off, morning, evening, durationMs, i - 1)
    {
      var noon := LocalInstant(localDay + day, noonTime * SecMs, off);
      var startOfMorning := noon - half * SecMs;
      var startOfEvening := noon + half * SecMs;
      cycles := cycles + [Cycle(noon,
                                Transition(Morning, startOfMorning, startOfMorning + durationMs),
                                Transition(Evening, startOfEvening, startOfEvening + durationMs))];
      day := day + 1;
    }
    assert |cycles| == CycleTotal(cycleCount);
    assert forall i | 0 <= i < |cycles| ::
      cycles[i] == ClockCycles(f, ref, off, morning, evening, durationMs, cycleCount)[i];
    s := Schedule(cycles);
  }

  /** Consecutive forecast noons are exactly one day apart, so the cycles ascend. */
  lemma ClockNoonsAscend(f: Flavour, ref: int, off: int, morning: TimeOfDay, evening: TimeOfDay,
                         durationMs: int, cycleCount: int, i: int)
    requires 0 <= i < CycleTotal(cycleCount) - 1
    ensures var cs := ClockCycles(f, ref, off, morning, evening, durationMs, cycleCount);
            cs[i + 1].noon == cs[i].noon + DayMs && cs[i].noon < cs[i + 1].noon
  {
  }

  /** Whatever the flavour, a forecast morning starts at the morning time of day. */
  lemma MorningStartsAtMorning(f: Flavour, ref: int, off: int, morning: TimeOfDay, evening: TimeOfDay,
                               durationMs: int, day: int)
    ensures LocalTimeOfDay(ClockCycle(f, ref, off, morning, evening, durationMs, day).morning.start, off) == morning * SecMs
  {
    var c := ClockCycle(f, ref, off, morning, evening, durationMs, day);
    var half := HalfDaylight(f, morning, evening);
    var n := NoonTime(f, morning, evening);
    var k := (morning + half) / DaySecs;
    assert n == morning + half - k * DaySecs;
    LocalDayShift(c.noon, -half * SecMs, off);
    assert n * SecMs - half * SecMs == -k * DayMs + morning * SecMs;
    ShiftByDays(-k, morning * SecMs);
  }

  /**
   * A forecast evening starts at the evening time of day, one second early
   * when the daylight lasts an odd number of seconds (its half is truncated).
   * This holds for the dark-light flavour always and for the night-time
   * flavour when the evening is after the morning.
   */
  lemma EveningStartsAtEvening(f: Flavour, ref: int, off: int, morning: TimeOfDay, evening: TimeOfDay,
                               durationMs: int, day: int)
    requires f == DarkLight || morning < evening
    ensures var d := DaylightSeconds(morning, evening);
            LocalTimeOfDay(ClockCycle(f, ref, off, morning, evening, durationMs, day).evening.start, off)
              == ((evening - d % 2) % DaySecs) * SecMs
  {
    var c := ClockCycle(f, ref, off, morning, evening, durationMs, day);
    var d := DaylightSeconds(morning, evening);
    var half := HalfDaylight(f, morning, evening);
    assert 2 * half == d - d % 2;
    var n := NoonTime(f, morning, evening);
    var k := (morning + half) / DaySecs;
    var j := (morning + d) / DaySecs;
    assert n == morning + half - k * DaySecs;
    assert morning + d == evening + j * DaySecs;
    LocalDayShift(c.noon, half * SecMs, off);
    assert n * SecMs + half * SecMs == (j - k) * DayMs + (evening - d % 2) * SecMs;
    ShiftByDays(j - k, (evening - d % 2) * SecMs);
    ModScale(evening - d % 2);
  }

  /** Scaling a time of day in seconds to milliseconds commutes with wrapping. */
  lemma ModScale(x: int)
    ensures (x * SecMs) % DayMs == (x % DaySecs) * SecMs
  {
    var q := x / DaySecs;
    assert x * SecMs == q * DayMs + (x % DaySecs) * SecMs;
    ShiftByDays(q, (x % DaySecs) * SecMs);
  }

  /**
   * In the dark-light flavour, and in the night-time flavour when the evening
   * is after the morning, every forecast cycle starts its morning no
   * later than its evening, and the two starts lie the (even-rounded)
   * daylight apart.
   */
  lemma ClockCycleMorningFirst(f: Flavour, ref: int, off: int, morning: TimeOfDay, evening: TimeOfDay,
                               durationMs: int, day: int)
    requires f == DarkLight || morning < evening
    ensures var c := ClockCycle(f, ref, off, morning, evening, durationMs, day);
            var d := DaylightSeconds(morning, evening);
            MorningFirst(c) && c.evening.start - c.morning.start == (d - d % 2) * SecMs
  {
  }

  /** Both flavours make the same default forecast: eight cycles with noon at 12:00, mornings 06:00-06:30 and evenings 18:00-18:30. */
  lemma DefaultForecast(f: Flavour, ref: int, off: int, i: int)
    requires 0 <= i < 8
    ensures var cs := ClockCycles(f, ref, off, DefaultMorning, DefaultEvening, DefaultDurationMs, DefaultCycleCount);
            |cs| == 8 &&
            cs == ClockCycles(DarkLight, ref, off, DefaultMorning, DefaultEvening, DefaultDurationMs, DefaultCycleCount) &&
            LocalTimeOfDay(cs[i].noon, off) == 12 * 3600 * SecMs &&
            LocalDay(cs[i].noon, off) == LocalDay(ref, off) + i - 1 &&
            cs[i].morning.start == cs[i].noon - 6 * 3600 * SecMs &&
            cs[i].evening.start == cs[i].noon + 6 * 3600 * SecMs &&
            cs[i].morning.end == cs[i].morning.start + 30 * 60 * SecMs
  {
    assert HalfDaylight(f, DefaultMorning, DefaultEvening) == 6 * 3600;
    assert HalfDaylight(DarkLight, DefaultMorning, DefaultEvening) == 6 * 3600;
  }

  /**
   * The night-time flavour halves `morning.secsTo(evening)` without wrapping.
   * For a morning at 22:00 and an evening at 06:00 the half is negative, so a
   * forecast cycle starts its evening (06:00) sixteen hours before its
   * morning (22:00), and at 05:00 the schedule names the 22:00 morning as the
   * next transition although the 06:00 evening comes first.
   */
  lemma NightTimeReversesCycle()
    ensures var cs := ClockCycles(NightTime, DayMs, 0, 22 * 3600, 6 * 3600, DefaultDurationMs, 0);
            var t := 5 * 3600 * SecMs;
            |cs| == 1 && !MorningFirst(cs[0]) &&
            cs[0].morning.start == 22 * 3600 * SecMs && cs[0].evening.start == 6 * 3600 * SecMs &&
            Test(cs[0].evening, t) == Upcoming &&
            Schedules.NextTransition(Schedule(cs), t, 0) == Some(cs[0].morning)
  {
    var cs := ClockCycles(NightTime, DayMs, 0, 22 * 3600, 6 * 3600, DefaultDurationMs, 0);
    assert HalfDaylight(NightTime, 22 * 3600, 6 * 3600) == -8 * 3600;
    assert NoonTime(NightTime, 22 * 3600, 6 * 3600) == 14 * 3600;
    assert cs[0].noon == 14 * 3600 * SecMs;
  }

  /** With the same times the dark-light flavour wraps past midnight and keeps the order. */
  lemma DarkLightKeepsOrder()
    ensures var cs := ClockCycles(DarkLight, DayMs, 0, 22 * 3600, 6 * 3600, DefaultDurationMs, 0);
            var t := 5 * 3600 * SecMs;
            |cs| == 1 && MorningFirst(cs[0]) &&
            cs[0].morning.start == -2 * 3600 * SecMs && cs[0].evening.start == 6 * 3600 * SecMs &&
            Schedules.NextTransition(Schedule(cs), t, 0) == Some(cs[0].evening)
  {
    var cs := ClockCycles(DarkLight, DayMs, 0, 22 * 3600, 6 * 3600, DefaultDurationMs, 0);
    assert HalfDaylight(DarkLight, 22 * 3600, 6 * 3600) == 4 * 3600;
    assert NoonTime(DarkLight, 22 * 3600, 6 * 3600) == 2 * 3600;
    assert cs[0].noon == 2 * 3600 * SecMs;
  }

  // ---------------------------------------------------------------------------
  // The solar forecast.

  /** What the sun-event oracle reports for one day; None stands for an invalid QDateTime. */
  datatype SunEvents = SunEvents(civilDawn: Option<int>, sunrise: Option<int>,
                                 sunset: Option<int>, civilDusk: Option<int>, solarNoon: int)

  predicate EventsValid(e: SunEvents)
  {
    e.civilDawn.Some? && e.sunrise.Some? && e.sunset.Some? && e.civilDusk.Some?
  }

  /** The oracle queried for `day` days after the reference (`dateTime.addDays(day)`). */
  function DayEvents(sun: (int, real, real) -> SunEvents, ref: int, latitude: real, longitude: real, day: int): SunEvents
  {
    sun(ref + day * DayMs, latitude, longitude)
  }

  /** A day's cycle: noon at solar noon, morning from civil dawn to sunrise, evening from sunset to civil dusk. */
  function SolarCycle(e: SunEvents): (c: Cycle)
    requires EventsValid(e)
    ensures Labelled(c) && c.noon == e.solarNoon
    ensures c.morning.start == e.civilDawn.value && c.morning.end == e.sunrise.value
    ensures c.evening.start == e.sunset.value && c.evening.end == e.civilDusk.value
  {
    Cycle(e.solarNoon,
          Transition(Morning, e.civilDawn.value, e.sunrise.value),
          Transition(Evening, e.sunset.value, e.civilDusk.value))
  }

  /** `forecast(dateTime, latitude, longitude, cycleCount)`: all days or nothing. */
  method SolarForecast(sun: (int, real, real) -> SunEvents, ref: int, latitude: real, longitude: real,
                       cycleCount: int) returns (s: Option<Schedule>)
    ensures s.None? <==> exists day | -1 <= day < cycleCount :: !EventsValid(DayEvents(sun, ref, latitude, longitude, day))
    ensures s.Some? ==> |s.value.cycles| == CycleTotal(cycleCount)
    ensures s.Some? ==> forall i | 0 <= i < |s.value.cycles| ::
                          EventsValid(DayEvents(sun, ref, latitude, longitude, i - 1)) &&
                          s.value.cycles[i] == SolarCycle(DayEvents(sun, ref, latitude, longitude, i - 1))
  {
    var cycles: seq<Cycle> := [];
    var day := -1;
    while day < cycleCount
      invariant -1 <= day && (day <= cycleCount || day == -1)
      invariant |cycles| == day + 1
      invariant forall d | -1 <= d < day :: EventsValid(DayEvents(sun, ref, latitude, longitude, d))
      invariant forall i | 0 <= i < |cycles| ::
                  EventsValid(DayEvents(sun, ref, latitude, longitude, i - 1)) &&
                  cycles[i] == SolarCycle(DayEvents(sun, ref, latitude, longitude, i - 1))
    {
      var events := sun(ref + day * DayMs, latitude, longitude);
      if events.civilDawn.None? || events.sunrise.None? || events.civilDusk.None? || events.sunset.None? {
        assert !EventsValid(DayEvents(sun, ref, latitude, longitude, day));
        return None;
      }
      cycles := cycles + [Cycle(events.solarNoon,
                                Transition(Morning, events.civilDawn.value, events.sunrise.value),
                                Transition(Evening, events.sunset.value, events.civilDusk.value))];
      day := day + 1;
    }
    assert |cycles| == CycleTotal(cycleCount);
    s := Some(Schedule(cycles));
  }
}

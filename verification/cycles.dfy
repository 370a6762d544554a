/**
 * A cycle: one day's morning and evening transitions anchored to a noon,
 * KDarkLightCycle / KNightTimeCycle.
 */
module Cycles {
  import opened Wrappers
  import opened Time
  import opened Transitions

  /** Equality is structural (noon, morning, evening), like the defaulted comparison. */
  datatype Cycle = Cycle(noon: int, morning: Transition, evening: Transition)

  /** The morning starts no later than the evening (part of the documented cycle invariant). */
  predicate MorningFirst(c: Cycle)
  {
    c.morning.start <= c.evening.start
  }

  /** Both transitions are labelled as a cycle built by the library labels them. */
  predicate Labelled(c: Cycle)
  {
    c.morning.kind == Morning && c.evening.kind == Evening
  }

  /**
   * The cycle re-anchored onto the local date of `ref`: the new noon keeps the
   * old noon's local time of day, and every transition endpoint keeps its exact
   * millisecond offset from the noon. The transitions are labelled Morning and
   * Evening whatever they were.
   */
  function Extrapolated(c: Cycle, ref: int, off: int): (x: Cycle)
    ensures LocalDay(x.noon, off) == LocalDay(ref, off)
    ensures LocalTimeOfDay(x.noon, off) == LocalTimeOfDay(c.noon, off)
    ensures x.morning.start - x.noon == c.morning.start - c.noon
    ensures x.morning.end - x.noon == c.morning.end - c.noon
    ensures x.evening.start - x.noon == c.evening.start - c.noon
    ensures x.evening.end - x.noon == c.evening.end - c.noon
    ensures Labelled(x)
  {
    var noon := LocalInstant(LocalDay(ref, off), LocalTimeOfDay(c.noon, off), off);
    Cycle(noon,
          Transition(Morning, noon - (c.noon - c.morning.start), noon - (c.noon - c.morning.end)),
          Transition(Evening, noon - (c.noon - c.evening.start), noon - (c.noon - c.evening.end)))
  }

  /** Extrapolating a labelled cycle onto its own local date gives the cycle back. */
  lemma ExtrapolatedOntoOwnDay(c: Cycle, ref: int, off: int)
    requires Labelled(c)
    requires LocalDay(ref, off) == LocalDay(c.noon, off)
    ensures Extrapolated(c, ref, off) == c
  {
    LocalInstantOf(c.noon, off);
  }

  /** Extrapolation depends only on the cycle's pattern: extrapolating twice is extrapolating once. */
  lemma ExtrapolatedTwice(c: Cycle, r1: int, r2: int, off: int)
    ensures Extrapolated(Extrapolated(c, r1, off), r2, off) == Extrapolated(c, r2, off)
  {
  }

  /** Extrapolation moves the noon by whole days: as many as separate the two local dates. */
  lemma ExtrapolatedShift(c: Cycle, ref: int, off: int)
    ensures Extrapolated(c, ref, off).noon == c.noon + (LocalDay(ref, off) - LocalDay(c.noon, off)) * DayMs
  {
    LocalInstantOf(c.noon, off);
  }

  /** Extrapolating onto the day before moves every instant back by exactly one day. */
  lemma ExtrapolatedDayBefore(c: Cycle, ref: int, off: int)
    ensures Extrapolated(c, ref - DayMs, off).noon == Extrapolated(c, ref, off).noon - DayMs
    ensures Extrapolated(c, ref - DayMs, off).evening
            == var e := Extrapolated(c, ref, off).evening; Transition(e.kind, e.start - DayMs, e.end - DayMs)
  {
    LocalDayShift(ref, -DayMs, off);
  }

  /** Extrapolating onto the day after moves every instant forward by exactly one day. */
  lemma ExtrapolatedDayAfter(c: Cycle, ref: int, off: int)
    ensures Extrapolated(c, ref + DayMs, off).noon == Extrapolated(c, ref, off).noon + DayMs
    ensures Extrapolated(c, ref + DayMs, off).morning
            == var m := Extrapolated(c, ref, off).morning; Transition(m.kind, m.start + DayMs, m.end + DayMs)
  {
    LocalDayShift(ref, DayMs, off);
  }

  /** An endpoint that lies on the noon's local date still does so after extrapolation. */
  lemma ExtrapolatedKeepsDay(c: Cycle, x: Cycle, ref: int, off: int, was: int, now: int)
    requires x == Extrapolated(c, ref, off)
    requires now - x.noon == was - c.noon
    requires LocalDay(was, off) == LocalDay(c.noon, off)
    ensures LocalDay(now, off) == LocalDay(ref, off)
  {
    LocalDayShift(c.noon, was - c.noon, off);
    LocalDayShift(x.noon, now - x.noon, off);
  }

  /**
   * The next transition of this day: the morning if it is upcoming, else the
   * evening if it is upcoming, else none.
   */
  function NextTransition(c: Cycle, t: int): (r: Option<Transition>)
    ensures r.Some? ==> Test(r.value, t) == Upcoming && (r.value == c.morning || r.value == c.evening)
    ensures Test(c.morning, t) == Upcoming ==> r == Some(c.morning)
    ensures Test(c.morning, t) != Upcoming && Test(c.evening, t) == Upcoming ==> r == Some(c.evening)
    ensures r.None? <==> Test(c.morning, t) != Upcoming && Test(c.evening, t) != Upcoming
  {
    match Test(c.morning, t)
    case Upcoming => Some(c.morning)
    case InProgress | Passed =>
      match Test(c.evening, t)
      case Upcoming => Some(c.evening)
      case InProgress | Passed => None
  }

  /**
   * The previous transition of this day: the evening unless it is upcoming,
   * else the morning unless it is upcoming, else none.
   */
  function PreviousTransition(c: Cycle, t: int): (r: Option<Transition>)
    ensures r.Some? ==> Test(r.value, t) != Upcoming && (r.value == c.morning || r.value == c.evening)
    ensures Test(c.evening, t) != Upcoming ==> r == Some(c.evening)
    ensures Test(c.evening, t) == Upcoming && Test(c.morning, t) != Upcoming ==> r == Some(c.morning)
    ensures r.None? <==> Test(c.morning, t) == Upcoming && Test(c.evening, t) == Upcoming
  {
    match Test(c.evening, t)
    case InProgress | Passed => Some(c.evening)
    case Upcoming =>
      match Test(c.morning, t)
      case InProgress | Passed => Some(c.morning)
      case Upcoming => None
  }

  /**
   * For a cycle whose morning starts first, there is no next transition exactly
   * when the evening is no longer upcoming, and no previous transition exactly
   * when the morning is still upcoming.
   */
  lemma NoneOutsideTheDay(c: Cycle, t: int)
    requires MorningFirst(c)
    ensures NextTransition(c, t).None? <==> Test(c.evening, t) != Upcoming
    ensures PreviousTransition(c, t).None? <==> Test(c.morning, t) == Upcoming
  {
  }

  /**
   * For a cycle whose morning starts first, the previous and the next
   * transition are consecutive: before the morning there is only a next
   * (the morning); between the two starts the morning is previous and the
   * evening next; after the evening there is only a previous (the evening).
   */
  lemma PreviousAndNextAreConsecutive(c: Cycle, t: int)
    requires MorningFirst(c)
    ensures Test(c.morning, t) == Upcoming ==>
              NextTransition(c, t) == Some(c.morning) && PreviousTransition(c, t) == None
    ensures Test(c.morning, t) != Upcoming && Test(c.evening, t) == Upcoming ==>
              NextTransition(c, t) == Some(c.evening) && PreviousTransition(c, t) == Some(c.morning)
    ensures Test(c.evening, t) != Upcoming ==>
              NextTransition(c, t) == None && PreviousTransition(c, t) == Some(c.evening)
  {
  }

  /**
   * For a cycle whose morning starts first, the next transition is the
   * earliest of its upcoming transitions and the previous one the latest of
   * those already begun.
   */
  lemma NextIsEarliestUpcoming(c: Cycle, t: int)
    requires MorningFirst(c)
    ensures NextTransition(c, t).Some? ==>
              forall tr | tr in [c.morning, c.evening] && Test(tr, t) == Upcoming :: NextTransition(c, t).value.start <= tr.start
    ensures PreviousTransition(c, t).Some? ==>
              forall tr | tr in [c.morning, c.evening] && Test(tr, t) != Upcoming :: tr.start <= PreviousTransition(c, t).value.start
  {
  }
}

/**
 * A schedule: the list of cycles, and the previous/next transition queries
 * that search it (KDarkLightSchedule / KNightTimeSchedule).
 */
module Schedules {
  import opened Wrappers
  import opened Time
  import opened Transitions
  import opened Cycles

  /** A schedule with no cycles is the null schedule. Equality compares the cycle lists elementwise. */
  datatype Schedule = Schedule(cycles: seq<Cycle>)

  /**
   * The library comes in two flavours, dark-light and night-time, whose
   * schedule code is the same except for the fixed-clock forecast and the
   * D-Bus name tag.
   */
  datatype Flavour = DarkLight | NightTime

  /** Queries are answered from the closest cycle directly only within this distance. */
  const DirectWindowMs: int := HalfDayMs

  /** |noon - t|, the score of a cycle in the closest-cycle search. */
  function Distance(c: Cycle, t: int): nat
  {
    Abs(c.noon - t)
  }

  /**
   * The result of the closest-cycle scan over `cycles`: (-1, 0) for an empty
   * list, else the lowest index whose noon is nearest to t, with that
   * distance. (The C++ leaves the distance uninitialised for an empty list;
   * it is never read then.)
   */
  function ClosestIn(cycles: seq<Cycle>, t: int): (r: (int, int))
    ensures r.0 == -1 <==> |cycles| == 0
    ensures |cycles| > 0 ==> 0 <= r.0 < |cycles| && r.1 == Distance(cycles[r.0], t)
    ensures forall j :: 0 <= j < |cycles| ==> r.1 <= Distance(cycles[j], t)
    ensures forall j :: 0 <= j < r.0 ==> Distance(cycles[j], t) > r.1
    decreases |cycles|
  {
    if |cycles| == 0 then (-1, 0)
    else
      var last := |cycles| - 1;
      var (bestIndex, bestScore) := ClosestIn(cycles[..last], t);
      var score := Distance(cycles[last], t);
      if bestIndex == -1 || score < bestScore then (last, score) else (bestIndex, bestScore)
  }

  /** The linear scan of closestCycle: the first index wins ties. */
  method ClosestCycle(cycles: seq<Cycle>, t: int) returns (bestIndex: int, bestScore: int)
    ensures (bestIndex, bestScore) == ClosestIn(cycles, t)
    ensures bestIndex == -1 <==> |cycles| == 0
    ensures |cycles| > 0 ==> 0 <= bestIndex < |cycles|
  {
    bestIndex, bestScore := -1, 0;
    var i := 0;
    while i < |cycles|
      invariant 0 <= i <= |cycles|
      invariant (bestIndex, bestScore) == ClosestIn(cycles[..i], t)
    {
      var score := Distance(cycles[i], t);
      if bestIndex == -1 || score < bestScore {
        bestIndex, bestScore := i, score;
      }
      assert cycles[..i + 1][..i] == cycles[..i];
      i := i + 1;
    }
    assert cycles[..|cycles|] == cycles;
  }

  /**
   * The extrapolated answer for "previous": the answer of the closest cycle
   * extrapolated onto the reference date, else the evening of that cycle
   * extrapolated onto the day before.
   */
  function ExtrapolatedPrevious(c: Cycle, ref: int, off: int): (tr: Transition)
    ensures var answer := Cycles.PreviousTransition(Extrapolated(c, ref, off), ref);
            tr == if answer.Some? then answer.value else Extrapolated(c, ref - DayMs, off).evening
  {
    var x := Extrapolated(c, ref, off);
    ExtrapolatedDayBefore(c, ref, off);
    match Cycles.PreviousTransition(x, ref)
    case Some(tr) => tr
    case None => Transition(x.evening.kind, x.evening.start - DayMs, x.evening.end - DayMs)
  }

  /**
   * The extrapolated answer for "next": the answer of the closest cycle
   * extrapolated onto the reference date, else the morning of that cycle
   * extrapolated onto the day after.
   */
  function ExtrapolatedNext(c: Cycle, ref: int, off: int): (tr: Transition)
    ensures var answer := Cycles.NextTransition(Extrapolated(c, ref, off), ref);
            tr == if answer.Some? then answer.value else Extrapolated(c, ref + DayMs, off).morning
  {
    var x := Extrapolated(c, ref, off);
    ExtrapolatedDayAfter(c, ref, off);
    match Cycles.NextTransition(x, ref)
    case Some(tr) => tr
    case None => Transition(x.morning.kind, x.morning.start + DayMs, x.morning.end + DayMs)
  }

  /**
   * The previous transition for `ref`: none for the null schedule; otherwise the
   * closest cycle's answer when its noon is within 12 hours, then the answer of
   * the cycle before it, then the extrapolated answer.
   */
  function PreviousTransition(s: Schedule, ref: int, off: int): (r: Option<Transition>)
    ensures r.None? <==> |s.cycles| == 0
  {
    var (index, diff) := ClosestIn(s.cycles, ref);
    if index == -1 then None
    else
      var cycle := s.cycles[index];
      var direct :=
        if diff <= DirectWindowMs then
          var own := Cycles.PreviousTransition(cycle, ref);
          if own.Some? then own
          else if index > 0 then Cycles.PreviousTransition(s.cycles[index - 1], ref)
          else None
        else None;
      if direct.Some? then direct else Some(ExtrapolatedPrevious(cycle, ref, off))
  }

  /**
   * The next transition for `ref`: none for the null schedule; otherwise the
   * closest cycle's answer when its noon is within 12 hours, then the answer of
   * the cycle after it, then the extrapolated answer.
   */
  function NextTransition(s: Schedule, ref: int, off: int): (r: Option<Transition>)
    ensures r.None? <==> |s.cycles| == 0
  {
    var (index, diff) := ClosestIn(s.cycles, ref);
    if index == -1 then None
    else
      var cycle := s.cycles[index];
      var direct :=
        if diff <= DirectWindowMs then
          var own := Cycles.NextTransition(cycle, ref);
          if own.Some? then own
          else if index + 1 < |s.cycles| then Cycles.NextTransition(s.cycles[index + 1], ref)
          else None
        else None;
      if direct.Some? then direct else Some(ExtrapolatedNext(cycle, ref, off))
  }

  /**
   * Which list cycles the previous-transition query consults: the closest one
   * first when within 12 hours, the one before it only when that fails, and
   * the extrapolated closest cycle otherwise.
   */
  lemma PreviousTiers(s: Schedule, ref: int, off: int)
    requires |s.cycles| > 0
    ensures var (i, d) := ClosestIn(s.cycles, ref);
            var own := Cycles.PreviousTransition(s.cycles[i], ref);
            && (d <= DirectWindowMs && own.Some? ==> PreviousTransition(s, ref, off) == own)
            && (d <= DirectWindowMs && own.None? && i > 0 && Cycles.PreviousTransition(s.cycles[i - 1], ref).Some? ==>
                  PreviousTransition(s, ref, off) == Cycles.PreviousTransition(s.cycles[i - 1], ref))
            && (d <= DirectWindowMs && own.None? && (i == 0 || Cycles.PreviousTransition(s.cycles[i - 1], ref).None?) ==>
                  PreviousTransition(s, ref, off) == Some(ExtrapolatedPrevious(s.cycles[i], ref, off)))
            && (d > DirectWindowMs ==> PreviousTransition(s, ref, off) == Some(ExtrapolatedPrevious(s.cycles[i], ref, off)))
  {
  }

  /**
   * Which list cycles the next-transition query consults: the closest one
   * first when within 12 hours, the one after it only when that fails, and
   * the extrapolated closest cycle otherwise.
   */
  lemma NextTiers(s: Schedule, ref: int, off: int)
    requires |s.cycles| > 0
    ensures var (i, d) := ClosestIn(s.cycles, ref);
            var own := Cycles.NextTransition(s.cycles[i], ref);
            && (d <= DirectWindowMs && own.Some? ==> NextTransition(s, ref, off) == own)
            && (d <= DirectWindowMs && own.None? && i + 1 < |s.cycles| && Cycles.NextTransition(s.cycles[i + 1], ref).Some? ==>
                  NextTransition(s, ref, off) == Cycles.NextTransition(s.cycles[i + 1], ref))
            && (d <= DirectWindowMs && own.None? && (i + 1 == |s.cycles| || Cycles.NextTransition(s.cycles[i + 1], ref).None?) ==>
                  NextTransition(s, ref, off) == Some(ExtrapolatedNext(s.cycles[i], ref, off)))
            && (d > DirectWindowMs ==> NextTransition(s, ref, off) == Some(ExtrapolatedNext(s.cycles[i], ref, off)))
  {
  }

  /** Both transitions of every cycle start on the local date of the cycle's noon. */
  predicate StartsOnNoonDay(s: Schedule, off: int)
  {
    forall c :: c in s.cycles ==>
      LocalDay(c.morning.start, off) == LocalDay(c.noon, off) &&
      LocalDay(c.evening.start, off) == LocalDay(c.noon, off)
  }

  /**
   * When every cycle's transitions start on its noon's date, the previous
   * transition of a non-null schedule has always begun: it never tests
   * Upcoming, the fallback evening of the day before included.
   */
  lemma PreviousHasBegun(s: Schedule, ref: int, off: int)
    requires |s.cycles| > 0 && StartsOnNoonDay(s, off)
    ensures Test(PreviousTransition(s, ref, off).value, ref) != Upcoming
  {
    var (i, d) := ClosestIn(s.cycles, ref);
    var c := s.cycles[i];
    var x := Extrapolated(c, ref, off);
    if PreviousTransition(s, ref, off) == Some(ExtrapolatedPrevious(c, ref, off))
       && Cycles.PreviousTransition(x, ref).None? {
      var e := x.evening.start;
      ExtrapolatedKeepsDay(c, x, ref, off, c.evening.start, e);
      LocalDayShift(e, -DayMs, off);
      if e - DayMs >= ref {
        LocalDayMonotone(ref, e - DayMs, off);
      }
    }
  }

  /**
   * When every cycle's transitions start on its noon's date, the next
   * transition of a non-null schedule starts after the reference instant, the
   * fallback morning of the day after included.
   */
  lemma NextStartsLater(s: Schedule, ref: int, off: int)
    requires |s.cycles| > 0 && StartsOnNoonDay(s, off)
    ensures NextTransition(s, ref, off).value.start > ref
  {
    var (i, d) := ClosestIn(s.cycles, ref);
    var c := s.cycles[i];
    var x := Extrapolated(c, ref, off);
    if NextTransition(s, ref, off) == Some(ExtrapolatedNext(c, ref, off))
       && Cycles.NextTransition(x, ref).None? {
      var m := x.morning.start;
      ExtrapolatedKeepsDay(c, x, ref, off, c.morning.start, m);
      LocalDayShift(m, DayMs, off);
      if m + DayMs <= ref {
        LocalDayMonotone(m + DayMs, ref, off);
      }
    }
  }

  /**
   * Both transitions of the cycle start inside the 24 hours centred on its
   * noon, the morning first. The morning starts more than a minute after
   * that window opens, because `Test` already counts a transition that starts
   * within the next minute as begun.
   */
  predicate CentredOnNoon(c: Cycle)
  {
    c.noon - HalfDayMs + 61000 <= c.morning.start <= c.evening.start <= c.noon + HalfDayMs
  }

  /**
   * A non-null schedule with one cycle per day, like the schedules of the
   * tests: the noons lie exactly a day apart and every cycle is centred on
   * its noon.
   */
  predicate Daily(s: Schedule)
  {
    && |s.cycles| > 0
    && (forall k | 0 <= k < |s.cycles| :: s.cycles[k].noon == s.cycles[0].noon + k * DayMs)
    && (forall k | 0 <= k < |s.cycles| :: CentredOnNoon(s.cycles[k]))
  }

  /** The instants a daily schedule covers: 12 hours either side of its noons. */
  predicate InSpan(s: Schedule, ref: int)
    requires |s.cycles| > 0
  {
    s.cycles[0].noon - HalfDayMs <= ref <= s.cycles[|s.cycles| - 1].noon + HalfDayMs
  }

  /** `tr` is the morning or the evening of one of the schedule's own cycles. */
  predicate InList(s: Schedule, tr: Transition)
  {
    exists k | 0 <= k < |s.cycles| :: tr == s.cycles[k].morning || tr == s.cycles[k].evening
  }

  /**
   * For a daily schedule the previous transition is the latest of the list's
   * transitions that have begun. Within the schedule's span, whenever any has
   * begun, it is one of them and has begun itself: before a day's morning the
   * evening of the day before, between the two starts that day's morning,
   * after the evening that day's evening.
   */
  lemma PreviousIsLatest(s: Schedule, ref: int, off: int)
    requires Daily(s)
    ensures LatestBegun(s, ref, PreviousTransition(s, ref, off).value.start)
    ensures InSpan(s, ref) && (exists k | 0 <= k < |s.cycles| :: Test(s.cycles[k].morning, ref) != Upcoming) ==>
              InList(s, PreviousTransition(s, ref, off).value) &&
              Test(PreviousTransition(s, ref, off).value, ref) != Upcoming
  {
    var n := |s.cycles|;
    var first, last := s.cycles[0], s.cycles[n - 1];
    if ref < first.noon - HalfDayMs {
      forall k | 0 <= k < n
        ensures Test(s.cycles[k].morning, ref) == Upcoming && Test(s.cycles[k].evening, ref) == Upcoming
      {
        CycleWindow(s, k);
      }
    } else if ref > last.noon + HalfDayMs {
      PreviousAfterSpan(s, ref, off);
      forall k | 0 <= k < n ensures s.cycles[k].evening.start <= last.evening.start {
        if k < n - 1 {
          EarlierCycleFirst(s, k, n - 1);
        }
      }
    } else {
      SpanHasClose(s, ref);
      PreviousWithinSpan(s, ref, off);
    }
  }

  /**
   * For a daily schedule the next transition is the earliest of the list's
   * upcoming transitions. Within the schedule's span, whenever any is
   * upcoming, it is one of them and is upcoming itself: before a day's
   * morning that morning, between the two starts that day's evening, after
   * the evening the morning of the day after.
   */
  lemma NextIsEarliest(s: Schedule, ref: int, off: int)
    requires Daily(s)
    ensures EarliestUpcoming(s, ref, NextTransition(s, ref, off).value.start)
    ensures InSpan(s, ref) && (exists k | 0 <= k < |s.cycles| :: Test(s.cycles[k].evening, ref) == Upcoming) ==>
              InList(s, NextTransition(s, ref, off).value) &&
              Test(NextTransition(s, ref, off).value, ref) == Upcoming
  {
    var n := |s.cycles|;
    var first, last := s.cycles[0], s.cycles[n - 1];
    if ref > last.noon + HalfDayMs {
      forall k | 0 <= k < n
        ensures Test(s.cycles[k].morning, ref) != Upcoming && Test(s.cycles[k].evening, ref) != Upcoming
      {
        CycleWindow(s, k);
      }
    } else if ref < first.noon - HalfDayMs {
      NextBeforeSpan(s, ref, off);
      forall k | 0 <= k < n ensures first.morning.start <= s.cycles[k].morning.start {
        if k > 0 {
          EarlierCycleFirst(s, 0, k);
        }
      }
    } else {
      SpanHasClose(s, ref);
      NextWithinSpan(s, ref, off);
    }
  }

  /** Where the transitions of the k-th cycle of a daily schedule start. */
  lemma CycleWindow(s: Schedule, k: int)
    requires Daily(s) && 0 <= k < |s.cycles|
    ensures var noon := s.cycles[0].noon + k * DayMs;
            noon - HalfDayMs + 61000 <= s.cycles[k].morning.start <= s.cycles[k].evening.start <= noon + HalfDayMs
  {
    assert CentredOnNoon(s.cycles[k]);
  }

  /** In a daily schedule every transition of an earlier cycle starts before those of a later one. */
  lemma EarlierCycleFirst(s: Schedule, k: int, j: int)
    requires Daily(s) && 0 <= k < j < |s.cycles|
    ensures s.cycles[k].evening.start < s.cycles[j].morning.start
  {
    CycleWindow(s, k);
    CycleWindow(s, j);
    MulMonotone(k + 1, j, DayMs);
  }

  /** A daily schedule has a noon within 12 hours of every instant of its span. */
  lemma SpanHasClose(s: Schedule, ref: int)
    requires Daily(s) && InSpan(s, ref)
    ensures ClosestIn(s.cycles, ref).1 <= HalfDayMs
  {
    var n := |s.cycles|;
    var k := (ref - s.cycles[0].noon + HalfDayMs) / DayMs;
    if k >= n {
      k := n - 1;
      MulMonotone(n, (ref - s.cycles[0].noon + HalfDayMs) / DayMs, DayMs);
    }
    assert s.cycles[k].noon == s.cycles[0].noon + k * DayMs;
    assert Distance(s.cycles[k], ref) <= HalfDayMs;
  }

  /** No transition of the list that has begun starts after `start`. */
  predicate LatestBegun(s: Schedule, ref: int, start: int)
  {
    forall k | 0 <= k < |s.cycles| ::
      && (Test(s.cycles[k].morning, ref) != Upcoming ==> s.cycles[k].morning.start <= start)
      && (Test(s.cycles[k].evening, ref) != Upcoming ==> s.cycles[k].evening.start <= start)
  }

  /** No transition of the list that is upcoming starts before `start`. */
  predicate EarliestUpcoming(s: Schedule, ref: int, start: int)
  {
    forall k | 0 <= k < |s.cycles| ::
      && (Test(s.cycles[k].morning, ref) == Upcoming ==> start <= s.cycles[k].morning.start)
      && (Test(s.cycles[k].evening, ref) == Upcoming ==> start <= s.cycles[k].evening.start)
  }

  /** Within 12 hours of the closest noon the list answers "previous" by itself. */
  lemma PreviousWithinSpan(s: Schedule, ref: int, off: int)
    requires Daily(s) && ClosestIn(s.cycles, ref).1 <= HalfDayMs
    ensures LatestBegun(s, ref, PreviousTransition(s, ref, off).value.start)
    ensures (exists k | 0 <= k < |s.cycles| :: Test(s.cycles[k].morning, ref) != Upcoming) ==>
              InList(s, PreviousTransition(s, ref, off).value) &&
              Test(PreviousTransition(s, ref, off).value, ref) != Upcoming
  {
    var (i, d) := ClosestIn(s.cycles, ref);
    var c := s.cycles[i];
    CycleWindow(s, i);
    LaterUpcoming(s, ref, i);
    var own := Cycles.PreviousTransition(c, ref);
    if own.Some? {
      assert PreviousTransition(s, ref, off) == own;
      LatestInCycle(s, ref, i);
      assert InList(s, own.value);
    } else if i > 0 {
      var b := s.cycles[i - 1];
      CycleWindow(s, i - 1);
      assert PreviousTransition(s, ref, off) == Some(b.evening);
      LatestInCycleBefore(s, ref, i);
      assert InList(s, b.evening);
    } else {
      NoneBegun(s, ref);
      assert LatestBegun(s, ref, PreviousTransition(s, ref, off).value.start);
    }
  }

  /** Within 12 hours of the closest noon the list answers "next" by itself. */
  lemma NextWithinSpan(s: Schedule, ref: int, off: int)
    requires Daily(s) && ClosestIn(s.cycles, ref).1 <= HalfDayMs
    ensures EarliestUpcoming(s, ref, NextTransition(s, ref, off).value.start)
    ensures (exists k | 0 <= k < |s.cycles| :: Test(s.cycles[k].evening, ref) == Upcoming) ==>
              InList(s, NextTransition(s, ref, off).value) &&
              Test(NextTransition(s, ref, off).value, ref) == Upcoming
  {
    var (i, d) := ClosestIn(s.cycles, ref);
    var c := s.cycles[i];
    CycleWindow(s, i);
    EarlierBegun(s, ref, i);
    var own := Cycles.NextTransition(c, ref);
    if own.Some? {
      assert NextTransition(s, ref, off) == own;
      EarliestInCycle(s, ref, i);
      assert InList(s, own.value);
    } else if i + 1 < |s.cycles| {
      var a := s.cycles[i + 1];
      CycleWindow(s, i + 1);
      assert NextTransition(s, ref, off) == Some(a.morning);
      EarliestInCycleAfter(s, ref, i);
      assert InList(s, a.morning);
    } else {
      NoneUpcoming(s, ref);
      assert EarliestUpcoming(s, ref, NextTransition(s, ref, off).value.start);
    }
  }

  /** While the first morning is upcoming, nothing in a daily schedule has begun. */
  lemma NoneBegun(s: Schedule, ref: int)
    requires Daily(s) && Test(s.cycles[0].morning, ref) == Upcoming
    ensures forall k | 0 <= k < |s.cycles| ::
              Test(s.cycles[k].morning, ref) == Upcoming && Test(s.cycles[k].evening, ref) == Upcoming
  {
    forall k | 0 <= k < |s.cycles|
      ensures Test(s.cycles[k].morning, ref) == Upcoming && Test(s.cycles[k].evening, ref) == Upcoming
    {
      CycleWindow(s, k);
      if k > 0 {
        EarlierCycleFirst(s, 0, k);
      }
    }
  }

  /** Once the last evening has begun, nothing in a daily schedule is upcoming. */
  lemma NoneUpcoming(s: Schedule, ref: int)
    requires Daily(s) && Test(s.cycles[|s.cycles| - 1].evening, ref) != Upcoming
    ensures forall k | 0 <= k < |s.cycles| ::
              Test(s.cycles[k].morning, ref) != Upcoming && Test(s.cycles[k].evening, ref) != Upcoming
  {
    forall k | 0 <= k < |s.cycles|
      ensures Test(s.cycles[k].morning, ref) != Upcoming && Test(s.cycles[k].evening, ref) != Upcoming
    {
      CycleWindow(s, k);
      if k < |s.cycles| - 1 {
        EarlierCycleFirst(s, k, |s.cycles| - 1);
      }
    }
  }

  /** Up to 12 hours after a noon, the cycles after it have not begun. */
  lemma LaterUpcoming(s: Schedule, ref: int, i: int)
    requires Daily(s) && 0 <= i < |s.cycles| && ref <= s.cycles[i].noon + HalfDayMs
    ensures forall k | i < k < |s.cycles| :: Test(s.cycles[k].morning, ref) == Upcoming
  {
    forall k | i < k < |s.cycles| ensures Test(s.cycles[k].morning, ref) == Upcoming {
      CycleWindow(s, k);
      MulMonotone(i + 1, k, DayMs);
    }
  }

  /** From 12 hours before a noon on, the cycles before it have begun. */
  lemma EarlierBegun(s: Schedule, ref: int, i: int)
    requires Daily(s) && 0 <= i < |s.cycles| && ref >= s.cycles[i].noon - HalfDayMs
    ensures forall k | 0 <= k < i :: Test(s.cycles[k].evening, ref) != Upcoming
  {
    forall k | 0 <= k < i ensures Test(s.cycles[k].evening, ref) != Upcoming {
      CycleWindow(s, k);
      MulMonotone(k + 1, i, DayMs);
    }
  }

  /** When the later cycles have not begun, a cycle's own previous transition is the latest begun. */
  lemma LatestInCycle(s: Schedule, ref: int, i: int)
    requires Daily(s) && 0 <= i < |s.cycles|
    requires forall k | i < k < |s.cycles| :: Test(s.cycles[k].morning, ref) == Upcoming
    requires Cycles.PreviousTransition(s.cycles[i], ref).Some?
    ensures LatestBegun(s, ref, Cycles.PreviousTransition(s.cycles[i], ref).value.start)
  {
    var c := s.cycles[i];
    CycleWindow(s, i);
    NextIsEarliestUpcoming(c, ref);
    forall k | 0 <= k < i ensures s.cycles[k].evening.start < c.morning.start {
      EarlierCycleFirst(s, k, i);
    }
  }

  /** When a cycle and the later ones have not begun, the evening before is the latest begun. */
  lemma LatestInCycleBefore(s: Schedule, ref: int, i: int)
    requires Daily(s) && 0 < i < |s.cycles|
    requires forall k | i < k < |s.cycles| :: Test(s.cycles[k].morning, ref) == Upcoming
    requires Test(s.cycles[i].morning, ref) == Upcoming
    ensures LatestBegun(s, ref, s.cycles[i - 1].evening.start)
  {
    CycleWindow(s, i - 1);
    CycleWindow(s, i);
    forall k | 0 <= k < i - 1 ensures s.cycles[k].evening.start < s.cycles[i - 1].morning.start {
      EarlierCycleFirst(s, k, i - 1);
    }
  }

  /** When the earlier cycles have begun, a cycle's own next transition is the earliest upcoming. */
  lemma EarliestInCycle(s: Schedule, ref: int, i: int)
    requires Daily(s) && 0 <= i < |s.cycles|
    requires forall k | 0 <= k < i :: Test(s.cycles[k].evening, ref) != Upcoming
    requires Cycles.NextTransition(s.cycles[i], ref).Some?
    ensures EarliestUpcoming(s, ref, Cycles.NextTransition(s.cycles[i], ref).value.start)
  {
    var c := s.cycles[i];
    CycleWindow(s, i);
    NextIsEarliestUpcoming(c, ref);
    forall k | 0 <= k < i ensures Test(s.cycles[k].morning, ref) != Upcoming {
      CycleWindow(s, k);
    }
    forall k | i < k < |s.cycles| ensures c.evening.start < s.cycles[k].morning.start {
      EarlierCycleFirst(s, i, k);
    }
  }

  /** When a cycle and the earlier ones have begun, the morning after is the earliest upcoming. */
  lemma EarliestInCycleAfter(s: Schedule, ref: int, i: int)
    requires Daily(s) && 0 <= i < |s.cycles| - 1
    requires forall k | 0 <= k < i :: Test(s.cycles[k].evening, ref) != Upcoming
    requires Test(s.cycles[i].evening, ref) != Upcoming
    ensures EarliestUpcoming(s, ref, s.cycles[i + 1].morning.start)
  {
    CycleWindow(s, i);
    CycleWindow(s, i + 1);
    forall k | 0 <= k <= i ensures Test(s.cycles[k].morning, ref) != Upcoming {
      CycleWindow(s, k);
    }
    forall k | i + 1 < k < |s.cycles| ensures s.cycles[i + 1].evening.start < s.cycles[k].morning.start {
      EarlierCycleFirst(s, i + 1, k);
    }
  }

  /** Past the span, the extrapolated previous transition starts no earlier than the last evening. */
  lemma PreviousAfterSpan(s: Schedule, ref: int, off: int)
    requires Daily(s) && ref > s.cycles[|s.cycles| - 1].noon + HalfDayMs
    ensures PreviousTransition(s, ref, off).value.start >= s.cycles[|s.cycles| - 1].evening.start
  {
    var n := |s.cycles|;
    var last := s.cycles[n - 1];
    CycleWindow(s, n - 1);
    forall k | 0 <= k < n - 1 ensures Distance(s.cycles[k], ref) > Distance(last, ref) {
      MulMonotone(k + 1, n - 1, DayMs);
    }
    var (i, d) := ClosestIn(s.cycles, ref);
    assert i == n - 1;
    var x := Extrapolated(last, ref, off);
    var m := LocalDay(ref, off) - LocalDay(last.noon, off);
    ExtrapolatedShift(last, ref, off);
    LocalDayMonotone(last.noon, ref, off);
    assert PreviousTransition(s, ref, off) == Some(ExtrapolatedPrevious(last, ref, off));
    if m >= 1 {
      MulMonotone(1, m, DayMs);
    }
  }

  /** Before the span, the extrapolated next transition starts no later than the first morning. */
  lemma NextBeforeSpan(s: Schedule, ref: int, off: int)
    requires Daily(s) && ref < s.cycles[0].noon - HalfDayMs
    ensures NextTransition(s, ref, off).value.start <= s.cycles[0].morning.start
  {
    var n := |s.cycles|;
    var first := s.cycles[0];
    CycleWindow(s, 0);
    forall k | 0 < k < n ensures Distance(s.cycles[k], ref) > Distance(first, ref) {
      CycleWindow(s, k);
      MulMonotone(1, k, DayMs);
    }
    var (i, d) := ClosestIn(s.cycles, ref);
    assert i == 0;
    var x := Extrapolated(first, ref, off);
    var m := LocalDay(ref, off) - LocalDay(first.noon, off);
    ExtrapolatedShift(first, ref, off);
    LocalDayMonotone(ref, first.noon, off);
    assert NextTransition(s, ref, off) == Some(ExtrapolatedNext(first, ref, off));
    if m <= -1 {
      MulMonotone(m, -1, DayMs);
    }
  }
}

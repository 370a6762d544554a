/**
 * The D-Bus wire structs: a cycle travels as five epoch-millisecond
 * timestamps (no transition types), a schedule as a name tag and the list of
 * wire cycles. Each flavour has its own tag and ignores a schedule that
 * carries another.
 */
module DbusTypes {
  import opened Transitions
  import opened Cycles
  import opened Schedules

  /** KNightTimeDbusCycle */
  datatype DbusCycle = DbusCycle(noon: int, morningStart: int, morningEnd: int, eveningStart: int, eveningEnd: int)

  /** KNightTimeDbusSchedule, with the variant already cast to the list of wire cycles. */
  datatype DbusSchedule = DbusSchedule(name: string, data: seq<DbusCycle>)

  /** The name a flavour writes and the only one it accepts. */
  function Tag(f: Flavour): string
  {
    match f
    case DarkLight => "dynamic"
    case NightTime => "sunrise-sunset"
  }

  /** `c` with its transitions labelled Morning and Evening, as a cycle read from the wire is. */
  function Relabelled(c: Cycle): (r: Cycle)
    ensures Labelled(r)
    ensures Labelled(c) ==> r == c
  {
    Cycle(c.noon, Transition(Morning, c.morning.start, c.morning.end), Transition(Evening, c.evening.start, c.evening.end))
  }

  /** The five timestamps of a cycle, in the order the wire struct lists them. */
  function Timestamps(c: Cycle): seq<int>
  {
    [c.noon, c.morning.start, c.morning.end, c.evening.start, c.evening.end]
  }

  /** The five timestamps of a wire cycle, in its field order. */
  function WireTimestamps(w: DbusCycle): seq<int>
  {
    [w.noon, w.morningStart, w.morningEnd, w.eveningStart, w.eveningEnd]
  }

  /** `KNightTimeDbusCycle::from`: the wire cycle carries the cycle's five timestamps and nothing else. */
  function CycleFrom(c: Cycle): (w: DbusCycle)
    ensures WireTimestamps(w) == Timestamps(c)
  {
    DbusCycle(c.noon, c.morning.start, c.morning.end, c.evening.start, c.evening.end)
  }

  /** `KNightTimeDbusCycle::into`: the wire carries no types, so they are forced; no timestamp is rejected. */
  function CycleInto(w: DbusCycle): (c: Cycle)
    ensures Labelled(c)
    ensures CycleFrom(c) == w
  {
    Cycle(w.noon, Transition(Morning, w.morningStart, w.morningEnd), Transition(Evening, w.eveningStart, w.eveningEnd))
  }

  /** Two cycles look the same on the wire exactly when they differ at most in their transition types. */
  lemma SameOnTheWire(c: Cycle, d: Cycle)
    ensures CycleFrom(c) == CycleFrom(d) <==> Relabelled(c) == Relabelled(d)
  {
  }

  /** A cycle sent over the wire comes back with the same five timestamps and its types forced. */
  lemma CycleRoundTrip(c: Cycle)
    ensures CycleInto(CycleFrom(c)) == Relabelled(c)
    ensures CycleInto(CycleFrom(c)) == c <==> Labelled(c)
  {
  }

  /** `KNightTimeDbusSchedule::from`: the flavour's tag and one wire cycle per cycle, in order. */
  function ScheduleFrom(f: Flavour, s: Schedule): (w: DbusSchedule)
    ensures w.name == Tag(f) && |w.data| == |s.cycles|
    ensures forall i | 0 <= i < |s.cycles| :: w.data[i] == CycleFrom(s.cycles[i])
  {
    DbusSchedule(Tag(f), seq(|s.cycles|, i requires 0 <= i < |s.cycles| => CycleFrom(s.cycles[i])))
  }

  /** `KNightTimeDbusSchedule::into`: the null schedule for another tag, else one cycle per wire cycle, in order. */
  function ScheduleInto(f: Flavour, w: DbusSchedule): (s: Schedule)
    ensures w.name != Tag(f) ==> s.cycles == []
    ensures w.name == Tag(f) ==> |s.cycles| == |w.data|
  {
    if w.name != Tag(f) then Schedule([])
    else Schedule(seq(|w.data|, i requires 0 <= i < |w.data| => CycleInto(w.data[i])))
  }

  /** The loop of `KNightTimeDbusSchedule::from`. */
  method FromSchedule(f: Flavour, s: Schedule) returns (w: DbusSchedule)
    ensures w == ScheduleFrom(f, s)
  {
    var dbusCycles: seq<DbusCycle> := [];
    for i := 0 to |s.cycles|
      invariant |dbusCycles| == i
      invariant forall j | 0 <= j < i :: dbusCycles[j] == CycleFrom(s.cycles[j])
    {
      dbusCycles := dbusCycles + [CycleFrom(s.cycles[i])];
    }
    w := DbusSchedule(Tag(f), dbusCycles);
  }

  /** The loop of `KNightTimeDbusSchedule::into`. */
  method IntoSchedule(f: Flavour, w: DbusSchedule) returns (s: Schedule)
    ensures s == ScheduleInto(f, w)
  {
    if w.name != Tag(f) {
      return Schedule([]);
    }
    var cycles: seq<Cycle> := [];
    for i := 0 to |w.data|
      invariant |cycles| == i
      invariant forall j | 0 <= j < i :: cycles[j] == CycleInto(w.data[j])
    {
      cycles := cycles + [CycleInto(w.data[i])];
    }
    s := Schedule(cycles);
  }

  /**
   * A schedule sent over the wire and read back by the same flavour keeps its
   * cycle count, order and timestamps; only the transition types are forced,
   * so a schedule of labelled cycles comes back equal.
   */
  lemma ScheduleRoundTrip(f: Flavour, s: Schedule)
    ensures var r := ScheduleInto(f, ScheduleFrom(f, s));
            |r.cycles| == |s.cycles| &&
            (forall i | 0 <= i < |s.cycles| :: r.cycles[i] == Relabelled(s.cycles[i])) &&
            ((forall i | 0 <= i < |s.cycles| :: Labelled(s.cycles[i])) ==> r == s)
  {
    var r := ScheduleInto(f, ScheduleFrom(f, s));
    assert forall i | 0 <= i < |s.cycles| :: r.cycles[i] == CycleInto(CycleFrom(s.cycles[i]));
  }

  /** Conversely, a wire schedule with the right tag survives being read and written again. */
  lemma WireRoundTrip(f: Flavour, w: DbusSchedule)
    requires w.name == Tag(f)
    ensures ScheduleFrom(f, ScheduleInto(f, w)) == w
  {
    var back := ScheduleFrom(f, ScheduleInto(f, w));
    assert forall i | 0 <= i < |w.data| :: back.data[i] == w.data[i];
  }

  /** A flavour reads the other flavour's schedules as the null schedule. */
  lemma OtherFlavourIsNull(f: Flavour, g: Flavour, s: Schedule)
    requires f != g
    ensures ScheduleInto(g, ScheduleFrom(f, s)) == Schedule([])
  {
  }

  /** Unlike `fromState`, `into` accepts zero timestamps. */
  lemma ZeroTimestampsAccepted(f: Flavour)
    ensures ScheduleInto(f, DbusSchedule(Tag(f), [DbusCycle(0, 0, 0, 0, 0)]))
            == Schedule([Cycle(0, Transition(Morning, 0, 0), Transition(Evening, 0, 0))])
  {
  }
}

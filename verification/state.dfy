/**
 * The persistence codec: `toState` writes a schedule with QDataStream into a
 * byte buffer and wraps the bytes in Base64; `fromState` undoes that and
 * validates what it reads.
 *
 * Layout: qint32 version (1), qint32 cycle count, then per cycle a qint64
 * noon followed by the morning and the evening transition, each a qint32
 * type code and two qint64 timestamps (ms since the epoch).
 */
module ScheduleState {
  import opened Wrappers
  import opened DataStream
  import Base64
  import opened Transitions
  import opened Cycles
  import opened Schedules

  const Version: int := 1

  /** Encoded sizes in bytes. */
  const TransitionSize: nat := 20
  const CycleSize: nat := 48

  /** The serialized type code is the enum value. */
  function KindCode(k: Kind): (code: int)
    ensures code == 0 || code == 1
  {
    match k
    case Morning => 0
    case Evening => 1
  }

  /** The kind a type code stands for; None for a code outside the enum. */
  function KindOf(code: int): (k: Option<Kind>)
    ensures k.Some? <==> code == 0 || code == 1
    ensures k.Some? ==> KindCode(k.value) == code
  {
    if code == 0 then Some(Morning) else if code == 1 then Some(Evening) else None
  }

  lemma KindCodeRoundTrip(k: Kind)
    ensures KindOf(KindCode(k)) == Some(k)
  {
  }

  /** A transition that the decoder accepts back: non-zero timestamps that fit in a qint64. */
  predicate StorableTransition(tr: Transition)
  {
    tr.start != 0 && tr.end != 0 && FitsSigned(tr.start, Int64Width) && FitsSigned(tr.end, Int64Width)
  }

  predicate StorableCycle(c: Cycle)
  {
    c.noon != 0 && FitsSigned(c.noon, Int64Width) && StorableTransition(c.morning) && StorableTransition(c.evening)
  }

  predicate StorableCycles(cs: seq<Cycle>)
  {
    forall i | 0 <= i < |cs| :: StorableCycle(cs[i])
  }

  /** A schedule whose state decodes back to itself: storable cycles and a count that fits in an int. */
  predicate Storable(s: Schedule)
  {
    StorableCycles(s.cycles) && FitsSigned(|s.cycles|, Int32Width)
  }

  // ---------------------------------------------------------------------------
  // The bytes the serializer writes.

  function TransitionBytes(tr: Transition): (bs: seq<Byte>)
    ensures |bs| == TransitionSize
  {
    SignedBytes(KindCode(tr.kind), Int32Width) + SignedBytes(tr.start, Int64Width) + SignedBytes(tr.end, Int64Width)
  }

  function CycleBytes(c: Cycle): (bs: seq<Byte>)
    ensures |bs| == CycleSize
  {
    SignedBytes(c.noon, Int64Width) + TransitionBytes(c.morning) + TransitionBytes(c.evening)
  }

  function CyclesBytes(cs: seq<Cycle>): (bs: seq<Byte>)
    ensures |bs| == 48 * |cs|
  {
    if |cs| == 0 then [] else CycleBytes(cs[0]) + CyclesBytes(cs[1..])
  }

  /** The count is written as `int(cycles.size())`, so it is narrowed to 32 bits. */
  function ScheduleBytes(s: Schedule): (bs: seq<Byte>)
    ensures |bs| == 8 + 48 * |s.cycles|
  {
    SignedBytes(Version, Int32Width) + SignedBytes(|s.cycles|, Int32Width) + CyclesBytes(s.cycles)
  }

  lemma {:induction false} CyclesBytesAppend(cs: seq<Cycle>, c: Cycle)
    ensures CyclesBytes(cs + [c]) == CyclesBytes(cs) + CycleBytes(c)
  {
    if |cs| > 0 {
      assert (cs + [c])[1..] == cs[1..] + [c];
      CyclesBytesAppend(cs[1..], c);
    }
  }

  // ---------------------------------------------------------------------------
  // What the deserializer reads, as functions of the bytes not yet read. Each
  // returns its result and the bytes left over.

  /** Reads all three fields, then rejects a zero timestamp or an unknown type code. */
  function ParseTransition(rest: seq<Byte>): (r: (Option<Transition>, seq<Byte>))
    ensures r.0.Some? ==> |rest| >= TransitionSize && r.1 == rest[TransitionSize..]
    ensures r.0.Some? ==> StorableTransition(r.0.value)
  {
    var (code, r1) := ReadSigned(rest, Int32Width);
    var (start, r2) := ReadSigned(r1, Int64Width);
    var (end, r3) := ReadSigned(r2, Int64Width);
    if start == 0 || end == 0 then (None, r3)
    else
      match KindOf(code)
      case None => (None, r3)
      case Some(k) => (Some(Transition(k, start, end)), r3)
  }

  /** Reads the noon and stops at once if it is zero; then the morning and the evening. */
  function ParseCycle(rest: seq<Byte>): (r: (Option<Cycle>, seq<Byte>))
    ensures r.0.Some? ==> |rest| >= CycleSize && r.1 == rest[CycleSize..]
    ensures r.0.Some? ==> StorableCycle(r.0.value)
  {
    var (noon, r1) := ReadSigned(rest, Int64Width);
    if noon == 0 then (None, r1)
    else
      var (morning, r2) := ParseTransition(r1);
      if morning.None? then (None, r2)
      else
        var (evening, r3) := ParseTransition(r2);
        if evening.None? then (None, r3)
        else (Some(Cycle(noon, morning.value, evening.value)), r3)
  }

  /** `count` cycles, in order; a count of zero or less reads nothing. */
  function ParseCycles(rest: seq<Byte>, count: int): (r: Option<seq<Cycle>>)
    ensures r.Some? ==> |r.value| == (if count <= 0 then 0 else count)
    ensures r.Some? ==> |rest| >= 48 * |r.value| && StorableCycles(r.value)
    decreases count
  {
    if count <= 0 then Some([])
    else
      var (c, r1) := ParseCycle(rest);
      if c.None? then None
      else Prepend([c.value], ParseCycles(r1, count - 1))
  }

  /** `prefix` in front of a parsed sequence; None stays None. */
  function Prepend(prefix: seq<Cycle>, cs: Option<seq<Cycle>>): (r: Option<seq<Cycle>>)
    ensures r.Some? <==> cs.Some?
  {
    if cs.None? then None else Some(prefix + cs.value)
  }

  /** One iteration of the deserializer's loop. */
  lemma ParseCyclesStep(rest: seq<Byte>, count: int, c: Cycle, after: seq<Byte>)
    requires count > 0 && ParseCycle(rest) == (Some(c), after)
    ensures ParseCycles(rest, count) == Prepend([c], ParseCycles(after, count - 1))
  {
  }

  lemma PrependNothing(prefix: seq<Cycle>, cs: Option<seq<Cycle>>)
    requires prefix == []
    ensures Prepend(prefix, cs) == cs
  {
    if cs.Some? {
      assert prefix + cs.value == cs.value;
    }
  }

  lemma PrependTwice(p: seq<Cycle>, q: seq<Cycle>, cs: Option<seq<Cycle>>)
    ensures Prepend(p, Prepend(q, cs)) == Prepend(p + q, cs)
  {
    if cs.Some? {
      assert p + (q + cs.value) == (p + q) + cs.value;
    }
  }

  /** The deserializer's loop invariant is kept by one more cycle read. */
  lemma ParseCyclesLoopStep(whole: Option<seq<Cycle>>, size: int, i: int, cycles: seq<Cycle>,
                            before: seq<Byte>, c: Cycle, after: seq<Byte>)
    requires i < size && ParseCycle(before) == (Some(c), after)
    requires whole == Prepend(cycles, ParseCycles(before, size - i))
    ensures whole == Prepend(cycles + [c], ParseCycles(after, size - (i + 1)))
  {
    ParseCyclesStep(before, size - i, c, after);
    PrependTwice(cycles, [c], ParseCycles(after, size - i - 1));
  }

  /** Rejects a version other than 1, then reads the count and that many cycles; trailing bytes are ignored. */
  function ParseSchedule(bytes: seq<Byte>): (r: Option<Schedule>)
    ensures r.Some? ==> |bytes| >= 4 && SignedValue(bytes[..4]) == Version
    ensures r.Some? ==> |r.value.cycles| == (if |bytes| < 8 || SignedValue(bytes[4..8]) <= 0 then 0 else SignedValue(bytes[4..8]))
    ensures r.Some? ==> Storable(r.value)
  {
    var (version, r1) := ReadSigned(bytes, Int32Width);
    if version != Version then None
    else
      var (size, r2) := ReadSigned(r1, Int32Width);
      assert |bytes| >= 8 ==> bytes[4..][..4] == bytes[4..8];
      var cycles := ParseCycles(r2, size);
      if cycles.None? then None else Some(Schedule(cycles.value))
  }

  /** `toState`: the empty string for a null schedule, else the Base64 of the serialized bytes. */
  function EncodeState(s: Schedule): (state: string)
    ensures state == "" <==> s.cycles == []
  {
    if |s.cycles| == 0 then "" else Base64.Encode(ScheduleBytes(s))
  }

  /** `fromState`: None for the empty string, for text that is not Base64, and for bytes the deserializer rejects. */
  function DecodeState(state: string): (r: Option<Schedule>)
    ensures r.Some? ==> Storable(r.value)
  {
    if |state| == 0 then None
    else
      match Base64.Decode(state)
      case None => None
      case Some(bytes) => ParseSchedule(bytes)
  }

  // ---------------------------------------------------------------------------
  // Round trip and rejection.

  /** The three fields of a written transition read back one after the other. */
  lemma ReadTransitionFields(code: int, start: int, end: int, tail: seq<Byte>)
    ensures var a, b, c := SignedBytes(code, Int32Width), SignedBytes(start, Int64Width), SignedBytes(end, Int64Width);
            && ReadSigned(a + b + c + tail, Int32Width) == (Wrap(code, Int32Width), b + (c + tail))
            && ReadSigned(b + (c + tail), Int64Width) == (Wrap(start, Int64Width), c + tail)
            && ReadSigned(c + tail, Int64Width) == (Wrap(end, Int64Width), tail)
  {
    var a, b, c := SignedBytes(code, Int32Width), SignedBytes(start, Int64Width), SignedBytes(end, Int64Width);
    Reassociate(a, b, c, tail);
    ReadWritten(code, Int32Width, b + (c + tail));
    ReadWritten(start, Int64Width, c + tail);
    ReadWritten(end, Int64Width, tail);
  }

  lemma Reassociate(a: seq<Byte>, b: seq<Byte>, c: seq<Byte>, d: seq<Byte>)
    ensures a + b + c + d == a + (b + (c + d))
  {
  }

  lemma ParseTransitionBytes(tr: Transition, tail: seq<Byte>)
    requires StorableTransition(tr)
    ensures ParseTransition(TransitionBytes(tr) + tail) == (Some(tr), tail)
  {
    ReadTransitionFields(KindCode(tr.kind), tr.start, tr.end, tail);
    WrapFitting(KindCode(tr.kind), Int32Width);
    WrapFitting(tr.start, Int64Width);
    WrapFitting(tr.end, Int64Width);
  }

  lemma ParseCycleBytes(c: Cycle, tail: seq<Byte>)
    requires StorableCycle(c)
    ensures ParseCycle(CycleBytes(c) + tail) == (Some(c), tail)
  {
    var n, m, e := SignedBytes(c.noon, Int64Width), TransitionBytes(c.morning), TransitionBytes(c.evening);
    assert CycleBytes(c) + tail == n + (m + (e + tail));
    ReadWritten(c.noon, Int64Width, m + (e + tail));
    WrapFitting(c.noon, Int64Width);
    ParseTransitionBytes(c.morning, e + tail);
    ParseTransitionBytes(c.evening, tail);
  }

  lemma {:induction false} ParseCyclesBytes(cs: seq<Cycle>, tail: seq<Byte>)
    requires StorableCycles(cs)
    ensures ParseCycles(CyclesBytes(cs) + tail, |cs|) == Some(cs)
  {
    if |cs| > 0 {
      CyclesBytesCons(cs, tail);
      ParseCycleBytes(cs[0], CyclesBytes(cs[1..]) + tail);
      ParseCyclesBytes(cs[1..], tail);
      ParseCyclesStep(CyclesBytes(cs) + tail, |cs|, cs[0], CyclesBytes(cs[1..]) + tail);
      FirstAndRest(cs);
    }
  }

  lemma CyclesBytesCons(cs: seq<Cycle>, tail: seq<Byte>)
    requires |cs| > 0
    ensures CyclesBytes(cs) + tail == CycleBytes(cs[0]) + (CyclesBytes(cs[1..]) + tail)
  {
    var x, y := CycleBytes(cs[0]), CyclesBytes(cs[1..]);
    assert CyclesBytes(cs) == x + y;
    Associate(x, y, tail);
  }

  lemma Associate(x: seq<Byte>, y: seq<Byte>, z: seq<Byte>)
    ensures (x + y) + z == x + (y + z)
  {
  }

  lemma FirstAndRest(cs: seq<Cycle>)
    requires |cs| > 0
    ensures [cs[0]] + cs[1..] == cs
  {
  }

  /** The deserializer reads back what the serializer wrote, whatever bytes follow. */
  lemma ParseScheduleBytes(s: Schedule, tail: seq<Byte>)
    requires Storable(s)
    ensures ParseSchedule(ScheduleBytes(s) + tail) == Some(s)
  {
    var v, n, body := SignedBytes(Version, Int32Width), SignedBytes(|s.cycles|, Int32Width), CyclesBytes(s.cycles);
    assert ScheduleBytes(s) + tail == v + (n + (body + tail));
    ReadWritten(Version, Int32Width, n + (body + tail));
    ReadWritten(|s.cycles|, Int32Width, body + tail);
    WrapFitting(Version, Int32Width);
    WrapFitting(|s.cycles|, Int32Width);
    ParseCyclesBytes(s.cycles, tail);
  }

  /** `fromState(toState(s)) == s` for every non-null storable schedule. */
  lemma StateRoundTrip(s: Schedule)
    requires Storable(s) && |s.cycles| > 0
    ensures DecodeState(EncodeState(s)) == Some(s)
  {
    Base64.DecodeEncode(ScheduleBytes(s));
    ParseScheduleBytes(s, []);
    assert ScheduleBytes(s) + [] == ScheduleBytes(s);
  }

  /** A null schedule is stored as the empty string, which does not decode. */
  lemma NullStateIsNotRestored(s: Schedule)
    requires |s.cycles| == 0
    ensures EncodeState(s) == "" && DecodeState(EncodeState(s)) == None
  {
  }

  /** A version field other than 1 is rejected. */
  lemma WrongVersionRejected(version: int, tail: seq<Byte>)
    requires FitsSigned(version, Int32Width) && version != Version
    ensures ParseSchedule(SignedBytes(version, Int32Width) + tail) == None
  {
    SignedRoundTrip(version, Int32Width);
    assert (SignedBytes(version, Int32Width) + tail)[..4] == SignedBytes(version, Int32Width);
  }

  /** A count of zero or less decodes to the null schedule, whatever follows. */
  lemma NonPositiveCountIsEmpty(count: int, tail: seq<Byte>)
    requires FitsSigned(count, Int32Width) && count <= 0
    ensures ParseSchedule(SignedBytes(Version, Int32Width) + SignedBytes(count, Int32Width) + tail) == Some(Schedule([]))
  {
    var v, n := SignedBytes(Version, Int32Width), SignedBytes(count, Int32Width);
    assert v + n + tail == v + (n + tail);
    ReadWritten(Version, Int32Width, n + tail);
    ReadWritten(count, Int32Width, tail);
    WrapFitting(Version, Int32Width);
    WrapFitting(count, Int32Width);
  }

  /** A zero noon rejects the cycle before its transitions are read. */
  lemma ZeroNoonRejected(tail: seq<Byte>)
    ensures ParseCycle(SignedBytes(0, Int64Width) + tail).0 == None
  {
    ReadWritten(0, Int64Width, tail);
    WrapFitting(0, Int64Width);
  }

  /** A zero start or end rejects the transition, whatever its type code. */
  lemma ZeroTimestampRejected(code: int, start: int, end: int, tail: seq<Byte>)
    requires start == 0 || end == 0
    ensures ParseTransition(SignedBytes(code, Int32Width) + SignedBytes(start, Int64Width) + SignedBytes(end, Int64Width) + tail).0 == None
  {
    ReadTransitionFields(code, start, end, tail);
    WrapFitting(0, Int64Width);
  }

  /** A type code other than 0 and 1 rejects the transition. */
  lemma UnknownTypeRejected(code: int, start: int, end: int, tail: seq<Byte>)
    requires FitsSigned(code, Int32Width) && code != 0 && code != 1
    ensures ParseTransition(SignedBytes(code, Int32Width) + SignedBytes(start, Int64Width) + SignedBytes(end, Int64Width) + tail).0 == None
  {
    ReadTransitionFields(code, start, end, tail);
    WrapFitting(code, Int32Width);
  }

  /**
   * Cutting a stored schedule short inside its cycles is rejected, because a
   * read past the end yields a zero timestamp. Cutting it inside the count
   * field instead reads a count of 0 and yields the null schedule.
   */
  lemma TruncatedState(s: Schedule, k: nat)
    requires Storable(s) && |s.cycles| > 0 && k < |ScheduleBytes(s)|
    ensures 8 <= k ==> ParseSchedule(ScheduleBytes(s)[..k]) == None
    ensures 4 <= k < 8 ==> ParseSchedule(ScheduleBytes(s)[..k]) == Some(Schedule([]))
    ensures k < 4 ==> ParseSchedule(ScheduleBytes(s)[..k]) == None
  {
    var bytes := ScheduleBytes(s);
    var v := SignedBytes(Version, Int32Width);
    ReadWritten(Version, Int32Width, bytes[4..]);
    WrapFitting(Version, Int32Width);
    assert bytes == v + bytes[4..];
    if 8 <= k {
      var cut := bytes[..k];
      assert cut[..4] == v;
      assert cut[4..8] == bytes[4..8];
      assert bytes[4..8] == SignedBytes(|s.cycles|, Int32Width);
      SignedRoundTrip(|s.cycles|, Int32Width);
    } else if 4 <= k {
      var cut := bytes[..k];
      assert cut == v + cut[4..];
      ReadWritten(Version, Int32Width, cut[4..]);
    }
  }

  // ---------------------------------------------------------------------------
  // The stream-based serializer and deserializer.

  method SerializeTransition(stream: Writer, tr: Transition)
    modifies stream
    ensures stream.bytes == old(stream.bytes) + TransitionBytes(tr)
  {
    stream.WriteInt32(KindCode(tr.kind));
    stream.WriteInt64(tr.start);
    stream.WriteInt64(tr.end);
  }

  method SerializeCycle(stream: Writer, c: Cycle)
    modifies stream
    ensures stream.bytes == old(stream.bytes) + CycleBytes(c)
  {
    stream.WriteInt64(c.noon);
    SerializeTransition(stream, c.morning);
    SerializeTransition(stream, c.evening);
  }

  method SerializeSchedule(stream: Writer, s: Schedule)
    modifies stream
    ensures stream.bytes == old(stream.bytes) + ScheduleBytes(s)
  {
    stream.WriteInt32(Version);
    stream.WriteInt32(|s.cycles|);
    ghost var header := stream.bytes;
    var i := 0;
    while i < |s.cycles|
      invariant 0 <= i <= |s.cycles|
      invariant stream.bytes == header + CyclesBytes(s.cycles[..i])
    {
      CyclesBytesAppend(s.cycles[..i], s.cycles[i]);
      assert s.cycles[..i + 1] == s.cycles[..i] + [s.cycles[i]];
      Associate(header, CyclesBytes(s.cycles[..i]), CycleBytes(s.cycles[i]));
      SerializeCycle(stream, s.cycles[i]);
      i := i + 1;
    }
    assert s.cycles[..i] == s.cycles;
    Reassociate(old(stream.bytes), SignedBytes(Version, Int32Width), SignedBytes(|s.cycles|, Int32Width), CyclesBytes(s.cycles));
    Associate(SignedBytes(Version, Int32Width), SignedBytes(|s.cycles|, Int32Width), CyclesBytes(s.cycles));
  }

  method DeserializeTransition(stream: Reader) returns (tr: Option<Transition>)
    requires stream.Valid()
    modifies stream
    ensures stream.Valid()
    ensures (tr, stream.Remaining()) == ParseTransition(old(stream.Remaining()))
  {
    var code := stream.ReadInt32();
    var start := stream.ReadInt64();
    var end := stream.ReadInt64();
    if start == 0 || end == 0 {
      return None;
    }
    if code == 0 {
      tr := Some(Transition(Morning, start, end));
    } else if code == 1 {
      tr := Some(Transition(Evening, start, end));
    } else {
      tr := None;
    }
  }

  method DeserializeCycle(stream: Reader) returns (c: Option<Cycle>)
    requires stream.Valid()
    modifies stream
    ensures stream.Valid()
    ensures (c, stream.Remaining()) == ParseCycle(old(stream.Remaining()))
  {
    var noon := stream.ReadInt64();
    if noon == 0 {
      return None;
    }
    var morning := DeserializeTransition(stream);
    if morning.None? {
      return None;
    }
    var evening := DeserializeTransition(stream);
    if evening.None? {
      return None;
    }
    c := Some(Cycle(noon, morning.value, evening.value));
  }

  /** The loop of `deserializeSchedule`: `count` cycles in order, or None at the first rejected one. */
  method DeserializeCycles(stream: Reader, count: int) returns (cs: Option<seq<Cycle>>)
    requires stream.Valid()
    modifies stream
    ensures stream.Valid()
    ensures cs == ParseCycles(old(stream.Remaining()), count)
  {
    ghost var rest := stream.Remaining();
    ghost var whole := ParseCycles(rest, count);
    var cycles: seq<Cycle> := [];
    var i := 0;
    assert whole == Prepend(cycles, ParseCycles(rest, count - i)) by {
      assert count - i == count;
      PrependNothing(cycles, whole);
    }
    while i < count
      invariant stream.Valid() && rest == stream.Remaining()
      invariant whole == Prepend(cycles, ParseCycles(rest, count - i))
      decreases count - i
    {
      var c := DeserializeCycle(stream);
      if c.None? {
        return None;
      }
      ParseCyclesLoopStep(whole, count, i, cycles, rest, c.value, stream.Remaining());
      cycles, i, rest := cycles + [c.value], i + 1, stream.Remaining();
    }
    assert cycles + [] == cycles;
    cs := Some(cycles);
  }


  method DeserializeSchedule(stream: Reader) returns (s: Option<Schedule>)
    requires stream.Valid()
    modifies stream
    ensures stream.Valid()
    ensures s == ParseSchedule(old(stream.Remaining()))
  {
    var version := stream.ReadInt32();
    if version != Version {
      return None;
    }
    var size := stream.ReadInt32();
    var cycles := DeserializeCycles(stream, size);
    if cycles.None? {
      return None;
    }
    s := Some(Schedule(cycles.value));
  }


  method ToState(s: Schedule) returns (state: string)
    ensures state == EncodeState(s)
  {
    if |s.cycles| == 0 {
      return "";
    }
    var stream := new Writer();
    SerializeSchedule(stream, s);
    assert stream.bytes == ScheduleBytes(s);
    state := Base64.Encode(stream.bytes);
  }

  method FromState(state: string) returns (s: Option<Schedule>)
    ensures s == DecodeState(state)
  {
    if |state| == 0 {
      return None;
    }
    var bytes := Base64.Decode(state);
    if bytes.None? {
      return None;
    }
    var stream := new Reader(bytes.value);
    s := DeserializeSchedule(stream);
  }
}

# knighttime schedule values, modelled in Dafny

This project models the schedule value library of KDE knighttime. The library
lets the night-colour daemon and its clients agree on when the next morning
(dark to light) and evening (light to dark) transitions happen. It has five
parts:

- **Transition** (`Transitions`): a typed interval `(type, start, end)`.
  - `test` classifies an instant against the interval with a 60-second tolerance.
  - `progress` is the clamped elapsed fraction.
- **Cycle** (`Cycles`): one day's noon plus its morning and evening transitions.
  - `nextTransition` and `previousTransition` query the cycle.
  - `extrapolated` re-anchors the cycle onto another local date.
- **Schedule** (`Schedules`): the list of cycles.
  - `closestCycle` is a linear scan.
  - `previousTransition` and `nextTransition` are answered from the closest cycle, then from its neighbour, then by extrapolation.
- **Persistence codec** (`DataStream`, `Base64`, `ScheduleState`): `toState` and `fromState`.
  - The binary layout is QDataStream big-endian two's complement: version 1, the count, then per cycle its noon and its two `(type, start, end)` triples.
  - The bytes are then wrapped in Base64.
  - The serializer and deserializer are methods on a writer and a reader cursor. They are proved equal to pure byte-layout and parse functions, and the round trips are proved about those functions.
- **Forecasters** (`Forecasts`): the fixed-clock forecast and the solar forecast. Both loop over days −1 .. cycleCount−1.
- **D-Bus wire structs** (`DbusTypes`): the second encoding. A cycle becomes five epoch-millisecond timestamps; a schedule becomes a name tag plus the list of wire cycles.

The library exists in two flavours, dark-light (`KDarkLight*`) and night-time (`KNightTime*`).
- Their transition, cycle, schedule and codec code is identical: `src/knighttimeschedule.cpp:57-377` repeats `src/kdarklightschedule.cpp:57-377` with the class names changed. One shared model covers both, and the table cites the dark-light lines.
- The two flavours differ only in how the fixed-clock forecast halves the daylight, and in the D-Bus name tag. `Schedules.Flavour` selects between them.

Conventions of the model:
- An instant is a whole number of milliseconds since the Unix epoch.
- Local time is a fixed offset `off` from UTC. The local date of `t` is ⌊(t + off) / 86400000⌋, and adding a day adds 86400000 ms.
- A `QTime` is a whole number of seconds in [0, 86400); `addSecs` wraps.
- `QDateTime::secsTo` truncates the millisecond difference toward zero. "More than 60 whole seconds" is therefore exactly "at least 61000 ms".
- The sun-event astronomy is a function parameter. It returns, for an instant and a location, the four optional event instants and the solar noon.

## Model

| member | source | states |
|---|---|---|
| Transitions.Test | src/kdarklightschedule.cpp:57-67 | Upcoming iff the start is at least 61000 ms after t. InProgress iff not Upcoming and the end is at least 61000 ms after t. Passed iff neither holds. |
| Transitions.TestMonotone | autotests/transition_test.cpp:21-33 | As the instant advances, the relation only moves forward: Upcoming, then InProgress, then Passed. |
| Transitions.Progress | src/kdarklightschedule.cpp:69-74 | The result lies in [0, 1]. It is undefined (NaN) exactly when the whole-second length and the whole-second elapsed time are both 0. |
| Transitions.ProgressShape | src/kdarklightschedule.h:63-68 | For a transition of at least one second: 0 at or before the start, 1 at or after the end, and in between the elapsed whole seconds over the total. |
| Transitions.ProgressMonotone | autotests/transition_test.cpp:35-44 | For a transition of at least one second, progress never decreases as the instant advances. |
| Cycles.Extrapolated | src/kdarklightschedule.cpp:102-115 | The new noon lies on the reference's local date with the old noon's local time of day. All four endpoints keep their exact millisecond offset from noon. The types are forced to Morning and Evening. |
| Cycles.ExtrapolatedOntoOwnDay | autotests/cycle_test.cpp:22-39 | Extrapolating a labelled cycle onto its own local date returns it unchanged. |
| Cycles.ExtrapolatedTwice | src/kdarklightschedule.cpp:104-114 | Extrapolation depends only on the target date: extrapolating an extrapolated cycle equals extrapolating the original. |
| Cycles.ExtrapolatedShift | src/kdarklightschedule.cpp:104-106 | Extrapolation moves the noon by a whole number of days: exactly as many as lie between the two local dates. |
| Cycles.ExtrapolatedDayBefore | src/kdarklightschedule.cpp:230-231 | Extrapolating onto the previous day moves the noon and the evening back by exactly one day. This is the previous-transition fallback. |
| Cycles.ExtrapolatedDayAfter | src/kdarklightschedule.cpp:260-261 | Extrapolating onto the next day moves the noon and the morning forward by exactly one day. This is the next-transition fallback. |
| Cycles.NextTransition | src/kdarklightschedule.cpp:132-151 | The morning if it is Upcoming, else the evening if it is Upcoming, else none. A result always tests Upcoming and is one of the cycle's own two transitions. |
| Cycles.PreviousTransition | src/kdarklightschedule.cpp:153-172 | The evening unless it is Upcoming, else the morning unless it is Upcoming, else none. A result never tests Upcoming and is one of the cycle's own transitions. |
| Cycles.NoneOutsideTheDay | src/kdarklightschedule.h:132-142 | For a cycle whose morning starts first: no next transition iff the evening is no longer upcoming, and no previous transition iff the morning is still upcoming. |
| Cycles.PreviousAndNextAreConsecutive | autotests/cycle_test.cpp:41-85 | Before the morning, only the morning is next. Between the two starts, the morning is previous and the evening next. Afterwards, only the evening is previous. |
| Cycles.NextIsEarliestUpcoming | src/kdarklightschedule.cpp:134-150 | For a cycle whose morning starts first, the next transition starts no later than any of its upcoming transitions. The previous transition starts no earlier than any of its begun transitions. |
| Schedules.ClosestIn | src/kdarklightschedule.cpp:188-202 | −1 iff the list is empty. Otherwise a valid index whose distance between noon and t is at most every cycle's distance, and strictly less than that of every earlier index. So the first minimum wins. |
| Schedules.ClosestCycle | src/kdarklightschedule.cpp:190-201 | The loop updating bestIndex and bestScore computes exactly `ClosestIn`. |
| Schedules.ExtrapolatedPrevious | src/kdarklightschedule.cpp:225-231 | The extrapolated cycle's previous transition, or else that cycle's evening extrapolated onto the day before. |
| Schedules.ExtrapolatedNext | src/kdarklightschedule.cpp:255-261 | The extrapolated cycle's next transition, or else that cycle's morning extrapolated onto the day after. |
| Schedules.PreviousTransition | src/kdarklightschedule.cpp:204-232 | Returns none iff the schedule is null (has no cycles). |
| Schedules.NextTransition | src/kdarklightschedule.cpp:234-262 | Returns none iff the schedule is null (has no cycles). |
| Schedules.PreviousTiers | src/kdarklightschedule.cpp:211-223 | Within 12 hours, the closest cycle's own answer is returned unchanged. Only when it has none is the cycle before it consulted. Otherwise, and beyond 12 hours, the extrapolated answer is returned. |
| Schedules.NextTiers | src/kdarklightschedule.cpp:241-253 | The same for the next transition, with the cycle after the closest one. |
| Schedules.PreviousHasBegun | src/kdarklightschedule.cpp:225-231 | When every cycle's transitions start on its noon's local date, the previous transition of a non-null schedule never tests Upcoming. This includes the day-before fallback. |
| Schedules.NextStartsLater | src/kdarklightschedule.cpp:255-261 | Under the same condition, the next transition of a non-null schedule starts after the reference instant. This includes the day-after fallback. |
| Schedules.PreviousIsLatest | autotests/schedule_test.cpp:105-162 | For a daily schedule (noons a day apart, each cycle within 12 hours of its noon, morning first), no transition of the list that has begun starts after the answer. Within the list's span, whenever one has begun, the answer is one of the list's own transitions and has begun itself. So before a day's morning it is the evening of the day before, between the starts that day's morning, after the evening that day's evening. |
| Schedules.NextIsEarliest | autotests/schedule_test.cpp:185-242 | For a daily schedule, no upcoming transition of the list starts before the answer. Within the list's span, whenever one is upcoming, the answer is one of the list's own transitions and is upcoming itself. So before a day's morning it is that morning, between the starts that day's evening, after the evening the morning of the day after. |
| DataStream.Wrap | src/kdarklightschedule.cpp:347 | Narrowing to n bytes yields a value that fits in n signed bytes. |
| DataStream.WrapFitting | src/kdarklightschedule.cpp:347 | Narrowing a value that already fits leaves it unchanged. |
| DataStream.SignedRoundTrip | src/kdarklightschedule.cpp:289 | The two's complement bytes of x read back as x narrowed to the width, and as x itself when it fits. |
| DataStream.ReadSigned | src/kdarklightschedule.cpp:270 | A read with enough bytes consumes exactly the width. A read past the end yields 0 and consumes everything, because the stream status is never checked. |
| DataStream.ReadWritten | src/kdarklightschedule.cpp:287-290 | Reading back written bytes yields the narrowed value and leaves the following bytes untouched. |
| DataStream.Writer.WriteInt32 | src/kdarklightschedule.cpp:344 | `stream << int` appends the four big-endian bytes of the value. |
| DataStream.Writer.WriteInt64 | src/kdarklightschedule.cpp:315 | `stream << qint64` appends the eight big-endian bytes of the value. |
| DataStream.Reader.ReadSignedInt | src/kdarklightschedule.cpp:266-270 | The value read and the unread bytes equal `ReadSigned` on the bytes not yet read. |
| DataStream.Reader.ReadInt32 | src/kdarklightschedule.cpp:323 | `stream >> int` (the version here, the cycle count at line 330), as `ReadSigned` with width 4. |
| DataStream.Reader.ReadInt64 | src/kdarklightschedule.cpp:295 | `stream >> qint64`, as `ReadSigned` with width 8. |
| Base64.DecodeSextet | src/kdarklightschedule.cpp:374 | A character that decodes is the alphabet character of its value, and it is never the padding character. |
| Base64.Encode | src/kdarklightschedule.cpp:366 | The encoding's length is a multiple of four, and it is empty iff the input is empty. |
| Base64.EncodedLength | src/kdarklightschedule.cpp:366 | Every started group of three bytes becomes exactly four characters. |
| Base64.Decode | src/kdarklightschedule.cpp:374 | Only a string whose length is a multiple of four can decode. |
| Base64.DecodeEncode | src/kdarklightschedule.cpp:366-374 | Decoding the encoding of any byte string gives back the byte string. |
| Base64.EncodeDecode | src/kdarklightschedule.cpp:374 | Only canonical text decodes: whatever decodes is exactly the encoding of its result. |
| ScheduleState.KindOf | src/kdarklightschedule.h:27-30 | A type code is known iff it is 0 or 1, and a known code is the enum value of its kind. |
| ScheduleState.KindCodeRoundTrip | src/kdarklightschedule.cpp:289 | The code written for a type reads back as that type. |
| ScheduleState.ScheduleBytes | src/kdarklightschedule.cpp:342-351 | The layout is 8 header bytes plus 48 bytes per cycle. |
| ScheduleState.ParseTransition | src/kdarklightschedule.cpp:264-285 | Accepts only when 20 bytes were available, and consumes exactly those 20. An accepted transition has non-zero timestamps that fit in a qint64. |
| ScheduleState.ParseCycle | src/kdarklightschedule.cpp:292-311 | Accepts only when 48 bytes were available, and consumes exactly those 48. An accepted cycle has a non-zero noon and accepted transitions. |
| ScheduleState.ParseCycles | src/kdarklightschedule.cpp:328-334 | On success, yields exactly max(count, 0) cycles. They all satisfy the decoder's checks and were backed by 48 bytes each. |
| ScheduleState.ParseSchedule | src/kdarklightschedule.cpp:320-340 | Accepts only version 1. The cycle count equals the count field when it is positive; a short field reads as 0. Every decoded schedule is storable. |
| ScheduleState.EncodeState | src/kdarklightschedule.cpp:353-367 | The state is the empty string iff the schedule is null. |
| ScheduleState.DecodeState | src/kdarklightschedule.cpp:369-377 | Whatever decodes is a storable schedule: non-zero timestamps that fit in 64 bits, and a count that fits in 32 bits. |
| ScheduleState.ParseTransitionBytes | src/kdarklightschedule.cpp:264-290 | A storable transition's 20 bytes parse back to it and leave the following bytes. |
| ScheduleState.ParseCycleBytes | src/kdarklightschedule.cpp:292-318 | A storable cycle's 48 bytes parse back to it and leave the following bytes. |
| ScheduleState.ParseCyclesBytes | src/kdarklightschedule.cpp:328-349 | The bytes of a list of storable cycles parse back to that list. |
| ScheduleState.CyclesBytesAppend | src/kdarklightschedule.cpp:347-349 | Serializing one more cycle appends exactly that cycle's bytes. |
| ScheduleState.ParseScheduleBytes | src/kdarklightschedule.cpp:320-351 | The deserializer reads back what the serializer wrote, whatever trailing bytes follow. |
| ScheduleState.StateRoundTrip | src/kdarklightschedule.h:196-205 | `fromState(toState(s)) == s` for every non-null schedule with non-zero 64-bit timestamps. |
| ScheduleState.NullStateIsNotRestored | src/kdarklightschedule.cpp:355-357 | The null schedule is stored as the empty string, and the empty string does not decode. |
| ScheduleState.WrongVersionRejected | src/kdarklightschedule.cpp:322-326 | Any version other than 1 is rejected, whatever follows. |
| ScheduleState.NonPositiveCountIsEmpty | src/kdarklightschedule.cpp:328-330 | Version 1 with a count of zero or less decodes to the null schedule, whatever follows. |
| ScheduleState.ZeroNoonRejected | src/kdarklightschedule.cpp:296-299 | A zero noon rejects the cycle. |
| ScheduleState.ZeroTimestampRejected | src/kdarklightschedule.cpp:272-274 | A zero start or end rejects the transition, whatever its type code. |
| ScheduleState.UnknownTypeRejected | src/kdarklightschedule.cpp:276-282 | A type code other than 0 or 1 rejects the transition. |
| ScheduleState.TruncatedState | src/kdarklightschedule.cpp:320-340 | Truncating a stored schedule inside its cycles is rejected, because the missing timestamps read as 0. Truncating inside the version is rejected. Truncating inside the count yields the null schedule. |
| ScheduleState.SerializeTransition | src/kdarklightschedule.cpp:287-290 | Appends exactly the transition's 20-byte layout. |
| ScheduleState.SerializeCycle | src/kdarklightschedule.cpp:313-318 | Appends exactly the cycle's 48-byte layout. |
| ScheduleState.SerializeSchedule | src/kdarklightschedule.cpp:342-351 | The loop appends exactly the schedule's byte layout. |
| ScheduleState.DeserializeTransition | src/kdarklightschedule.cpp:264-285 | The result and the stream's new position agree with `ParseTransition` on the unread bytes. |
| ScheduleState.DeserializeCycle | src/kdarklightschedule.cpp:292-311 | The result and the stream's new position agree with `ParseCycle` on the unread bytes. |
| ScheduleState.DeserializeSchedule | src/kdarklightschedule.cpp:320-340 | Returns exactly `ParseSchedule` of the unread bytes: none for a wrong version or a failing cycle. |
| ScheduleState.DeserializeCycles | src/kdarklightschedule.cpp:328-337 | The loop reads `size` cycles and stops at the first failing one. It returns exactly `ParseCycles` of the unread bytes. |
| ScheduleState.ToState | src/kdarklightschedule.cpp:353-367 | Builds the state through the stream writer, and equals `EncodeState`. |
| ScheduleState.FromState | src/kdarklightschedule.cpp:369-377 | Decodes the state through the stream reader, and equals `DecodeState`. |
| Forecasts.DaylightSeconds | src/kdarklightschedule.cpp:379-387 | The daylight lasts more than 0 and at most 86400 s. Counting it forward from the morning, wrapping past midnight, lands on the evening. |
| Forecasts.HalfDaylight | src/knighttimeschedule.cpp:384 | Dark-light halves the wrapped daylight, rounding down. Night-time halves the unwrapped `morning.secsTo(evening)`, truncating toward zero, so its half is ≤ 0 when the evening precedes the morning. |
| Forecasts.ClockCycle | src/kdarklightschedule.cpp:398-409 | The cycle for `day` has its noon on the reference's local date plus `day`, at the noon time of day. Its morning starts half the daylight before noon and its evening half after. Each transition lasts the given duration. The types are Morning and Evening. |
| Forecasts.CycleTotal | src/kdarklightschedule.cpp:398 | The loop over days −1 .. cycleCount−1 runs cycleCount + 1 times, and none when cycleCount < −1. |
| Forecasts.ClockCycles | src/kdarklightschedule.cpp:389-412 | The fixed forecast has cycleCount + 1 cycles. |
| Forecasts.ClockForecast | src/knighttimeschedule.cpp:379-401 | The append loop builds exactly `ClockCycles`, one cycle per day from −1 in order, for either flavour. |
| Forecasts.ClockNoonsAscend | autotests/schedule_test.cpp:27-46 | Consecutive forecast noons are exactly one day apart, so the cycles ascend. |
| Forecasts.MorningStartsAtMorning | src/knighttimeschedule.cpp:385-390 | In either flavour, every forecast morning starts at the morning time of day. |
| Forecasts.EveningStartsAtEvening | src/kdarklightschedule.cpp:394-404 | A forecast evening starts at the evening time of day, one second early when the daylight is an odd number of seconds long. This holds for dark-light always, and for night-time when the evening is after the morning. |
| Forecasts.ClockCycleMorningFirst | src/kdarklightschedule.cpp:394-409 | Under the same condition, every forecast cycle starts its morning no later than its evening. The two starts lie the even-rounded daylight apart. |
| Forecasts.DefaultForecast | src/kdarklightschedule.h:212 | Both flavours make the same default forecast: 8 cycles on local dates ref − 1 onward, noon at 12:00, starts 6 h either side, 30-minute transitions. |
| Forecasts.NightTimeReversesCycle | src/knighttimeschedule.cpp:384-394 | Night-time with morning 22:00 and evening 06:00 builds a cycle whose evening starts 16 h before its morning. At 05:00 its schedule names the 22:00 morning as next, although the 06:00 evening is upcoming. |
| Forecasts.DarkLightKeepsOrder | src/kdarklightschedule.cpp:394-409 | Dark-light with the same times keeps the morning first, and at 05:00 its schedule names the 06:00 evening as next. |
| Forecasts.SolarCycle | src/kdarklightschedule.cpp:443-445 | The day's cycle: noon at solar noon, the morning from civil dawn to sunrise, the evening from sunset to civil dusk. |
| Forecasts.SolarForecast | src/kdarklightschedule.cpp:414-448 | None iff some day in −1 .. cycleCount−1 lacks civil dawn, sunrise, sunset or civil dusk. Otherwise cycleCount + 1 cycles, the i-th built from the events of day i − 1. |
| DbusTypes.Relabelled | src/kdarklightdbustypes_p.h:79-81 | Forcing the types gives a labelled cycle, and leaves an already labelled cycle unchanged. |
| DbusTypes.CycleFrom | src/kdarklightdbustypes_p.h:84-93 | The wire cycle carries exactly the cycle's five timestamps, in the wire struct's field order. |
| DbusTypes.SameOnTheWire | src/kdarklightdbustypes_p.h:84-93 | Two cycles give the same wire cycle iff they differ at most in their transition types. |
| DbusTypes.CycleInto | src/kdarklightdbustypes_p.h:77-82 | The wire cycle becomes a labelled cycle that maps back to the same five timestamps. No timestamp is rejected. |
| DbusTypes.CycleRoundTrip | src/kdarklightdbustypes_p.h:77-93 | `into(from(c))` keeps the noon and all four timestamps and forces the types. It equals c iff c is labelled. |
| DbusTypes.ScheduleFrom | src/kdarklightdbustypes_p.h:111-124 | The flavour's name tag, and one wire cycle per cycle: the i-th is `CycleFrom` of the i-th cycle. |
| DbusTypes.ScheduleInto | src/kdarklightdbustypes_p.h:95-109 | The null schedule for any other name, else one cycle per wire cycle. |
| DbusTypes.FromSchedule | src/kdarklightdbustypes_p.h:113-118 | The append loop builds exactly `ScheduleFrom`. |
| DbusTypes.IntoSchedule | src/kdarklightdbustypes_p.h:101-106 | The append loop builds exactly `ScheduleInto`. |
| DbusTypes.ScheduleRoundTrip | src/kdarklightdbustypes_p.h:95-124 | `into(from(s))` keeps the cycle count, order and timestamps, and forces the types. A schedule of labelled cycles comes back equal. |
| DbusTypes.WireRoundTrip | src/knighttimedbustypes_p.h:95-124 | A wire schedule with the right tag survives being read and written back unchanged. |
| DbusTypes.OtherFlavourIsNull | src/knighttimedbustypes_p.h:97-99 | A flavour reads the other flavour's schedules ("dynamic" against "sunrise-sunset") as the null schedule. |
| DbusTypes.ZeroTimestampsAccepted | src/kdarklightdbustypes_p.h:77-82 | Unlike `fromState`, `into` accepts a cycle of zero timestamps. |

## Left out

- The daemon (configuration, geolocation, timers, D-Bus registration and subscriber bookkeeping), the subscription and provider classes, and the scheduler wrappers. These are asynchronous wiring around the values modelled here.
- The `KHolidays::SunEvents` astronomy. It is foreign floating-point code, so the solar forecast takes it as a function parameter. That function returns optional instants and a solar noon that is never checked.
- Real time zones and daylight saving time. Local time is a fixed offset, so `QDateTime(date, time)` never falls into a DST gap.
- The validity of `QDateTime` values: every instant is a valid integer number of milliseconds.
- Transitions.Progress: exact `real` arithmetic stands in for the `qreal` division. The NaN of 0/0 is `None`, and the infinities the clamp absorbs are 0.0 and 1.0 directly.
- Base64.Decode: Qt's `fromBase64` is lenient. It skips characters outside the alphabet and tolerates missing padding and non-zero unused bits. The model decodes strict canonical RFC 4648 section 4 text only, so state strings that Qt would also accept are out of its scope.
- ScheduleState.DecodeState: a non-canonical or malformed Base64 state is `None` here, as the strict decoder decides. Qt would instead decode whatever it can and let the deserializer judge the bytes.
- Schedules.ClosestIn: the C++ leaves `bestScore` uninitialised for an empty list, and it is never read then. The model returns 0 in its place.
- `QDBusArgument` streaming operators, `qdbus_cast` and the `QVariant` wrapping of the cycle list. The model's wire schedule holds the list directly.
- `QDebug` output operators and the example monitor program: debug output only.
- Forecasts.ClockForecast: `cycleCount + 1`, the loop counter and the half-daylight are plain unbounded integers. The `int` overflow of a cycle count near 2^31 is not modelled.
- Forecasts.EveningStartsAtEvening: for the night-time flavour it is stated only when the evening is after the morning. With equal times, night-time halves 0 while the wrapped daylight is a full day. With the evening first, the half is negative (see Findings).
- Forecasts.ClockCycleMorningFirst: the same restriction, for the same reason. Its night-time counterexample is `Forecasts.NightTimeReversesCycle`.
- Cycles.NoneOutsideTheDay: stated only for cycles whose morning starts first. That is the documented cycle invariant, and the night-time finding breaks it.
- Schedules.PreviousHasBegun: stated for schedules whose transitions start on their noon's local date. A cycle whose transitions stray to another date can make the extrapolated fallback start on the wrong side of the reference.
- Schedules.PreviousIsLatest: stated for daily schedules, where the morning starts more than a minute after the 12 hours before noon begin. Outside the list's span it orders the answer only against the list's own transitions. That the extrapolated answer is the latest begun transition of the extrapolated days is not stated.
- Schedules.NextIsEarliest: the same restrictions. Outside the span, only the ordering against the list's own transitions is stated.
- The solar forecast's scheduler fallback to the default fixed-clock forecast belongs to the daemon, and is not part of this model.

## Findings

| source | as written | input that shows it | evidently intended | confidence | as-written member | corrected member |
|---|---|---|---|---|---|---|
| src/knighttimeschedule.cpp:384 | The night-time fixed-clock forecast halves `morning.secsTo(evening)`, which does not wrap past midnight. When the evening is before the morning, the half is negative, so the evening starts before the morning. | morning 22:00, evening 06:00, default 30-minute duration, cycleCount 0, reference 1970-01-02 00:00 UTC, offset 0. The cycle has noon 14:00, morning start 22:00 and evening start 06:00 on the same date. At 05:00 `nextTransition` returns the 22:00 morning, although the 06:00 evening is upcoming. | Halve the wrapped daylight, as `daylightDurationInSeconds` does in the dark-light flavour. Noon is then 02:00, the morning starts at 22:00 the day before, and the evening is next at 05:00. | not executed | Forecasts.NightTimeReversesCycle | Forecasts.ClockCycleMorningFirst |

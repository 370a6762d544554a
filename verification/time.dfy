/**
 * Instants, local time and times of day.
 *
 * An instant is a whole number of milliseconds since the Unix epoch. "Local
 * time" is a fixed offset from UTC (`off`, in milliseconds), so the local
 * calendar day of an instant is floor((t + off) / DayMs) and adding n days adds
 * n * DayMs. A QTime is a whole number of seconds since local midnight.
 */
module Time {

  const SecMs: int := 1000
  const DaySecs: int := 86400
  const DayMs: int := 86_400_000
  const HalfDayMs: int := 43_200_000

  /** A time of day (QTime) in whole seconds since midnight. */
  type TimeOfDay = s: int | 0 <= s < 86400

  function Abs(x: int): (r: nat)
    ensures r == x || r == -x
  {
    if x < 0 then -x else x
  }

  /** Integer division rounding toward zero, as C++ `/` on integers does. */
  function TruncDiv(a: int, b: int): (q: int)
    requires b > 0
    ensures a >= 0 ==> 0 <= q * b <= a < q * b + b
    ensures a < 0 ==> q * b - b < a <= q * b <= 0
  {
    if a >= 0 then
      EuclidParts(a, b);
      a / b
    else
      EuclidParts(-a, b);
      -((-a) / b)
  }

  lemma EuclidParts(n: nat, b: int)
    requires b > 0
    ensures 0 <= (n / b) * b <= n < (n / b) * b + b
    ensures n / b >= 0
  {
    var q, r := n / b, n % b;
    assert n == b * q + r && 0 <= r < b;
    assert q * b == b * q;
  }

  lemma TruncDivMonotone(a: int, c: int, b: int)
    requires b > 0 && a <= c
    ensures TruncDiv(a, b) <= TruncDiv(c, b)
  {
    var qa, qc := TruncDiv(a, b), TruncDiv(c, b);
    if qa > qc {
      assert qc + 1 <= qa;
      assert qc * b + b <= qa * b by { MulMonotone(qc + 1, qa, b); }
    }
  }

  lemma MulMonotone(x: int, y: int, b: int)
    requires x <= y && b > 0
    ensures x * b <= y * b
  {
    assert y * b - x * b == (y - x) * b;
  }

  /** QDateTime::secsTo: the millisecond difference truncated toward zero to whole seconds. */
  function SecsTo(from: int, to: int): int
  {
    TruncDiv(to - from, SecMs)
  }

  /** More than k whole seconds from `from` to `to` means at least (k + 1) * 1000 ms. */
  lemma SecsToExceeds(from: int, to: int, k: nat)
    ensures SecsTo(from, to) > k <==> to - from >= (k + 1) * SecMs
  {
    var d := to - from;
    if d >= 0 {
      assert SecsTo(from, to) == d / SecMs;
    }
  }

  /** The local calendar day (days since the epoch) of instant t. */
  function LocalDay(t: int, off: int): int
  {
    (t + off) / DayMs
  }

  /** The local time of day of instant t, in milliseconds since local midnight. */
  function LocalTimeOfDay(t: int, off: int): (ms: int)
    ensures 0 <= ms < DayMs
  {
    (t + off) % DayMs
  }

  /** The instant with local calendar day `day` and local time of day `ms` (QDateTime(date, time)). */
  function LocalInstant(day: int, ms: int, off: int): (t: int)
    requires 0 <= ms < DayMs
    ensures LocalDay(t, off) == day
    ensures LocalTimeOfDay(t, off) == ms
  {
    DayDecomposition(day, ms);
    day * DayMs + ms - off
  }

  lemma DayDecomposition(day: int, ms: int)
    requires 0 <= ms < DayMs
    ensures (day * DayMs + ms) / DayMs == day
    ensures (day * DayMs + ms) % DayMs == ms
  {
  }

  /** Every instant is rebuilt from its local day and local time of day. */
  lemma LocalInstantOf(t: int, off: int)
    ensures LocalInstant(LocalDay(t, off), LocalTimeOfDay(t, off), off) == t
  {
  }

  /**
   * Moving an instant by `delta` moves its local day by the whole days that
   * `delta` adds to its local time of day.
   */
  lemma LocalDayShift(t: int, delta: int, off: int)
    ensures LocalDay(t + delta, off) == LocalDay(t, off) + (LocalTimeOfDay(t, off) + delta) / DayMs
    ensures LocalTimeOfDay(t + delta, off) == (LocalTimeOfDay(t, off) + delta) % DayMs
  {
    var q, r := LocalDay(t, off), LocalTimeOfDay(t, off);
    assert t + off + delta == q * DayMs + (r + delta);
    ShiftByDays(q, r + delta);
  }

  lemma ShiftByDays(q: int, x: int)
    ensures (q * DayMs + x) / DayMs == q + x / DayMs
    ensures (q * DayMs + x) % DayMs == x % DayMs
  {
    var a, b := x / DayMs, x % DayMs;
    assert x == a * DayMs + b;
    assert q * DayMs + x == (q + a) * DayMs + b;
    DayDecomposition(q + a, b);
  }

  /** Later instants never fall on earlier local days. */
  lemma LocalDayMonotone(a: int, b: int, off: int)
    requires a <= b
    ensures LocalDay(a, off) <= LocalDay(b, off)
  {
  }

  /** QTime::addSecs: adds seconds, wrapping around midnight. */
  function AddSecs(time: TimeOfDay, secs: int): (r: TimeOfDay)
    ensures (r - time - secs) % DaySecs == 0
  {
    (time + secs) % DaySecs
  }
}

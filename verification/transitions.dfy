/**
 * A transition: one dawn-like (Morning) or dusk-like (Evening) interval,
 * KDarkLightTransition / KNightTimeTransition.
 */
module Transitions {
  import opened Wrappers
  import opened Time

  /** The serialized type code is the enum value: Morning = 0, Evening = 1. */
  datatype Kind = Morning | Evening

  datatype Relation = Upcoming | InProgress | Passed

  /**
   * Equality of this datatype is structural (kind, start, end), like the
   * defaulted comparison of the C++ class.
   */
  datatype Transition = Transition(kind: Kind, start: int, end: int)

  /** Clock jitter that `Test` absorbs, in whole seconds. */
  const Tolerance: nat := 60

  /**
   * How instant t relates to the transition: Upcoming while t is more than
   * 60 whole seconds before the start, InProgress while it is more than 60
   * whole seconds before the end, Passed afterwards. In milliseconds, "more
   * than 60 whole seconds" is a difference of at least 61000 ms.
   */
  function Test(tr: Transition, t: int): (r: Relation)
    ensures r == Upcoming <==> tr.start - t >= 61000
    ensures r == InProgress <==> tr.start - t < 61000 && tr.end - t >= 61000
    ensures r == Passed <==> tr.start - t < 61000 && tr.end - t < 61000
  {
    SecsToExceeds(t, tr.start, Tolerance);
    SecsToExceeds(t, tr.end, Tolerance);
    if SecsTo(t, tr.start) > Tolerance then Upcoming
    else if SecsTo(t, tr.end) > Tolerance then InProgress
    else Passed
  }

  function Rank(r: Relation): nat
  {
    match r
    case Upcoming => 0
    case InProgress => 1
    case Passed => 2
  }

  /** As the instant advances, the relation never moves backwards. */
  lemma TestMonotone(tr: Transition, t1: int, t2: int)
    requires t1 <= t2
    ensures Rank(Test(tr, t1)) <= Rank(Test(tr, t2))
  {
  }

  /** std::clamp(v, lo, hi) */
  function Clamp(v: real, lo: real, hi: real): real
  {
    if v < lo then lo else if hi < v then hi else v
  }

  /**
   * The progress of the transition at t: elapsed whole seconds over total
   * whole seconds, clamped to [0, 1]. `None` stands for the NaN that 0/0
   * gives when the transition lasts less than a second and t is within a
   * second of its start; x/0 for x != 0 is an infinity that the clamp turns
   * into 0.0 or 1.0.
   */
  function Progress(tr: Transition, t: int): (p: Option<real>)
    ensures p.None? <==> SecsTo(tr.start, tr.end) == 0 && SecsTo(tr.start, t) == 0
    ensures p.Some? ==> 0.0 <= p.value <= 1.0
  {
    var elapsed := SecsTo(tr.start, t);
    var total := SecsTo(tr.start, tr.end);
    if total == 0 then
      if elapsed > 0 then Some(1.0)
      else if elapsed < 0 then Some(0.0)
      else None
    else
      Some(Clamp(elapsed as real / total as real, 0.0, 1.0))
  }

  /**
   * For a transition lasting at least a second: 0 at or before the start, 1 at
   * or after the end, and in between the elapsed fraction of the whole
   * seconds.
   */
  lemma ProgressShape(tr: Transition, t: int)
    requires SecsTo(tr.start, tr.end) > 0
    ensures Progress(tr, t).Some?
    ensures t <= tr.start ==> Progress(tr, t) == Some(0.0)
    ensures t >= tr.end ==> Progress(tr, t) == Some(1.0)
    ensures tr.start <= t <= tr.end ==>
              Progress(tr, t).value * (SecsTo(tr.start, tr.end) as real) == SecsTo(tr.start, t) as real
  {
    var elapsed := SecsTo(tr.start, t);
    var total := SecsTo(tr.start, tr.end);
    var ratio := elapsed as real / total as real;
    assert ratio * total as real == elapsed as real;
    if t <= tr.start {
      TruncDivMonotone(t - tr.start, 0, SecMs);
      assert elapsed <= 0;
      NonPositiveRatio(elapsed as real, total as real);
    }
    if t >= tr.end {
      TruncDivMonotone(tr.end - tr.start, t - tr.start, SecMs);
      assert elapsed >= total;
      AtLeastOneRatio(elapsed as real, total as real);
    }
    if tr.start <= t <= tr.end {
      TruncDivMonotone(0, t - tr.start, SecMs);
      TruncDivMonotone(t - tr.start, tr.end - tr.start, SecMs);
      NonNegativeRatio(elapsed as real, total as real);
      AtMostOneRatio(elapsed as real, total as real);
    }
  }

  /** Progress never decreases as the instant advances. */
  lemma ProgressMonotone(tr: Transition, t1: int, t2: int)
    requires SecsTo(tr.start, tr.end) > 0 && t1 <= t2
    ensures Progress(tr, t1).value <= Progress(tr, t2).value
  {
    TruncDivMonotone(t1 - tr.start, t2 - tr.start, SecMs);
    var total := SecsTo(tr.start, tr.end) as real;
    RatioMonotone(SecsTo(tr.start, t1) as real, SecsTo(tr.start, t2) as real, total);
  }

  lemma NonPositiveRatio(x: real, y: real)
    requires x <= 0.0 && y > 0.0
    ensures x / y <= 0.0
  {
    assert (x / y) * y == x;
  }

  lemma NonNegativeRatio(x: real, y: real)
    requires x >= 0.0 && y > 0.0
    ensures x / y >= 0.0
  {
    NonPositiveRatio(-x, y);
    assert -x / y == -(x / y);
  }

  lemma AtLeastOneRatio(x: real, y: real)
    requires x >= y && y > 0.0
    ensures x / y >= 1.0
  {
    NonNegativeRatio(x - y, y);
    RatioShift(x, y);
  }

  lemma AtMostOneRatio(x: real, y: real)
    requires x <= y && y > 0.0
    ensures x / y <= 1.0
  {
    NonPositiveRatio(x - y, y);
    RatioShift(x, y);
  }

  lemma RatioShift(x: real, y: real)
    requires y > 0.0
    ensures (x - y) / y == x / y - 1.0
  {
    var a, b := (x - y) / y, x / y - 1.0;
    assert a * y == x - y;
    assert b * y == x - y;
    assert (a - b) * y == 0.0;
    if a - b > 0.0 {
      assert false;
    } else if a - b < 0.0 {
      assert false;
    }
  }

  lemma RatioMonotone(x1: real, x2: real, y: real)
    requires x1 <= x2 && y > 0.0
    ensures x1 / y <= x2 / y
  {
    NonNegativeRatio(x2 - x1, y);
    assert (x2 - x1) / y == x2 / y - x1 / y;
  }
}

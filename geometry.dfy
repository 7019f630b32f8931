/** The watch-face geometry of src/main.c in the Pebble SDK's integer units: the
    stored time, the animated radius, the hand angles, the hand lengths with the
    margin macros expanded, and the hand end points. */
module Geometry {
  import opened CArith

  /** `TRIG_MAX_ANGLE`: one full turn. */
  const TrigMaxAngle := 0x10000
  /** `TRIG_MAX_RATIO`: the value of `sin_lookup` and `cos_lookup` at a quarter turn. */
  const TrigMaxRatio := 0xffff
  /** `ANIMATION_NORMALIZED_MAX`: the progress of a finished animation. */
  const AnimationNormalizedMax := 65535

  const FinalRadius := 88
  const HandWidth := 7
  /** `DOT_RADIUS` is `HAND_WIDTH/4`. */
  const DotRadius := HandWidth / 4
  const HandMarginInner := 0
  const ShadowOffset := 2

  /** `Time` (main.c:41-44). */
  datatype Time = Time(hours: int, minutes: int)

  datatype Point = Point(x: int, y: int)

  /** `sin_lookup` and `cos_lookup`, whose tables belong to the SDK. */
  datatype Trig = Trig(sin: int -> int, cos: int -> int)

  /** The lookups return values between -TRIG_MAX_RATIO and TRIG_MAX_RATIO. */
  ghost predicate Bounded(trig: Trig)
  {
    forall a :: -TrigMaxRatio <= trig.sin(a) <= TrigMaxRatio && -TrigMaxRatio <= trig.cos(a) <= TrigMaxRatio
  }

  /** The hour `tick_handler` keeps for `tm_hour` (main.c:118-119): twelve less for
      afternoon hours, so that noon stays 12. */
  function StoredHour(tmHour: int): (h: int)
    ensures h == tmHour || h == tmHour - 12
    ensures 0 <= tmHour <= 23 ==> 0 <= h <= 12 && h % 12 == tmHour % 12
    ensures 0 <= tmHour <= 23 ==> (h == 12 <==> tmHour == 12)
  {
    tmHour - (if tmHour > 12 then 12 else 0)
  }

  /** `anim_percentage` (main.c:240-242) in exact arithmetic: the fraction
      dist / ANIMATION_NORMALIZED_MAX of max, truncated toward zero by the cast to int. */
  function AnimPercentage(dist: int, max: int): int
  {
    TruncDiv(dist * max, AnimationNormalizedMax)
  }

  lemma MulMono(a: int, b: int, c: int)
    requires a <= b && c >= 0
    ensures a * c <= b * c
  {
    assert b * c - a * c == (b - a) * c;
  }

  lemma DivMono(a: int, b: int, d: int)
    requires 0 <= a <= b && d > 0
    ensures a / d <= b / d
  {
    DivMod(a, d);
    DivMod(b, d);
    if a / d > b / d {
      MulMono(b / d + 1, a / d, d);
    }
  }

  /** Progress from 0 to ANIMATION_NORMALIZED_MAX scales to 0..max, with both ends exact. */
  lemma AnimPercentageRange(dist: int, max: int)
    requires 0 <= dist <= AnimationNormalizedMax && max >= 0
    ensures 0 <= AnimPercentage(dist, max) <= max
    ensures dist == 0 ==> AnimPercentage(dist, max) == 0
    ensures dist == AnimationNormalizedMax ==> AnimPercentage(dist, max) == max
  {
    MulMono(0, dist, max);
    MulMono(dist, AnimationNormalizedMax, max);
    DivModUnique(AnimationNormalizedMax * max, AnimationNormalizedMax, max, 0);
  }

  /** More progress never gives a smaller radius. */
  lemma AnimPercentageMonotone(d1: int, d2: int, max: int)
    requires 0 <= d1 <= d2 && max >= 0
    ensures AnimPercentage(d1, max) <= AnimPercentage(d2, max)
  {
    MulMono(0, d1, max);
    MulMono(d1, d2, max);
  }

  /** `TRIG_MAX_ANGLE * minutes / 60` (main.c:140). */
  function MinuteAngle(m: int): int
  {
    TruncDiv(TrigMaxAngle * m, 60)
  }

  /** `TRIG_MAX_ANGLE * hours / 12` (main.c:139). */
  function HourBase(h: int): int
  {
    TruncDiv(TrigMaxAngle * h, 12)
  }

  /** The hour angle `sin_lookup` and `cos_lookup` receive (main.c:139-141, 156-163): the
      hour's angle plus (minute_angle / TRIG_MAX_ANGLE) * (TRIG_MAX_ANGLE / 12), in exact
      arithmetic, truncated toward zero by the conversion to an integer angle. */
  function HourAngle(t: Time): int
  {
    TruncDiv(TrigMaxAngle * HourBase(t.hours) + MinuteAngle(t.minutes) * (TrigMaxAngle / 12), TrigMaxAngle)
  }

  /** Minutes 0..59 are 60 increasing angles within one turn. */
  lemma MinuteAngleInTurn(m1: int, m2: int)
    requires 0 <= m1 < m2 <= 59
    ensures 0 <= MinuteAngle(m1) < MinuteAngle(m2) < TrigMaxAngle
  {
  }

  /** On the hour, the hour hand points exactly at the hour. */
  lemma HourAngleOnTheHour(h: int)
    requires h >= 0
    ensures HourAngle(Time(h, 0)) == HourBase(h)
  {
    DivModUnique(TrigMaxAngle * HourBase(h), TrigMaxAngle, HourBase(h), 0);
  }

  /** The hour hand creeps forward as the minutes pass. */
  lemma HourAngleCreeps(h: int, m1: int, m2: int)
    requires h >= 0 && 0 <= m1 <= m2 <= 59
    ensures HourAngle(Time(h, m1)) <= HourAngle(Time(h, m2))
  {
    if m1 < m2 {
      MinuteAngleInTurn(m1, m2);
      var base := TrigMaxAngle * HourBase(h);
      DivMono(base + MinuteAngle(m1) * 5461, base + MinuteAngle(m2) * 5461, TrigMaxAngle);
    }
  }

  /** Through the hour the hour hand stays at or past its hour and short of the next one,
      since TRIG_MAX_ANGLE / 12 scales the creep to less than a twelfth of a turn. */
  lemma HourAngleWithinHour(h: int, m: int)
    requires h >= 0 && 0 <= m <= 59
    ensures HourBase(h) <= HourAngle(Time(h, m)) < HourBase(h + 1)
  {
    HourAngleOnTheHour(h);
    HourAngleCreeps(h, 0, m);
    HourAngleCreeps(h, m, 59);
    assert MinuteAngle(59) == 64443;
    DivModUnique(TrigMaxAngle * HourBase(h) + 64443 * 5461, TrigMaxAngle, HourBase(h) + 5369, 64443 * 5461 - 5369 * TrigMaxAngle);
  }

  /** Noon, which `tick_handler` keeps as 12, is a full turn past 0: the same position. */
  lemma NoonIsFullTurn(m: int)
    requires 0 <= m <= 59
    ensures HourAngle(Time(12, m)) == HourAngle(Time(0, m)) + TrigMaxAngle
  {
    var c := MinuteAngle(m) * (TrigMaxAngle / 12);
    assert HourBase(12) == TrigMaxAngle && HourBase(0) == 0;
    assert 0 <= MinuteAngle(m);
    DivMod(c, TrigMaxAngle);
    assert HourAngle(Time(0, m)) == c / TrigMaxAngle;
    DivModUnique(TrigMaxAngle * TrigMaxAngle + c, TrigMaxAngle, TrigMaxAngle + c / TrigMaxAngle, c % TrigMaxAngle);
  }

  /** How the macro `HAND_MARGIN_OUTER` enters the hand lengths and the gates:
      `s_radius - HAND_MARGIN_OUTER` is `s_radius - cut`, `2 * HAND_MARGIN_OUTER` is
      `hourGate` and `s_radius > HAND_MARGIN_OUTER` is `s_radius > minuteGate`. */
  datatype MarginExpansion = MarginExpansion(cut: int, hourGate: int, minuteGate: int)

  /** The text `10-(HAND_WIDTH/2)` (main.c:14) pasted without parentheses: the length is cut
      by 10 + 3, the hour gate is 2 * 10 - 3 and the minute gate is 10 - 3. */
  const AsWritten := MarginExpansion(10 + HandWidth / 2, 2 * 10 - HandWidth / 2, 10 - HandWidth / 2)

  /** The margin as a value, 10 - 3 = 7, at every use. */
  const Intended := MarginExpansion(10 - HandWidth / 2, 2 * (10 - HandWidth / 2), 10 - HandWidth / 2)

  /** `(int32_t)(s_radius - HAND_MARGIN_OUTER)` (main.c:149-150). */
  function MinuteLength(e: MarginExpansion, radius: int): int
  {
    radius - e.cut
  }

  /** `(int32_t)(s_radius - HAND_MARGIN_OUTER - (0.3 * s_radius))` (main.c:157-158) in exact
      arithmetic, truncated toward zero. */
  function HourLength(e: MarginExpansion, radius: int): int
  {
    TruncDiv(7 * radius - 10 * e.cut, 10)
  }

  /** `(s_radius - HAND_MARGIN_OUTER) > HAND_MARGIN_INNER` (main.c:166). */
  predicate HandsShown(e: MarginExpansion, radius: int)
  {
    radius - e.cut > HandMarginInner
  }

  /** `s_radius > 2 * HAND_MARGIN_OUTER` (main.c:167, 181). */
  predicate HourShown(e: MarginExpansion, radius: int)
  {
    radius > e.hourGate
  }

  /** `s_radius > HAND_MARGIN_OUTER` (main.c:174, 186). */
  predicate MinuteShown(e: MarginExpansion, radius: int)
  {
    radius > e.minuteGate
  }

  /** As written, no hand passes the outer gate up to radius 13; the minute hand's own gate
      (7) then never decides anything, and the hour hand also needs radius 18. */
  lemma AsWrittenGates(radius: int)
    ensures HandsShown(AsWritten, radius) <==> radius > 13
    ensures HandsShown(AsWritten, radius) ==> MinuteShown(AsWritten, radius)
    ensures HandsShown(AsWritten, radius) && HourShown(AsWritten, radius) <==> radius > 17
    ensures HandsShown(AsWritten, radius) ==> MinuteLength(AsWritten, radius) > 0
  {
  }

  /** As written, at radius 18 and 19 the hour hand passes every gate with length 0,
      although the gates are there to draw hands of positive length only (main.c:164). */
  lemma AsWrittenHourHandVanishes(radius: int)
    requires radius == 18 || radius == 19
    ensures HandsShown(AsWritten, radius) && HourShown(AsWritten, radius)
    ensures HourLength(AsWritten, radius) == 0
  {
  }

  /** With the margin expanded as a value, every hand that passes its gates has positive length. */
  lemma IntendedHandsHaveLength(radius: int)
    ensures HandsShown(Intended, radius) && MinuteShown(Intended, radius) ==> MinuteLength(Intended, radius) > 0
    ensures HandsShown(Intended, radius) && HourShown(Intended, radius) ==> HourLength(Intended, radius) > 0
  {
  }

  /** The end point of a hand of the given length at the given angle (main.c:148-163):
      `sin_lookup(angle) * length / TRIG_MAX_RATIO` across and `-cos_lookup(angle) * length /
      TRIG_MAX_RATIO` down from the centre, with C's truncating division. */
  function HandEnd(center: Point, angle: int, length: int, trig: Trig): Point
  {
    Point(TruncDiv(trig.sin(angle) * length, TrigMaxRatio) + center.x,
          TruncDiv(-trig.cos(angle) * length, TrigMaxRatio) + center.y)
  }

  /** |v * length / TRIG_MAX_RATIO| is at most length when |v| is at most TRIG_MAX_RATIO. */
  lemma ScaledWithin(v: int, length: int)
    requires -TrigMaxRatio <= v <= TrigMaxRatio && length >= 0
    ensures -length <= TruncDiv(v * length, TrigMaxRatio) <= length
  {
    if v >= 0 {
      MulMono(v, TrigMaxRatio, length);
      MulMono(0, v, length);
      DivModUnique(TrigMaxRatio * length, TrigMaxRatio, length, 0);
    } else {
      MulMono(-v, TrigMaxRatio, length);
      MulMono(0, -v, length);
      assert -(v * length) == (-v) * length;
      DivModUnique(TrigMaxRatio * length, TrigMaxRatio, length, 0);
    }
  }

  /** A hand of length `HAND_MARGIN_INNER` (0) ends at the centre, whatever the lookups
      return: the inner points are `s_center`. */
  lemma HandEndAtInnerMargin(center: Point, angle: int, trig: Trig)
    ensures HandEnd(center, angle, HandMarginInner, trig) == center
  {
  }

  /** A hand's end point lies within its length of the centre on both axes. */
  lemma HandEndWithin(center: Point, angle: int, length: int, trig: Trig)
    requires Bounded(trig) && length >= 0
    ensures var p := HandEnd(center, angle, length, trig);
      center.x - length <= p.x <= center.x + length && center.y - length <= p.y <= center.y + length
  {
    ScaledWithin(trig.sin(angle), length);
    ScaledWithin(-trig.cos(angle), length);
  }
}

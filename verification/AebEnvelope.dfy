/** The stopping-envelope arithmetic of the AEB prototype (HPVC/legacy/aeb_demo.py) for a
    stable track in the predicted path. Distances and speeds of the 1/32 model are scaled to
    those of a real car. */
module AebEnvelope {
  import opened Float32

  const SCALE: real := 32.0
  const SYSTEM_DELAY: real := 0.35
  const MAX_DECEL: real := 7.85
  const SAFETY_MARGIN: real := 1.0
  const MIN_SPEED_KMH: real := 10.0
  const UNKNOWN_STOP_DISTANCE: real := 0.125
  const MAX_RANGE: real := 6.0
  const MIN_TRACK_AGE: nat := 5

  const FULL_TTC: real := 0.6
  const PARTIAL_TTC: real := 1.2
  const FCW_TTC: real := 2.0
  const FULL_DECEL: real := 7.0
  const PARTIAL_DECEL: real := 4.5
  const PREFILL_DECEL: real := 3.0
  const FCW_DECEL: real := 2.0
  const FULL_GAIN: real := 1.0
  const PARTIAL_GAIN: real := 0.82
  const FCW_GAIN: real := 0.62

  /** The requested states in the order of their urgency. */
  type Level = x: int | 0 <= x <= 4

  const MONITORING: Level := 0
  const FCW: Level := 1
  const PREFILL: Level := 2
  const PARTIAL: Level := 3
  const FULL: Level := 4

  datatype Track = Track(z: real, vz: real, tofApproach: real, ultraApproach: real, inPath: bool, age: nat)

  // ---------------------------------------------------------------- the formulas

  function Square(x: real): real { x * x }

  function ToReal(x: real): real { Max(0.0, x) * SCALE }

  function StoppingDistance(vEgo: real): real
  {
    var v := ToReal(vEgo);
    Max(0.0, v * SYSTEM_DELAY + Square(v) / (2.0 * MAX_DECEL) + SAFETY_MARGIN) / SCALE
  }

  function Remaining(distance: real): (r: real)
    ensures r > 0.0
  {
    Max(0.05, ToReal(distance) - SAFETY_MARGIN)
  }

  function RequiredDecel(distance: real, closing: real): real
  {
    var c := ToReal(closing);
    if c <= 0.0 then 0.0 else Square(c) / (2.0 * Remaining(distance))
  }

  function TimeToCollision(distance: real, closing: real): real
  {
    if closing <= 0.003 then 999.0 else distance / closing
  }

  predicate EgoMoving(vEgo: real) { ToReal(vEgo) * 3.6 >= MIN_SPEED_KMH }

  function Controllable(measured: real, vEgo: real, fallback: real): real
  {
    if !EgoMoving(vEgo) then 0.0 else Max(Min(Max(0.0, measured), vEgo), Min(Max(0.0, fallback), vEgo))
  }

  function Measured(t: Track): real { Max(Max(Max(0.0, -t.vz), Max(0.0, t.tofApproach)), Max(0.0, t.ultraApproach)) }

  /** A near track whose speed is not known yet counts as closing at half the ego speed. */
  function Fallback(t: Track, vEgo: real): real
  {
    if t.inPath && t.z < 2.0 && Measured(t) < 0.05 then vEgo * 0.5 else 0.0
  }

  function Closing(t: Track, vEgo: real): real { Controllable(Measured(t), vEgo, Fallback(t, vEgo)) }

  predicate FullBy(d: real, c: real, v: real)
  {
    || d <= UNKNOWN_STOP_DISTANCE || TimeToCollision(d, c) <= FULL_TTC
    || RequiredDecel(d, c) >= FULL_DECEL || StoppingDistance(v) >= d * FULL_GAIN
  }

  predicate PartialBy(d: real, c: real, v: real)
  {
    || TimeToCollision(d, c) <= PARTIAL_TTC || RequiredDecel(d, c) >= PARTIAL_DECEL
    || StoppingDistance(v) >= d * PARTIAL_GAIN
  }

  predicate PrefillBy(d: real, c: real) { RequiredDecel(d, c) >= PREFILL_DECEL }

  predicate FcwBy(d: real, c: real, v: real)
  {
    || TimeToCollision(d, c) <= FCW_TTC || RequiredDecel(d, c) >= FCW_DECEL
    || StoppingDistance(v) >= d * FCW_GAIN
  }

  function Longitudinal(d: real, c: real, v: real): Level
  {
    if FullBy(d, c, v) then FULL
    else if PartialBy(d, c, v) then PARTIAL
    else if PrefillBy(d, c) then PREFILL
    else if FcwBy(d, c, v) then FCW
    else MONITORING
  }

  /** `assess_object` for a track in path, where the crossing and cut-in branches do not apply. */
  function Assess(t: Track, vEgo: real): Level
    requires t.inPath
  {
    if t.z > MAX_RANGE || t.age < MIN_TRACK_AGE || !EgoMoving(vEgo) then MONITORING
    else Longitudinal(Max(0.01, t.z), Closing(t, vEgo), vEgo)
  }

  // ---------------------------------------------------------------- quotients as products

  lemma QuotientAtMost(a: real, b: real, t: real)
    requires b > 0.0
    ensures a / b <= t <==> a <= t * b
  {
    ProductAtMost(a / b, b, t);
    assert a / b * b == a;
  }

  lemma ProductAtMost(q: real, b: real, t: real)
    requires b > 0.0
    ensures q <= t <==> q * b <= t * b
  {
    if q <= t { Scaled(q, t, b); } else { ScaledStrictly(t, q, b); }
  }

  lemma Scaled(x: real, y: real, b: real)
    requires x <= y && b >= 0.0
    ensures x * b <= y * b
  {
  }

  lemma ScaledStrictly(x: real, y: real, b: real)
    requires x < y && b > 0.0
    ensures x * b < y * b
  {
  }

  lemma SquareMonotone(x: real, y: real)
    requires 0.0 <= x <= y
    ensures Square(x) <= Square(y)
  {
    Scaled(x, y, x);
    Scaled(x, y, y);
  }

  lemma TtcAtMost(d: real, c: real, t: real)
    requires t < 999.0
    ensures TimeToCollision(d, c) <= t <==> c > 0.003 && d <= t * c
  {
    if c > 0.003 { QuotientAtMost(d, c, t); }
  }

  lemma DecelAtLeast(d: real, c: real, a: real)
    requires a > 0.0
    ensures RequiredDecel(d, c) >= a <==> Square(ToReal(c)) >= 2.0 * a * Remaining(d)
  {
    var x, r := ToReal(c), 2.0 * Remaining(d);
    if x > 0.0 {
      ProductAtLeast(Square(x) / r, r, a);
      assert Square(x) / r * r == Square(x);
    }
  }

  lemma ProductAtLeast(q: real, b: real, t: real)
    requires b > 0.0
    ensures q >= t <==> q * b >= t * b
  {
    if q >= t { Scaled(t, q, b); } else { ScaledStrictly(q, t, b); }
  }

  // ---------------------------------------------------------------- monotone in distance and closing

  lemma TtcMonotone(d: real, e: real, c: real, b: real, t: real)
    requires 0.0 < e <= d && 0.0 <= c <= b && 0.0 <= t < 999.0
    ensures TimeToCollision(d, c) <= t ==> TimeToCollision(e, b) <= t
  {
    TtcAtMost(d, c, t);
    TtcAtMost(e, b, t);
    Scaled(c, b, t);
  }

  lemma DecelMonotone(d: real, e: real, c: real, b: real, a: real)
    requires 0.0 < e <= d && 0.0 <= c <= b && a > 0.0
    ensures RequiredDecel(d, c) >= a ==> RequiredDecel(e, b) >= a
  {
    hide Square, RequiredDecel;
    DecelAtLeast(d, c, a);
    DecelAtLeast(e, b, a);
    SquareMonotone(ToReal(c), ToReal(b));
    Scaled(Remaining(e), Remaining(d), 2.0 * a);
    assert 2.0 * a * Remaining(e) <= 2.0 * a * Remaining(d);
  }

  lemma TestsMonotone(d: real, e: real, c: real, b: real, t: real, a: real)
    requires 0.0 < e <= d && 0.0 <= c <= b && 0.0 <= t < 999.0 && a > 0.0
    ensures TimeToCollision(d, c) <= t ==> TimeToCollision(e, b) <= t
    ensures RequiredDecel(d, c) >= a ==> RequiredDecel(e, b) >= a
  {
    hide TimeToCollision, RequiredDecel;
    TtcMonotone(d, e, c, b, t);
    DecelMonotone(d, e, c, b, a);
  }

  /** A nearer track that closes faster never gets a lower level. */
  lemma LongitudinalMonotone(d: real, e: real, c: real, b: real, v: real)
    requires 0.0 < e <= d && 0.0 <= c <= b
    ensures Longitudinal(d, c, v) <= Longitudinal(e, b, v)
  {
    hide TimeToCollision, RequiredDecel, StoppingDistance;
    TestsMonotone(d, e, c, b, FULL_TTC, FULL_DECEL);
    TestsMonotone(d, e, c, b, PARTIAL_TTC, PARTIAL_DECEL);
    TestsMonotone(d, e, c, b, FCW_TTC, PREFILL_DECEL);
    TestsMonotone(d, e, c, b, FCW_TTC, FCW_DECEL);
  }

  // ---------------------------------------------------------------- the envelope dominates

  /** Which level distance and ego speed ask for by themselves. */
  function EnvelopeLevel(d: real, v: real): Level
  {
    if d <= UNKNOWN_STOP_DISTANCE || StoppingDistance(v) >= d * FULL_GAIN then FULL
    else if StoppingDistance(v) >= d * PARTIAL_GAIN then PARTIAL
    else if StoppingDistance(v) >= d * FCW_GAIN then FCW
    else MONITORING
  }

  /** The envelope in the scale of the real car. */
  lemma EnvelopeReal(d: real, vEgo: real, gain: real)
    requires EgoMoving(vEgo)
    ensures var v := ToReal(vEgo);
            StoppingDistance(vEgo) >= d * gain <==> 0.35 * v + Square(v) / 15.7 + 1.0 >= 32.0 * (d * gain)
  {
    SquareMonotone(0.0, ToReal(vEgo));
  }

  lemma Parabola(v: real, a: real)
    ensures Square(v) >= 2.0 * a * v - a * a
  {
    assert (v - a) * (v - a) == v * v - 2.0 * a * v + a * a;
  }

  lemma LineBelowEnvelope(v: real, k: real, a: real)
    requires v >= 0.0 && k <= 0.35 + 2.0 * a / 15.7 && a * a <= 15.7
    ensures 0.35 * v + Square(v) / 15.7 + 1.0 >= k * v
  {
    var slope := 0.35 + 2.0 * a / 15.7;
    Parabola(v, a);
    Scaled(k, slope, v);
    assert slope * v == 0.35 * v + 2.0 * a * v / 15.7;
  }

  lemma GainedProduct(d: real, c: real, vEgo: real, t: real, share: real, gain: real)
    requires d <= t * c && c <= share * vEgo && t >= 0.0 && gain >= 0.0
    ensures d * gain <= t * share * gain * vEgo
  {
    Scaled(c, share * vEgo, t);
    Scaled(d, t * (share * vEgo), gain);
    assert t * (share * vEgo) * gain == t * share * gain * vEgo;
  }

  /** A time to collision of at most `t` at a closing speed of at most `share` of the ego speed
      puts the track within `gain` of the envelope. */
  lemma TtcWithinEnvelope(d: real, c: real, vEgo: real, t: real, share: real, gain: real, a: real)
    requires d > 0.0 && 0.0 <= c <= share * vEgo && EgoMoving(vEgo) && 0.0 <= t < 999.0 && 0.0 <= gain
    requires t * share * gain <= 0.35 + 2.0 * a / 15.7 && a * a <= 15.7
    requires TimeToCollision(d, c) <= t
    ensures StoppingDistance(vEgo) >= d * gain
  {
    hide TimeToCollision, StoppingDistance;
    var v, k := ToReal(vEgo), t * share * gain;
    TtcAtMost(d, c, t);
    GainedProduct(d, c, vEgo, t, share, gain);
    LineBelowEnvelope(v, k, a);
    EnvelopeReal(d, vEgo, gain);
    assert k * v == 32.0 * (k * vEgo);
  }

  /** So does a required deceleration of at least `decel`, as long as the square of the share
      leaves it within the available deceleration. */
  lemma DecelWithinEnvelope(d: real, c: real, vEgo: real, decel: real, share: real, gain: real)
    requires d > 0.0 && 0.0 <= c <= share * vEgo && EgoMoving(vEgo) && decel > 0.0 && 0.0 <= gain <= 1.0 && share >= 0.0
    requires share * share * gain * MAX_DECEL <= decel
    requires RequiredDecel(d, c) >= decel
    ensures StoppingDistance(vEgo) >= d * gain
  {
    hide RequiredDecel, StoppingDistance;
    var v, x, r := ToReal(vEgo), ToReal(c), Remaining(d);
    DecelAtLeast(d, c, decel);
    EnvelopeReal(d, vEgo, gain);
    assert x <= share * v;
    SquareMonotone(x, share * v);
    SquareMonotone(0.0, v);
    var q := Square(v);
    assert Square(share * v) == share * share * q;
    GainedDistance(r, q, decel, share * share, gain);
    Scaled(32.0 * d - 1.0, r, gain);
    assert (32.0 * d - 1.0) * gain == 32.0 * (d * gain) - gain;
  }

  lemma GainedDistance(r: real, q: real, decel: real, s: real, gain: real)
    requires decel > 0.0 && q >= 0.0 && s >= 0.0 && 0.0 <= gain
    requires s * gain * MAX_DECEL <= decel && 2.0 * decel * r <= s * q
    ensures r * gain <= q / 15.7
  {
    assert 2.0 * decel * (r * gain) <= s * gain * q by {
      Scaled(2.0 * decel * r, s * q, gain);
      assert 2.0 * decel * r * gain == 2.0 * decel * (r * gain);
      assert s * q * gain == s * gain * q;
    }
    assert s * gain * MAX_DECEL * q <= decel * q by { Scaled(s * gain * MAX_DECEL, decel, q); }
    assert s * gain * MAX_DECEL * q == MAX_DECEL * (s * gain * q);
    assert decel * (15.7 * (r * gain)) <= decel * q by {
      assert MAX_DECEL * (2.0 * decel * (r * gain)) == decel * (15.7 * (r * gain));
    }
    if r * gain > q / 15.7 { ScaledStrictly(q, 15.7 * (r * gain), decel); }
  }

  /** At up to half the ego speed the closing speed makes no difference at all: whenever a time
      to collision or a required deceleration asks for a level, the envelope asked for it. */
  lemma SlowClosingIsIrrelevant(d: real, c: real, v: real)
    requires d > 0.0 && 0.0 <= c <= 0.5 * v && EgoMoving(v)
    ensures Longitudinal(d, c, v) == EnvelopeLevel(d, v)
  {
    hide TimeToCollision, RequiredDecel, StoppingDistance;
    if TimeToCollision(d, c) <= FULL_TTC { TtcWithinEnvelope(d, c, v, FULL_TTC, 0.5, FULL_GAIN, 0.0); }
    if TimeToCollision(d, c) <= PARTIAL_TTC { TtcWithinEnvelope(d, c, v, PARTIAL_TTC, 0.5, PARTIAL_GAIN, 1.2); }
    if TimeToCollision(d, c) <= FCW_TTC { TtcWithinEnvelope(d, c, v, FCW_TTC, 0.5, FCW_GAIN, 2.2); }
    if RequiredDecel(d, c) >= FULL_DECEL { DecelWithinEnvelope(d, c, v, FULL_DECEL, 0.5, FULL_GAIN); }
    if RequiredDecel(d, c) >= PARTIAL_DECEL { DecelWithinEnvelope(d, c, v, PARTIAL_DECEL, 0.5, PARTIAL_GAIN); }
    if RequiredDecel(d, c) >= PREFILL_DECEL { DecelWithinEnvelope(d, c, v, PREFILL_DECEL, 0.5, PARTIAL_GAIN); }
    if RequiredDecel(d, c) >= FCW_DECEL { DecelWithinEnvelope(d, c, v, FCW_DECEL, 0.5, FCW_GAIN); }
  }

  /** While the scaled ego speed is at most 45 m/s, distance and ego speed alone decide a full
      brake, at any closing speed; the time to collision never decides it. */
  lemma FullBrakeIsEnvelope(d: real, c: real, vEgo: real)
    requires d > 0.0 && 0.0 <= c <= vEgo && EgoMoving(vEgo) && ToReal(vEgo) <= 45.0
    ensures Longitudinal(d, c, vEgo) == FULL <==> EnvelopeLevel(d, vEgo) == FULL
  {
    hide TimeToCollision, RequiredDecel, StoppingDistance;
    if TimeToCollision(d, c) <= FULL_TTC { TtcWithinEnvelope(d, c, vEgo, FULL_TTC, 1.0, FULL_GAIN, 2.0); }
    if RequiredDecel(d, c) >= FULL_DECEL { DecelBelow45(d, c, vEgo); }
  }

  lemma DecelBelow45(d: real, c: real, vEgo: real)
    requires d > 0.0 && 0.0 <= c <= vEgo && EgoMoving(vEgo) && ToReal(vEgo) <= 45.0
    requires RequiredDecel(d, c) >= FULL_DECEL
    ensures StoppingDistance(vEgo) >= d * FULL_GAIN
  {
    hide RequiredDecel, StoppingDistance, Square;
    var v, x := ToReal(vEgo), ToReal(c);
    assert 0.0 <= x <= v && 32.0 * (d * FULL_GAIN) - 1.0 <= Remaining(d);
    hide ToReal, Remaining;
    DecelAtLeast(d, c, FULL_DECEL);
    EnvelopeReal(d, vEgo, FULL_GAIN);
    RoomBelow45(v, x, Remaining(d));
  }

  lemma SquareAtMost(v: real, limit: real)
    requires 0.0 <= v <= limit
    ensures Square(v) <= limit * v
  {
    Scaled(v, limit, v);
  }

  lemma RoomBelow45(v: real, x: real, r: real)
    requires 0.0 <= x <= v <= 45.0 && Square(x) >= 14.0 * r
    ensures 0.35 * v + Square(v) / 15.7 >= r
  {
    hide Square;
    SquareMonotone(x, v);
    SquareAtMost(v, 45.0);
  }

  // ---------------------------------------------------------------- whole tracks

  /** A speed that one of the three measurements of a track reaches, or that does not close. */
  predicate Reaches(u: Track, x: real) { x <= 0.0 || x <= -u.vz || x <= u.tofApproach || x <= u.ultraApproach }

  /** Whatever the camera (its speed is negative when closing), the ToF sensor or the ultrasonic
      sensors measure of the first track is reached by one of them at the second. */
  predicate ClosesFaster(t: Track, u: Track)
  {
    && u.inPath && t.inPath && u.age == t.age
    && Reaches(u, -t.vz) && Reaches(u, t.tofApproach) && Reaches(u, t.ultraApproach)
  }

  lemma MeasuredIsFastest(t: Track, u: Track)
    ensures ClosesFaster(t, u) ==> Measured(t) <= Measured(u)
  {
  }

  lemma ClosingInRange(t: Track, vEgo: real)
    requires EgoMoving(vEgo)
    ensures 0.0 <= Closing(t, vEgo) <= vEgo
    ensures Closing(t, vEgo) <= 0.5 * vEgo || Closing(t, vEgo) == Min(Measured(t), vEgo)
    ensures Closing(t, vEgo) >= Min(Measured(t), vEgo)
  {
  }

  lemma LowerClosing(d: real, c: real, b: real, vEgo: real)
    requires d > 0.0 && EgoMoving(vEgo) && 0.0 <= c && 0.0 <= b && (c <= b || c <= 0.5 * vEgo)
    ensures Longitudinal(d, c, vEgo) <= Longitudinal(d, b, vEgo)
  {
    hide Longitudinal, EnvelopeLevel;
    if c <= b {
      LongitudinalMonotone(d, d, c, b, vEgo);
    } else {
      SlowClosingIsIrrelevant(d, c, vEgo);
      SlowClosingIsIrrelevant(d, 0.0, vEgo);
      LongitudinalMonotone(d, d, 0.0, b, vEgo);
    }
  }

  /** The requested level is antitone in the distance and monotone in the measured closing
      speed, although the fallback makes the closing speed itself jump down where the
      measurement becomes usable, and switches on where the track comes nearer than 2 m. */
  lemma LevelMonotone(t: Track, u: Track, vEgo: real)
    requires ClosesFaster(t, u) && u.z <= t.z
    ensures Assess(t, vEgo) <= Assess(u, vEgo)
  {
    hide Longitudinal, Closing, Measured;
    MeasuredIsFastest(t, u);
    if t.z <= MAX_RANGE && t.age >= MIN_TRACK_AGE && EgoMoving(vEgo) {
      var d, e, c, b := Max(0.01, t.z), Max(0.01, u.z), Closing(t, vEgo), Closing(u, vEgo);
      ClosingInRange(t, vEgo);
      ClosingInRange(u, vEgo);
      LowerClosing(d, c, b, vEgo);
      LongitudinalMonotone(d, e, b, b, vEgo);
    }
  }

  /** What a distance and a closing speed ask for, without a division: `ttc` seconds or less to a
      collision, or `decel` m/s^2 or more in the scale of the real car. */
  predicate Asks(d: real, c: real, ttc: real, decel: real)
  {
    || (c > 0.003 && d <= ttc * c)
    || 1024.0 * Square(c) >= 2.0 * decel * Max(0.05, 32.0 * d - 1.0)
  }

  lemma AsksMeans(d: real, c: real, ttc: real, decel: real)
    requires c >= 0.0 && d > 0.0 && ttc < 999.0 && decel > 0.0
    ensures Asks(d, c, ttc, decel) <==> TimeToCollision(d, c) <= ttc || RequiredDecel(d, c) >= decel
  {
    hide TimeToCollision, RequiredDecel;
    TtcAtMost(d, c, ttc);
    DecelAtLeast(d, c, decel);
    SquareOfScaled(c);
  }

  lemma SquareOfScaled(c: real)
    requires c >= 0.0
    ensures Square(ToReal(c)) == 1024.0 * Square(c)
  {
  }

  /** The braking distance of the ego speed, in the scale of the real car, exceeds this share of
      the distance. */
  predicate Short(d: real, vEgo: real, share: real)
  {
    0.35 * (32.0 * vEgo) + 1024.0 * Square(vEgo) / 15.7 + 1.0 >= 32.0 * (d * share)
  }

  lemma ShortMeans(d: real, vEgo: real, share: real)
    requires EgoMoving(vEgo)
    ensures Short(d, vEgo, share) <==> StoppingDistance(vEgo) >= d * share
  {
    hide StoppingDistance, Square;
    EnvelopeReal(d, vEgo, share);
    SquareOfScaled(vEgo);
  }

  /** A track in path is looked at up to 6 m, from its fifth cycle on and above 10 km/h of the real
      car; it then asks for full braking (4), partial braking (3), prefill (2) or a warning (1) by
      these limits and no others. */
  lemma AssessWrittenOut(t: Track, vEgo: real)
    requires t.inPath
    ensures var d, c := Max(0.01, t.z), Closing(t, vEgo);
            Assess(t, vEgo)
            == if t.z > 6.0 || t.age < 5 || Max(0.0, vEgo) * 115.2 < 10.0 then 0
               else if d <= 0.125 || Asks(d, c, 0.6, 7.0) || Short(d, vEgo, 1.0) then 4
               else if Asks(d, c, 1.2, 4.5) || Short(d, vEgo, 0.82) then 3
               else if 1024.0 * Square(c) >= 6.0 * Max(0.05, 32.0 * d - 1.0) then 2
               else if Asks(d, c, 2.0, 2.0) || Short(d, vEgo, 0.62) then 1
               else 0
  {
    hide TimeToCollision, RequiredDecel, StoppingDistance, Asks, Short, Closing, Square;
    if t.z <= 6.0 && t.age >= 5 && EgoMoving(vEgo) {
      var d, c := Max(0.01, t.z), Closing(t, vEgo);
      ClosingInRange(t, vEgo);
      AsksMeans(d, c, 0.6, 7.0);
      AsksMeans(d, c, 1.2, 4.5);
      AsksMeans(d, c, 2.0, 2.0);
      ShortMeans(d, vEgo, 1.0);
      ShortMeans(d, vEgo, 0.82);
      ShortMeans(d, vEgo, 0.62);
      DecelAtLeast(d, c, 3.0);
      SquareOfScaled(c);
    }
  }

  /** The closing speed is the fastest that camera, ToF sensor or ultrasonic sensors see, at most
      that of the car itself; a track nearer than 2 m that none of them sees closing at 0.05 or
      more counts as closing at least at half the ego speed. */
  lemma ClosingWrittenOut(t: Track, vEgo: real)
    requires t.inPath && EgoMoving(vEgo)
    ensures var fastest := Max(Max(0.0, -t.vz), Max(t.tofApproach, t.ultraApproach));
            Closing(t, vEgo)
            == Min(vEgo, if t.z < 2.0 && fastest < 0.05 then Max(fastest, 0.5 * vEgo) else fastest)
  {
  }

  /** Below a full brake there is room to stop: system delay, braking at the available
      deceleration, and the safety margin fit in what is left, from the full ego speed; and
      the deceleration required after the delay is below the available one. */
  lemma BelowFullLeavesRoom(t: Track, vEgo: real)
    requires t.inPath && t.z <= MAX_RANGE && t.age >= MIN_TRACK_AGE && EgoMoving(vEgo)
    requires Assess(t, vEgo) < FULL
    ensures var v, distance := ToReal(vEgo), ToReal(Max(0.01, t.z));
            && distance > 0.35 * v + Square(v) / 15.7 + 1.0
            && Square(v) / (2.0 * (distance - 1.0 - 0.35 * v)) < 7.85
    ensures RequiredDecel(Max(0.01, t.z), vEgo) < MAX_DECEL
  {
    hide StoppingDistance, RequiredDecel, TimeToCollision;
    var d, v := Max(0.01, t.z), ToReal(vEgo);
    assert !FullBy(d, Closing(t, vEgo), vEgo);
    EnvelopeReal(d, vEgo, FULL_GAIN);
    var q, room := Square(v), ToReal(d) - 1.0 - 0.35 * v;
    assert v >= 0.0 && ToReal(d) == 32.0 * (d * FULL_GAIN) && Remaining(d) >= ToReal(d) - 1.0;
    hide ToReal, Remaining;
    SquareMonotone(0.0, v);
    DecelWithRoom(q, room);
    DecelAtLeast(d, vEgo, MAX_DECEL);
  }

  lemma DecelWithRoom(q: real, room: real)
    requires q >= 0.0 && room > q / 15.7
    ensures room > 0.0 && q / (2.0 * room) < 7.85
  {
    if q / (2.0 * room) >= 7.85 {
      Scaled(7.85, q / (2.0 * room), 2.0 * room);
      assert false;
    }
  }
}

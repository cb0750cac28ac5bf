/** What the AEB decisions of the HPVC mean over whole runs: the held stop summarises the
    braking history exactly, and a more threatening world never brakes less. */
module AebSafety {
  import opened Words
  import opened Float32
  import opened Rounding
  import opened AebFusion

  /** One call of `decide`. */
  datatype Call = Call(front: Option<Front>, middle: Option<Middle>, now: real)

  function Exec(cfg: Config, m: Memory, calls: seq<Call>): Memory
    decreases |calls|
  {
    if calls == [] then m
    else
      var prefix, c := calls[..|calls| - 1], calls[|calls| - 1];
      Decide(cfg, Exec(cfg, m, prefix), c.front, c.middle, c.now).0
  }

  const START: Memory := Memory(0, 0.0)

  /** The decision taken at call `k` of a run from start. */
  function DecisionAt(cfg: Config, calls: seq<Call>, k: nat): Decision
    requires k < |calls|
  {
    Decide(cfg, Exec(cfg, START, calls[..k]), calls[k].front, calls[k].middle, calls[k].now).1
  }

  // ---------------------------------------------------------------- one decision

  /** Brake 100 exactly in FULL_BRAKE and STOP_HOLD, 65 exactly in PARTIAL_BRAKE, else none. */
  lemma BrakeFollowsState(cfg: Config, m: Memory, front: Option<Front>, middle: Option<Middle>, now: real)
    ensures var d := Decide(cfg, m, front, middle, now).1;
            && (d.brake == 100 <==> d.state == FULL_BRAKE || d.state == STOP_HOLD)
            && (d.brake == 65 <==> d.state == PARTIAL_BRAKE)
            && (d.brake == 0 <==> d.state in {CLEAR, FCW, DEGRADED, SENSOR_FAULT})
  {
  }

  /** What the decision reports as fresh is a frame whose age, in doubles, is within the limit of
      its source. */
  lemma FreshnessIsAge(cfg: Config, m: Memory, front: Option<Front>, middle: Option<Middle>, now: real)
    ensures var d := Decide(cfg, m, front, middle, now).1;
            && (d.frontFresh <==> front.Some? && Double(now - front.value.arrival) <= cfg.frontTimeout)
            && (d.middleFresh <==> middle.Some? && Double(now - middle.value.arrival) <= cfg.middleTimeout)
  {
    hide SensedThreat, PersonInPath, PersonConfidence, ClampUnit, Round;
  }

  /** Without a front frame, or with one older than the limit, the decision never brakes on its
      own, whatever ranges the frame holds: it is a fault, a degraded state, a stop still held, or
      clear, and the held stop is left as it is. */
  lemma StaleFrontNeverFullBrakes(cfg: Config, m: Memory, front: Option<Front>, middle: Option<Middle>, now: real)
    requires front.None? || Double(now - front.value.arrival) > cfg.frontTimeout
    ensures var (m', d) := Decide(cfg, m, front, middle, now);
            && m'.holdUntil == m.holdUntil
            && d.state == (if middle.None? || Double(now - middle.value.arrival) > cfg.middleTimeout then SENSOR_FAULT
                           else if PersonInPath(cfg, middle, now) then DEGRADED
                           else if now < m.holdUntil then STOP_HOLD
                           else CLEAR)
            && d.brake == if d.state == STOP_HOLD then 100 else 0
  {
    hide PersonInPath, PersonConfidence, ClampUnit, Round;
    PersonNeedsMiddle(cfg, middle, now);
  }

  /** The frame as far as its sensors are valid. */
  predicate SameValidReadings(f: Front, g: Front)
  {
    && f.arrival == g.arrival
    && LeftValid(f) == LeftValid(g) && (LeftValid(f) ==> f.left == g.left)
    && RightValid(f) == RightValid(g) && (RightValid(f) ==> f.right == g.right)
    && TofValid(f) == TofValid(g) && (TofValid(f) ==> f.tof == g.tof)
  }

  /** A slot whose valid bit is clear, whatever diagnostic it carries, never influences the
      decision; nor do the diagnostic byte, the sequence number and the sensor's clock. */
  lemma InvalidSlotsDoNotMatter(cfg: Config, m: Memory, f: Front, g: Front, middle: Option<Middle>, now: real)
    requires SameValidReadings(f, g)
    ensures Decide(cfg, m, Some(f), middle, now) == Decide(cfg, m, Some(g), middle, now)
  {
    hide Scaled, PersonInPath, PersonConfidence, ClampUnit, Round;
  }

  // ---------------------------------------------------------------- the stop that is held

  /** Some earlier full brake still holds. */
  ghost predicate HeldAt(cfg: Config, calls: seq<Call>, k: nat)
    requires k < |calls|
  {
    exists j: nat ::
      j < k && DecisionAt(cfg, calls, j).state == FULL_BRAKE && calls[k].now < Double(calls[j].now + cfg.stopHold)
  }

  /** The one number the controller keeps answers the question for every non-negative clock. */
  lemma {:induction false} HoldSummarisesHistory(cfg: Config, calls: seq<Call>, n: nat, now: real)
    requires n <= |calls| && now >= 0.0
    ensures now < Exec(cfg, START, calls[..n]).holdUntil
       <==> exists j: nat ::
              j < n && DecisionAt(cfg, calls, j).state == FULL_BRAKE && now < Double(calls[j].now + cfg.stopHold)
    decreases n
  {
    hide Decide, Round;
    if n == 0 {
    } else {
      var c, m := calls[n - 1], Exec(cfg, START, calls[..n - 1]);
      assert calls[..n][..n - 1] == calls[..n - 1];
      HoldSummarisesHistory(cfg, calls, n - 1, now);
      var (m', d) := Decide(cfg, m, c.front, c.middle, c.now);
      assert d == DecisionAt(cfg, calls, n - 1);
      assert Exec(cfg, START, calls[..n]) == m';
      HoldStep(cfg, m, c, now);
    }
  }

  lemma HoldStep(cfg: Config, m: Memory, c: Call, now: real)
    ensures var (m', d) := Decide(cfg, m, c.front, c.middle, c.now);
            now < m'.holdUntil <==> now < m.holdUntil || (d.state == FULL_BRAKE && now < Double(c.now + cfg.stopHold))
  {
    hide SensedThreat, PersonInPath, PersonConfidence, ClampUnit, FrontFresh, MiddleFresh, Round;
    SensedLevelIsSmall(cfg, c.front, FrontFresh(cfg, c.front, c.now), PersonInPath(cfg, c.middle, c.now),
                       PersonConfidence(cfg, c.middle, c.now));
  }

  /** Over every run with a non-negative clock, forward or not: a decision that is not a fault
      brakes fully exactly when it is itself a full brake or an earlier one still holds. */
  lemma StopHoldIsExact(cfg: Config, calls: seq<Call>, k: nat)
    requires k < |calls| && calls[k].now >= 0.0
    ensures var d := DecisionAt(cfg, calls, k);
            d.state !in {SENSOR_FAULT, DEGRADED} ==>
              && (d.brake == 100 <==> d.state == FULL_BRAKE || HeldAt(cfg, calls, k))
              && (d.state == STOP_HOLD <==> d.state != FULL_BRAKE && HeldAt(cfg, calls, k))
  {
    hide Exec, Decide, Round;
    HoldSummarisesHistory(cfg, calls, k, calls[k].now);
    HeldMeans(cfg, Exec(cfg, START, calls[..k]), calls[k]);
  }

  lemma HeldMeans(cfg: Config, m: Memory, c: Call)
    ensures var d := Decide(cfg, m, c.front, c.middle, c.now).1;
            d.state !in {SENSOR_FAULT, DEGRADED} ==>
              && (d.brake == 100 <==> d.state == FULL_BRAKE || c.now < m.holdUntil)
              && (d.state == STOP_HOLD <==> d.state != FULL_BRAKE && c.now < m.holdUntil)
  {
    hide SensedThreat, PersonInPath, PersonConfidence, ClampUnit, FrontFresh, MiddleFresh, Round;
    SensedLevelIsSmall(cfg, c.front, FrontFresh(cfg, c.front, c.now), PersonInPath(cfg, c.middle, c.now),
                       PersonConfidence(cfg, c.middle, c.now));
  }

  lemma SensedLevelIsSmall(cfg: Config, front: Option<Front>, frontFresh: bool, person: bool, confidence: Float)
    ensures SensedThreat(cfg, front, frontFresh, person, confidence).level <= FULL_BRAKE
  {
  }

  /** Whereas a fault releases the brake in the middle of a held stop, and the stop resumes
      once the fault is over. */
  lemma FaultInterruptsHold(cfg: Config, m: Memory, c: Call, now: real)
    ensures var (m', d) := Decide(cfg, m, c.front, c.middle, c.now);
            d.state in {SENSOR_FAULT, DEGRADED} ==> d.brake == 0 && (now < m'.holdUntil <==> now < m.holdUntil)
  {
  }

  lemma OneCallCounts(cfg: Config, m: Memory, c: Call)
    ensures Decide(cfg, m, c.front, c.middle, c.now).0.sequence == Wrap32(m.sequence + 1)
  {
  }

  lemma {:induction false} SequenceCounts(cfg: Config, m: Memory, calls: seq<Call>)
    ensures Exec(cfg, m, calls).sequence == Wrap32(m.sequence + |calls|)
    decreases |calls|
  {
    hide Decide;
    if calls == [] {
    } else {
      var prefix := calls[..|calls| - 1];
      SequenceCounts(cfg, m, prefix);
      OneCallCounts(cfg, Exec(cfg, m, prefix), calls[|calls| - 1]);
      Wrap32Add(m.sequence + |prefix|, 1);
    }
  }

  // ---------------------------------------------------------------- monotone fusion

  predicate Closer(valid: bool, f: Float, valid': bool, f': Float)
  {
    valid ==> valid' && (f.Fin? ==> f'.Fin? && f'.v <= f.v)
  }

  /** Every valid range of `f` is there in `g`, no farther away. */
  predicate MoreThreatening(f: Front, g: Front)
  {
    && Closer(LeftValid(f), f.left, LeftValid(g), g.left)
    && Closer(RightValid(f), f.right, RightValid(g), g.right)
    && Closer(TofValid(f), f.tof, TofValid(g), g.tof)
  }

  lemma NearerIsHigher(t: Thresholds, u: Thresholds, a: real, b: real)
    requires b <= a && t.full <= u.full && t.partial <= u.partial && t.fcw <= u.fcw
    ensures RangeLevel(t, a) <= RangeLevel(u, b)
  {
  }

  lemma GainWidens(x: real, gain: real)
    requires x >= 0.0 && gain >= 1.0
    ensures Product(x, 1.0) <= Product(x, gain)
  {
    assert x * 1.0 <= x * gain;
    RoundMonotone(x * 1.0, x * gain, 53);
  }

  /** The only thing asked of the configuration. */
  predicate Widens(cfg: Config)
  {
    cfg.personGain >= 1.0 && cfg.front.full >= 0.0 && cfg.front.partial >= 0.0 && cfg.front.fcw >= 0.0
  }

  lemma PersonWidens(cfg: Config, person: bool, person': bool)
    requires Widens(cfg) && (person ==> person')
    ensures var t, u := ThresholdsFor(cfg, true, person), ThresholdsFor(cfg, true, person');
            t.full <= u.full && t.partial <= u.partial && t.fcw <= u.fcw
  {
    hide Product;
    if !person && person' {
      GainWidens(cfg.front.full, cfg.personGain);
      GainWidens(cfg.front.partial, cfg.personGain);
      GainWidens(cfg.front.fcw, cfg.personGain);
    }
  }

  lemma FrameLevelMonotone(cfg: Config, f: Front, g: Front, person: bool, person': bool)
    requires Widens(cfg) && MoreThreatening(f, g) && (person ==> person')
    ensures FrameLevel(cfg, f, person) <= FrameLevel(cfg, g, person')
  {
    hide Scaled;
    PersonWidens(cfg, person, person');
    if TofValid(f) {
      NearerIsHigher(ThresholdsFor(cfg, true, person), ThresholdsFor(cfg, true, person'), f.tof.v, g.tof.v);
    }
    if LeftValid(f) { NearerIsHigher(cfg.side, cfg.side, f.left.v, g.left.v); }
    if RightValid(f) { NearerIsHigher(cfg.side, cfg.side, f.right.v, g.right.v); }
  }

  lemma ThreatIsFrameLevel(cfg: Config, f: Front, person: bool, confidence: Float)
    ensures SensedThreat(cfg, Some(f), true, person, confidence).level
         == if person then MaxLevel(FrameLevel(cfg, f, person), FCW) else FrameLevel(cfg, f, person)
  {
    hide Scaled, TofLevel, SideLevel;
  }

  /** The same moment in two worlds: both front frames fresh, the second world closer in every
      valid range and with a person in path whenever the first has one. */
  predicate Worse(cfg: Config, c: Call, d: Call)
  {
    && c.now == d.now && FrontFresh(cfg, c.front, c.now) && FrontFresh(cfg, d.front, d.now)
    && MoreThreatening(c.front.value, d.front.value)
    && (PersonInPath(cfg, c.middle, c.now) ==> PersonInPath(cfg, d.middle, d.now))
  }

  lemma DecideMonotone(cfg: Config, m: Memory, n: Memory, c: Call, d: Call)
    requires Widens(cfg) && Worse(cfg, c, d) && m.holdUntil <= n.holdUntil
    ensures Decide(cfg, m, c.front, c.middle, c.now).1.brake <= Decide(cfg, n, d.front, d.middle, d.now).1.brake
    ensures Decide(cfg, m, c.front, c.middle, c.now).0.holdUntil <= Decide(cfg, n, d.front, d.middle, d.now).0.holdUntil
  {
    hide SensedThreat, FrameLevel, PersonInPath, PersonConfidence, ClampUnit, Round;
    var p, q := PersonInPath(cfg, c.middle, c.now), PersonInPath(cfg, d.middle, d.now);
    FrameLevelMonotone(cfg, c.front.value, d.front.value, p, q);
    ThreatIsFrameLevel(cfg, c.front.value, p, PersonConfidence(cfg, c.middle, c.now));
    ThreatIsFrameLevel(cfg, d.front.value, q, PersonConfidence(cfg, d.middle, d.now));
    assert d.front == Some(d.front.value) && c.front == Some(c.front.value);
  }

  lemma {:induction false} HoldMonotone(cfg: Config, cs: seq<Call>, ds: seq<Call>)
    requires Widens(cfg) && |cs| == |ds| && forall k :: 0 <= k < |cs| ==> Worse(cfg, cs[k], ds[k])
    ensures Exec(cfg, START, cs).holdUntil <= Exec(cfg, START, ds).holdUntil
    decreases |cs|
  {
    if cs == [] {
    } else {
      var n := |cs| - 1;
      HoldMonotone(cfg, cs[..n], ds[..n]);
      DecideMonotone(cfg, Exec(cfg, START, cs[..n]), Exec(cfg, START, ds[..n]), cs[n], ds[n]);
    }
  }

  /** Over whole runs: shrinking any ranges, validating more sensors or adding persons in path,
      at any of the calls, never lowers the brake at any call. The thresholds need not be
      ordered. */
  lemma WorseWorldNeverBrakesLess(cfg: Config, cs: seq<Call>, ds: seq<Call>, k: nat)
    requires Widens(cfg) && |cs| == |ds| && forall i :: 0 <= i < |cs| ==> Worse(cfg, cs[i], ds[i])
    requires k < |cs|
    ensures DecisionAt(cfg, cs, k).brake <= DecisionAt(cfg, ds, k).brake
  {
    HoldMonotone(cfg, cs[..k], ds[..k]);
    DecideMonotone(cfg, Exec(cfg, START, cs[..k]), Exec(cfg, START, ds[..k]), cs[k], ds[k]);
  }

  /** While the front frame is stale, a worse world may brake less, and exactly when: a stop is
      being held for a fresh MIDDLE without a person, and in the second world a person steps in
      or MIDDLE goes stale as well. */
  lemma StaleFrontBrakeDrops(cfg: Config, m: Memory, front: Option<Front>, front': Option<Front>,
                             middle: Option<Middle>, middle': Option<Middle>, now: real)
    requires !FrontFresh(cfg, front, now) && !FrontFresh(cfg, front', now)
    ensures Decide(cfg, m, front', middle', now).1.brake < Decide(cfg, m, front, middle, now).1.brake
       <==> && now < m.holdUntil && MiddleFresh(cfg, middle, now) && !PersonInPath(cfg, middle, now)
            && (PersonInPath(cfg, middle', now) || !MiddleFresh(cfg, middle', now))
  {
    hide PersonInPath, PersonConfidence, ClampUnit, FrontFresh, Round;
    PersonNeedsMiddle(cfg, middle, now);
    PersonNeedsMiddle(cfg, middle', now);
  }

  lemma PersonNeedsMiddle(cfg: Config, middle: Option<Middle>, now: real)
    ensures PersonInPath(cfg, middle, now) ==> MiddleFresh(cfg, middle, now)
  {
  }

  // ---------------------------------------------------------------- confidence

  /** How sure a decision is: nothing in a fault, a fixed value for ultrasonic ranges, at least
      0.65 for the range ahead, and for a person alone that of the most confident person. */
  lemma ConfidenceMeans(cfg: Config, m: Memory, front: Option<Front>, middle: Option<Middle>, now: real)
    ensures var d := Decide(cfg, m, front, middle, now).1;
            && 0.0 <= d.confidence <= 1.0
            && (d.state == SENSOR_FAULT ==> d.confidence == 0.0)
            && (d.reason == UltrasonicClose ==> d.confidence == Double(0.6))
            && (d.reason in {TofClose, PersonWithRange} ==> d.confidence >= Double(0.65))
            && (d.reason in {PersonAhead, FrontStale} ==> d.confidence == ClampUnit(PersonConfidence(cfg, middle, now)))
            && (d.reason == ReasonClear ==> d.confidence == 1.0)
  {
    hide PersonInPath, PersonConfidence, FrontFresh, TofLevel, SideLevel, SideRange, Round;
    RoundMonotone(0.0, 0.6, 53);
    RoundMonotone(0.6, 1.0, 53);
    RoundMonotone(0.0, 0.65, 53);
    RoundMonotone(0.65, 1.0, 53);
    DoubleOfOne();
  }

  lemma DoubleOfOne()
    ensures Double(1.0) == 1.0 && Double(0.0) == 0.0
  {
    PowerIsExact(0, 53);
  }

  /** A person is in path exactly when the confidence is positive, and then it is that of a
      person that counts, the highest one. */
  lemma ConfidenceOfPerson(cfg: Config, middle: Option<Middle>, now: real)
    ensures var c := PersonConfidence(cfg, middle, now);
            && (PersonInPath(cfg, middle, now) <==> Greater(c, 0.0))
            && (PersonInPath(cfg, middle, now) ==>
                  && (exists p <- middle.value.persons :: PersonCounts(cfg, p) && p.confidence == c)
                  && forall p <- middle.value.persons :: PersonCounts(cfg, p) ==> !Above(p.confidence, c))
  {
    if middle.Some? { BestConfidenceIsHighest(cfg, middle.value.persons); }
  }

  /** The fused level without reference to the loop: it reaches `level` exactly when some valid
      sensor is within the threshold of that level or of a higher one. */
  lemma FrameLevelIsNearestThreshold(cfg: Config, f: Front, person: bool, level: Level)
    requires CLEAR < level <= FULL_BRAKE
    ensures FrameLevel(cfg, f, person) >= level
       <==> || (TofValid(f) && Within(ThresholdsFor(cfg, true, person), level, f.tof.v))
            || (LeftValid(f) && Within(cfg.side, level, f.left.v))
            || (RightValid(f) && Within(cfg.side, level, f.right.v))
  {
    hide Scaled;
  }

  predicate Within(t: Thresholds, level: Level, distance: real)
  {
    distance <= t.full || (level <= PARTIAL_BRAKE && distance <= t.partial) || (level <= FCW && distance <= t.fcw)
  }
}

/** From the operator's steering command to the pulse at the servo: how far the wheel travels in
    a run of periods, and that a command held long enough turns the wheel the way it says. */
module SteeringTurn {
  import opened Words
  import opened Float32
  import opened FrontState
  import opened FrontPackets
  import FS = FrontSafety
  import opened RemoteControl
  import opened SteeringLink

  // ---------------------------------------------------------------- a run of periods

  /** What a rate allows over periods at these clock readings, counted from the last period. */
  function Travel(rate: real, last: u32, periods: seq<u32>): (r: real)
    ensures r >= 0.0
    decreases |periods|
  {
    if periods == [] then 0.0
    else FS.Allowed(rate, (periods[0] - last) % 0x1_0000_0000) + Travel(rate, periods[0], periods[1..])
  }

  /** Every period comes at most 200 ms after the packet. */
  predicate InTime(packetMs: u32, periods: seq<u32>)
  {
    forall now <- periods :: (now - packetMs) % 0x1_0000_0000 <= 200
  }

  function LastOf(last: u32, periods: seq<u32>): u32
  {
    if periods == [] then last else periods[|periods| - 1]
  }

  /** As long as the watchdog is quiet, a run of periods brings the wheel nearer to the target by
      exactly the sum of what the rate allows, or onto it. */
  lemma {:induction false} PeriodsTravel(s: State, periods: seq<u32>)
    requires s.initialized && Abs(s.applied) <= 0.5 && Abs(s.target) <= 0.5 && InTime(s.lastPacketMs, periods)
    ensures var t := RunPeriods(s, periods);
            && Abs(t.target - t.applied)
               == Max(0.0, Abs(s.target - s.applied) - Travel(s.maxRate, s.lastApplyMs, periods))
            && FS.Between(t.applied, s.applied, s.target)
            && t == s.(applied := t.applied, lastApplyMs := LastOf(s.lastApplyMs, periods))
    decreases |periods|
  {
    hide RunOnce, FS.Allowed, InTime;
    if periods == [] {
    } else {
      var now, rest := periods[0], periods[1..];
      FirstInTime(s.lastPacketMs, periods);
      FS.PeriodMovesTowardsTarget(s, now);
      var t := RunOnce(s, now);
      Nearer(s.applied, s.target, t.applied, FS.Allowed(s.maxRate, (now - s.lastApplyMs) % 0x1_0000_0000));
      PeriodsTravel(t, rest);
    }
  }

  lemma FirstInTime(packetMs: u32, periods: seq<u32>)
    requires InTime(packetMs, periods) && periods != []
    ensures (periods[0] - packetMs) % 0x1_0000_0000 <= 200 && InTime(packetMs, periods[1..])
  {
    assert periods[0] in periods;
    forall now <- periods[1..] ensures (now - packetMs) % 0x1_0000_0000 <= 200 {
      assert now in periods;
    }
  }

  lemma Nearer(from: real, goal: real, x: real, step: real)
    requires FS.Between(x, from, goal) && Abs(x - from) == Min(Abs(goal - from), step) && step >= 0.0
    ensures Abs(goal - x) == Max(0.0, Abs(goal - from) - step)
  {
  }

  // ---------------------------------------------------------------- a command held

  /** All of them ask for the same turn, get all their datagrams out, and leave the watchdog
      quiet. */
  predicate Held(c: Commands, cfg: Config, packetMs: u32, ops: seq<Op>)
    decreases |ops|
  {
    ops == [] ||
    var op := ops[0];
    && !op.commands.emergency && op.commands.steer == c.steer && op.sends > PerPacket(cfg)
    && InTime(packetMs, op.periods) && Held(c, cfg, op.nowMs, ops[1..])
  }

  /** What two radians a second allow over all their periods. */
  function TravelOver(last: u32, ops: seq<Op>): (r: real)
    ensures r >= 0.0
    decreases |ops|
  {
    if ops == [] then 0.0
    else Travel(2.0, last, ops[0].periods) + TravelOver(LastOf(last, ops[0].periods), ops[1..])
  }

  /** The receiver is in step and obeys a turn. */
  predicate Turning(s: State, next: u32, c: Commands, cfg: Config)
  {
    && InSync(s, next) && Obeys(s, c, cfg.steerRad) && !c.emergency && Abs(s.applied) <= 0.5
    && Turnable(c, cfg.steerRad)
  }

  lemma TargetInRange(s: State, next: u32, c: Commands, cfg: Config)
    requires Turning(s, next, c, cfg)
    ensures Abs(s.target) <= 0.5 && s.maxRate == 2.0 && s.initialized
  {
  }

  lemma SameTurn(s: State, c: Commands, d: Commands, steerRad: u32)
    requires !c.emergency && !d.emergency && c.steer == d.steer
    ensures Obeys(s, c, steerRad) == Obeys(s, d, steerRad) && Turnable(c, steerRad) == Turnable(d, steerRad)
  {
  }

  lemma SameTarget(s: State, t: State, c: Commands, steerRad: u32)
    requires Obeys(s, c, steerRad) && Obeys(t, c, steerRad) && !c.emergency
    ensures s.target == t.target
  {
  }

  lemma PublishTravels(s: State, next: u32, c: Commands, cfg: Config, op: Op)
    requires Turning(s, next, c, cfg) && Held(c, cfg, s.lastPacketMs, [op])
    ensures var t := After(s, next, cfg, op);
            && Turning(t, Next(next, cfg, op), c, cfg) && t.target == s.target
            && t.lastPacketMs == op.nowMs && t.lastApplyMs == LastOf(s.lastApplyMs, op.periods)
            && Abs(t.target - t.applied)
               == Max(0.0, Abs(s.target - s.applied) - Travel(2.0, s.lastApplyMs, op.periods))
  {
    hide Obeys, Turnable, After, AcceptedIn, Travel, InTime;
    TargetInRange(s, next, c, cfg);
    PeriodsTravel(s, op.periods);
    SameTurn(s, c, op.commands, cfg.steerRad);
    PublishInSync(s, next, cfg, op);
    var t := After(s, next, cfg, op);
    SameTurn(t, c, op.commands, cfg.steerRad);
    SameTarget(s, t, c, cfg.steerRad);
  }

  /** A turn that is held brings the wheel nearer by exactly what two radians a second allow over
      all periods in between, or onto the commanded angle. */
  lemma {:induction false} HeldTurnTravels(s: State, next: u32, c: Commands, cfg: Config, ops: seq<Op>)
    requires Turning(s, next, c, cfg) && Held(c, cfg, s.lastPacketMs, ops)
    ensures var (t, after) := SteeringLink.Exec(s, next, cfg, ops);
            && Turning(t, after, c, cfg) && t.target == s.target
            && Abs(t.target - t.applied) == Max(0.0, Abs(s.target - s.applied) - TravelOver(s.lastApplyMs, ops))
    decreases |ops|
  {
    hide After, Turning, Travel, InTime;
    if ops == [] {
      WithinZero(Abs(s.target - s.applied));
    } else {
      var op, rest := ops[0], ops[1..];
      HeldAlone(c, cfg, s.lastPacketMs, ops);
      PublishTravels(s, next, c, cfg, op);
      HeldTurnTravels(After(s, next, cfg, op), Next(next, cfg, op), c, cfg, rest);
    }
  }

  lemma WithinZero(x: real)
    requires x >= 0.0
    ensures Max(0.0, x - 0.0) == x
  {
  }

  lemma HeldAlone(c: Commands, cfg: Config, packetMs: u32, ops: seq<Op>)
    requires ops != [] && Held(c, cfg, packetMs, ops)
    ensures Held(c, cfg, packetMs, [ops[0]])
  {
    assert [ops[0]][1..] == [];
  }

  // ---------------------------------------------------------------- at the servo

  /** Which way a pulse turns: shorter than 1650 us from half a milliradian to the left on, longer
      from 1/1400 rad to the right on. */
  lemma PulseTurns(angle: real)
    ensures ServoPulseUs(angle) < 1650 <==> angle >= 0.0005
    ensures ServoPulseUs(angle) > 1650 <==> -angle >= 1.0 / 1400.0
  {
    PulseIsNearest(angle);
    var share := Clamp(angle / MAX_ABS_RAD, -1.0, 1.0);
    assert share == Clamp(2.0 * angle, -1.0, 1.0);
    if share >= 0.0 {
      assert ServoPulseUs(angle) == 1650 - (share * 500.0 + 0.5).Floor;
    } else {
      assert ServoPulseUs(angle) == 1650 + (-share * 350.0 + 0.5).Floor;
    }
  }

  /** From the operator to the servo: a turn that is held long enough ends on the commanded angle,
      left at a pulse below 1650 us and right above it, straight ahead at 1650 us; the angle needs
      to be no more than what the pulse can resolve. */
  lemma HeldTurnReachesServo(s: State, next: u32, c: Commands, cfg: Config, ops: seq<Op>)
    requires Turning(s, next, c, cfg) && Held(c, cfg, s.lastPacketMs, ops) && TravelOver(s.lastApplyMs, ops) >= 1.0
    ensures var t := SteeringLink.Exec(s, next, cfg, ops).0;
            && (c.steer == SteerStraight ==> t.applied == 0.0 && ServoPulseUs(t.applied) == 1650)
            && (c.steer == SteerLeft ==>
                  && Value(cfg.steerRad) == Fin(t.applied)
                  && (Value(cfg.steerRad).v >= 0.0005 <==> ServoPulseUs(t.applied) < 1650))
            && (c.steer == SteerRight ==>
                  && Value(cfg.steerRad) == Fin(-t.applied)
                  && (Value(cfg.steerRad).v >= 1.0 / 1400.0 <==> ServoPulseUs(t.applied) > 1650))
  {
    hide Value, ServoPulseUs, After, TravelOver, SteeringLink.Exec, Held;
    var (t, after) := SteeringLink.Exec(s, next, cfg, ops);
    TargetInRange(s, next, c, cfg);
    HeldTurnTravels(s, next, c, cfg, ops);
    assert t.applied == t.target;
    PulseTurns(t.applied);
  }
}

/** What the REAR control loop keeps over every run of ticks: the references stay in range, the
    two motor channels agree, and the integrator cannot wind up. */
module RearSafety {
  import opened Words
  import opened Float32
  import opened RearBuffers
  import opened Motor
  import opened RearDrive

  /** One run of the control loop: the measured speed and the command it reads. */
  datatype Cycle = Cycle(measured: Float, cmd: DriveCmd)

  function Exec(s: State, cycles: seq<Cycle>): State
    decreases |cycles|
  {
    if cycles == [] then s else Exec(Tick(s, cycles[0].measured, cycles[0].cmd), cycles[1..])
  }

  predicate Accelerates(cmd: DriveCmd) { !Stops(cmd) && cmd.controlMode != MODE_MANUAL }

  // ---------------------------------------------------------------- the invariant

  /** Outside ACC nothing is left in the controller, and a zero reference carries no integral. */
  predicate Safe(s: State)
  {
    && 0.0 <= s.vRef <= V_MAX
    && (s.prevMode != MODE_ACC ==> s.vRef == 0.0)
    && (s.vRef == 0.0 ==> s.iTerm == 0.0)
  }

  /** Both channels drive in the same sense, both coast, or both brake at full duty. */
  predicate Agree(p: Pins) { Driving(p) || Coasting(p) || Braking(p) }

  lemma DutyInRange(u: real)
    requires 0.0 <= u
    ensures 0 <= Duty(u) <= 100
  {
    var c := Clamp(if u > U_EPS then u + DEADZONE else u, 0.0, 1.0);
    assert 0.0 <= c * 100.0 <= 100.0;
  }

  lemma TickKeepsSafe(s: State, measured: Float, cmd: DriveCmd)
    requires Safe(s)
    ensures Safe(Tick(s, measured, cmd))
  {
  }

  lemma TickAgrees(s: State, measured: Float, cmd: DriveCmd)
    ensures Agree(Tick(s, measured, cmd).pins)
  {
    var vMeas := FiniteOrZero(measured);
    if Stops(cmd) {
    } else if cmd.controlMode == MODE_MANUAL {
      DutyInRange(ManualEffort(FiniteOrZero(Value(cmd.targetSpeed))));
    } else {
      var t, a := AccEntry(s), Acceleration(cmd);
      var v := NextVRef(t.vRef, a);
      var u := Clamp(Effort(t.iTerm, a, v, v - vMeas), -1.0, 1.0);
      if u >= 0.0 { DutyInRange(u); }
    }
  }

  lemma {:induction false} ExecKeepsSafe(s: State, cycles: seq<Cycle>)
    requires Safe(s)
    ensures Safe(Exec(s, cycles))
    ensures cycles != [] ==> Agree(Exec(s, cycles).pins)
    decreases |cycles|
  {
    if cycles == [] {
    } else {
      TickKeepsSafe(s, cycles[0].measured, cycles[0].cmd);
      TickAgrees(s, cycles[0].measured, cycles[0].cmd);
      ExecKeepsSafe(Tick(s, cycles[0].measured, cycles[0].cmd), cycles[1..]);
    }
  }

  /** Every reachable state is safe, and from the first tick on the channels agree. */
  lemma ReachableIsSafe(pins: Pins, cycles: seq<Cycle>)
    ensures Safe(Exec(Boot(pins), cycles))
    ensures cycles != [] ==> Agree(Exec(Boot(pins), cycles).pins)
  {
    ExecKeepsSafe(Boot(pins), cycles);
  }

  /** ACC always re-enters clean: in a reachable state the reset at the mode change finds
      nothing to clear. */
  lemma AccReentersClean(pins: Pins, cycles: seq<Cycle>)
    ensures var s := Exec(Boot(pins), cycles);
            AccEntry(s) == s.(prevMode := MODE_ACC)
  {
    ReachableIsSafe(pins, cycles);
  }

  // ---------------------------------------------------------------- one tick

  /** The reference moves by at most 0.02 m/s per tick, except that a stop or a change to
      MANUAL drops it to zero. */
  lemma ReferenceMovesSlowly(s: State, measured: Float, cmd: DriveCmd)
    requires Safe(s)
    ensures var v := Tick(s, measured, cmd).vRef;
            if Accelerates(cmd) then Abs(v - s.vRef) <= 0.02 else v == 0.0 || v == s.vRef
    ensures s.prevMode != MODE_MANUAL && !Accelerates(cmd) ==> Tick(s, measured, cmd).vRef == 0.0
  {
    if Accelerates(cmd) {
      assert Abs(Acceleration(cmd) * DT) <= 0.02;
    }
  }

  /** What the telemetry shows after an ACC tick is the state, and the effort is saturated. */
  lemma TelemetryShowsState(s: State, measured: Float, cmd: DriveCmd)
    ensures var r := Report(s, measured, cmd);
            && -1.0 <= r.u <= 1.0
            && (Accelerates(cmd) ==>
                  r.vRef == Tick(s, measured, cmd).vRef && r.iTerm == Tick(s, measured, cmd).iTerm)
  {
  }

  /** In MANUAL the duty never exceeds 97 percent and follows the commanded speed. */
  lemma ManualDutyMonotone(v: real, w: real)
    requires v <= w
    ensures 0 <= Duty(ManualEffort(v)) <= Duty(ManualEffort(w)) <= 97
  {
    var x, y := ManualEffort(v), ManualEffort(w);
    assert 0.0 <= x <= y <= 0.82434;
    var cx := Clamp(if x > U_EPS then x + DEADZONE else x, 0.0, 1.0);
    var cy := Clamp(if y > U_EPS then y + DEADZONE else y, 0.0, 1.0);
    assert 0.0 <= cx <= cy <= 0.97434;
    assert 0.0 <= cx * 100.0 <= cy * 100.0 <= 97.434;
  }

  /** ACC brakes only on a braking effort of at least 0.25 while the car still moves, and
      always on one above 0.35; it never drives backwards. */
  lemma AccBrakesWithHysteresis(p: Pins, brakeMode: bool, u: real, vMeas: real)
    requires -1.0 <= u <= 1.0
    ensures var q := OutputPins(p, brakeMode, u, vMeas);
            && (Braking(q) ==> u <= -0.25 && vMeas >= V_BRAKE_MIN)
            && (u < -0.35 && vMeas >= V_BRAKE_MIN ==> Braking(q))
            && (u >= 0.0 ==> Driving(q) && q.dirA == CHA_FWD)
            && (u < 0.0 ==> Coasting(q) || Braking(q))
  {
    if u >= 0.0 { DutyInRange(u); }
  }

  // ---------------------------------------------------------------- anti-windup

  const MAX_FEED_FORWARD: real := 0.958
  const MAX_FEED_BACK: real := 0.1335

  lemma FeedForwardInRange(aCmd: real, vRef: real)
    requires -A_CMD_MAX <= aCmd <= A_CMD_MAX && 0.0 <= vRef <= V_MAX
    ensures -MAX_FEED_BACK <= InverseModel(aCmd, vRef) <= MAX_FEED_FORWARD
  {
  }

  /** The error never enters the upper bound below 6.6 m/s. */
  function UpperBound(e: real): real { 1.0 + MAX_FEED_BACK + Max(0.0, 0.3 * e - 2.0) }

  function LowerBound(e: real): real { -(1.0 + MAX_FEED_FORWARD + Max(0.0, 0.3 * e - 2.0)) }

  predicate Bounded(i: real, worst: real) { LowerBound(worst) <= i <= UpperBound(worst) }

  /** One integrator step, for any feed-forward in its range. */
  lemma NextITermBounded(iTerm: real, aCmd: real, vRef: real, e: real, worst: real)
    requires -A_CMD_MAX <= aCmd <= A_CMD_MAX && 0.0 <= vRef <= V_MAX
    requires Abs(e) <= worst && Bounded(iTerm, worst)
    ensures Bounded(NextITerm(iTerm, aCmd, vRef, e), worst)
  {
    FeedForwardInRange(aCmd, vRef);
    if vRef > 0.0 {
      StepBounded(iTerm, InverseModel(aCmd, vRef), e, worst);
    }
  }

  lemma StepBounded(i: real, ff: real, e: real, worst: real)
    requires -MAX_FEED_BACK <= ff <= MAX_FEED_FORWARD && Abs(e) <= worst && Bounded(i, worst)
    ensures var unsat := ff + KP * e + i;
            Bounded(i + (KI * e + KAW * (Clamp(unsat, -1.0, 1.0) - unsat)) * DT, worst)
  {
  }

  /** Every ACC tick of the run sees an error of at most `worst`. */
  predicate TracksWithin(s: State, cycles: seq<Cycle>, worst: real)
    decreases |cycles|
  {
    cycles == [] ||
    var c := cycles[0];
    && (Accelerates(c.cmd) ==>
          Abs(NextVRef(AccEntry(s).vRef, Acceleration(c.cmd)) - FiniteOrZero(c.measured)) <= worst)
    && TracksWithin(Tick(s, c.measured, c.cmd), cycles[1..], worst)
  }

  lemma {:induction false} ExecKeepsBounded(s: State, cycles: seq<Cycle>, worst: real)
    requires Safe(s) && Bounded(s.iTerm, worst) && worst >= 0.0 && TracksWithin(s, cycles, worst)
    ensures Bounded(Exec(s, cycles).iTerm, worst)
    decreases |cycles|
  {
    if cycles == [] {
    } else {
      var c := cycles[0];
      TickKeepsSafe(s, c.measured, c.cmd);
      if Accelerates(c.cmd) {
        var t, a := AccEntry(s), Acceleration(c.cmd);
        var v := NextVRef(t.vRef, a);
        NextITermBounded(t.iTerm, a, v, v - FiniteOrZero(c.measured), worst);
      }
      ExecKeepsBounded(Tick(s, c.measured, c.cmd), cycles[1..], worst);
    }
  }

  /** The back-calculation keeps the integrator bounded over every run, whatever the mode
      changes, the commands and the measured speeds. */
  lemma IntegratorNeverWindsUp(pins: Pins, cycles: seq<Cycle>, worst: real)
    requires worst >= 0.0 && TracksWithin(Boot(pins), cycles, worst)
    ensures LowerBound(worst) <= Exec(Boot(pins), cycles).iTerm <= UpperBound(worst)
    ensures worst <= 6.6 ==> -1.958 <= Exec(Boot(pins), cycles).iTerm <= 1.1335
  {
    ExecKeepsBounded(Boot(pins), cycles, worst);
  }

  predicate Plausible(cycles: seq<Cycle>)
  {
    forall k :: 0 <= k < |cycles| ==> Abs(FiniteOrZero(cycles[k].measured)) <= 5.5
  }

  lemma {:induction false} PlausibleTracks(s: State, cycles: seq<Cycle>)
    requires Safe(s) && Plausible(cycles)
    ensures TracksWithin(s, cycles, 6.6)
    decreases |cycles|
  {
    if cycles == [] {
    } else {
      var c := cycles[0];
      TickKeepsSafe(s, c.measured, c.cmd);
      assert Abs(FiniteOrZero(c.measured)) <= 5.5;
      PlausibleTracks(Tick(s, c.measured, c.cmd), cycles[1..]);
    }
  }

  /** As long as no measured speed exceeds 5.5 m/s, five times the limit of the car, the
      integrator stays in a fixed range over every run. */
  lemma IntegratorBoundedAtPlausibleSpeeds(pins: Pins, cycles: seq<Cycle>)
    requires Plausible(cycles)
    ensures -1.958 <= Exec(Boot(pins), cycles).iTerm <= 1.1335
  {
    PlausibleTracks(Boot(pins), cycles);
    IntegratorNeverWindsUp(pins, cycles, 6.6);
  }
}

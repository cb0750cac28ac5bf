/** What one tick of the REAR control loop computes, written out in the numbers of the car, and
    what a constant acceleration makes of the reference over a run. */
module RearReference {
  import opened Words
  import opened Float32
  import opened RearBuffers
  import opened Motor
  import opened RearDrive
  import opened RearSafety

  // ---------------------------------------------------------------- duty

  /** An effort is driven as so many whole percent, with 15 added from above one percent on. */
  lemma DutyMeans(u: real)
    requires 0.0 <= u <= 1.0
    ensures Duty(u) == if u > 0.85 then 100 else if u > 0.01 then (100.0 * u + 15.0).Floor else (100.0 * u).Floor
  {
    if 0.01 < u <= 0.85 { assert (u + 0.15) * 100.0 == 100.0 * u + 15.0; }
  }

  /** The duty of a commanded speed: 74.94 percent per m/s, up to 1.1 m/s. */
  lemma ManualDutyMeans(speed: Float)
    ensures var x := if speed.Fin? then 74.94 * Max(0.0, Min(1.1, speed.v)) else 0.0;
            Duty(ManualEffort(FiniteOrZero(speed))) == (if x > 1.0 then x + 15.0 else x).Floor
  {
    DutyMeans(ManualEffort(FiniteOrZero(speed)));
  }

  // ---------------------------------------------------------------- one ACC tick

  predicate AccCommand(cmd: DriveCmd)
  {
    cmd.controlMode != 0 && cmd.controlMode != 2 && cmd.emergencyStop == 0
  }

  /** The commanded acceleration within 4 m/s^2 either way; NaN and infinities count as zero. */
  function Asked(cmd: DriveCmd): real
  {
    var a := Value(cmd.accelCmd);
    if a.Fin? then Max(-4.0, Min(4.0, a.v)) else 0.0
  }

  function Measured(measured: Float): real { if measured.Fin? then measured.v else 0.0 }

  /** The reference and the integral a tick starts from: cleared on entry from another mode. */
  function StartReference(s: State): real { if s.prevMode == 1 then s.vRef else 0.0 }

  function StartIntegral(s: State): real { if s.prevMode == 1 then s.iTerm else 0.0 }

  /** The effort before saturation: 0.7494 for every m/s of reference, what 3 kg at 0.0325 m
      through a gear of 31 take of 11 V for every m/s^2, half the error, and the integral. */
  function Wanted(v: real, a: real, e: real, integral: real): real
  {
    0.7494 * v + 91.0 / 2728.0 * a + 0.5 * e + integral
  }

  lemma EffortIsWanted(integral: real, a: real, v: real, e: real)
    ensures Effort(integral, a, v, e) == Wanted(v, a, e, integral)
  {
  }

  /** The new reference follows the acceleration for 5 ms and stays within 0 to 1.1 m/s; the
      integral takes up a hundredth of the error, less a twentieth of what saturation cut off,
      and is cleared at reference zero; the telemetry shows all of it. */
  lemma AccTickWrittenOut(s: State, measured: Float, cmd: DriveCmd)
    requires AccCommand(cmd)
    ensures var t, r := Tick(s, measured, cmd), Report(s, measured, cmd);
            var e := t.vRef - Measured(measured);
            var wanted := Wanted(t.vRef, Asked(cmd), e, StartIntegral(s));
            && t.prevMode == 1 && t.vRef == Max(0.0, Min(1.1, StartReference(s) + 0.005 * Asked(cmd)))
            && t.iTerm == (if t.vRef == 0.0 then 0.0
                           else StartIntegral(s) + 0.01 * e - 0.05 * (wanted - Max(-1.0, Min(1.0, wanted))))
            && r == Telem(t.vRef, Measured(measured), Max(-1.0, Min(1.0, wanted)), Asked(cmd), t.iTerm)
  {
    hide Effort, Wanted, Duty, Value;
    var a := Acceleration(cmd);
    assert a == Asked(cmd);
    var v := NextVRef(AccEntry(s).vRef, a);
    EffortIsWanted(AccEntry(s).iTerm, a, v, v - FiniteOrZero(measured));
  }

  /** At the same reference a larger acceleration, a lower measured speed and a larger integral
      each give a larger effort, up to saturation. */
  lemma EffortIncreases(s: State, s': State, measured: Float, measured': Float, cmd: DriveCmd, cmd': DriveCmd)
    requires AccCommand(cmd) && AccCommand(cmd')
    requires StartReference(s) <= StartReference(s') && StartIntegral(s) <= StartIntegral(s')
    requires Asked(cmd) <= Asked(cmd') && Measured(measured) >= Measured(measured')
    ensures var u, u' := Report(s, measured, cmd).u, Report(s', measured', cmd').u;
            && u <= u'
            && (Asked(cmd) < Asked(cmd') ==> u < u' || u == u' == 1.0 || u == u' == -1.0)
            && (Measured(measured) > Measured(measured') ==> u < u' || u == u' == 1.0 || u == u' == -1.0)
            && (StartIntegral(s) < StartIntegral(s') ==> u < u' || u == u' == 1.0 || u == u' == -1.0)
  {
    hide Tick, Report, Asked, StartReference, StartIntegral, Measured;
    AccTickWrittenOut(s, measured, cmd);
    AccTickWrittenOut(s', measured', cmd');
  }

  /** What the effort does to the motors: forward at its duty, or, against the car, coasting while
      it is slow or the effort is small, and braking when it is large. */
  lemma AccPinsWrittenOut(s: State, measured: Float, cmd: DriveCmd)
    requires AccCommand(cmd)
    ensures var t, u := Tick(s, measured, cmd), Report(s, measured, cmd).u;
            var brake := u < -0.35 || (u <= -0.25 && s.brakeMode);
            if u >= 0.0 then
              && !t.pins.brakeA && !t.pins.brakeB && t.pins.dirA && !t.pins.dirB
              && t.pins.dutyA == t.pins.dutyB == 10 * Duty(u) && t.brakeMode == s.brakeMode
            else if Measured(measured) < 0.05 then
              Coasting(t.pins) && t.brakeMode == s.brakeMode
            else
              t.brakeMode == brake && (if brake then Braking(t.pins) else Coasting(t.pins))
  {
    hide Effort, Duty, Value, Acceleration, NextVRef, NextITerm;
  }

  /** The commanded speed within 0 to 1.1 m/s. */
  function ShownSpeed(cmd: DriveCmd): real
  {
    var v := Value(cmd.targetSpeed);
    if v.Fin? then Max(0.0, Min(1.1, v.v)) else 0.0
  }

  /** Any other command: a stop brakes at full duty, MANUAL coasts or drives either way; both clear
      the controller, MANUAL when it is entered. The telemetry shows a driven speed with the sign
      of its direction, and the effort of 0.7494 for every m/s. */
  lemma OtherTicks(s: State, measured: Float, cmd: DriveCmd)
    requires !AccCommand(cmd)
    ensures var t := Tick(s, measured, cmd);
            var r, m := Report(s, measured, cmd), Measured(measured);
            if cmd.controlMode == 2 || cmd.emergencyStop != 0 then
              && r == Telem(0.0, m, 0.0, 0.0, 0.0)
              && Braking(t.pins) && t.vRef == t.iTerm == 0.0 && t.brakeMode && t.prevMode == cmd.controlMode
            else
              && t.prevMode == 0 && t.brakeMode == s.brakeMode
              && t.vRef == (if s.prevMode == 0 then s.vRef else 0.0)
              && t.iTerm == (if s.prevMode == 0 then s.iTerm else 0.0)
              && (if cmd.driveDirection == 0 then Coasting(t.pins) && r == Telem(0.0, m, 0.0, 0.0, 0.0)
                  else
                    var v := ShownSpeed(cmd);
                    && !t.pins.brakeA && !t.pins.brakeB && t.pins.dirA == !t.pins.dirB == (cmd.driveDirection != 2)
                    && r == Telem(if cmd.driveDirection == 2 then -v else v, m, 0.7494 * v, 0.0, 0.0))
  {
    hide Duty, Value;
  }

  // ---------------------------------------------------------------- a constant acceleration

  /** ACC ticks that all ask for the same acceleration. */
  predicate AllAsk(cycles: seq<Cycle>, a: real)
  {
    forall c <- cycles :: AccCommand(c.cmd) && Asked(c.cmd) == a
  }

  /** The change of speed in so many ticks of 5 ms. */
  function Gain(a: real, ticks: nat): real { 0.005 * a * ticks as real }

  /** The reference after a run of ACC ticks at one acceleration: it ramps by 5 ms of it per tick
      until it reaches a limit, whatever is measured. */
  lemma {:induction false} ReferenceRamps(s: State, cycles: seq<Cycle>, a: real)
    requires 0.0 <= StartReference(s) <= 1.1 && AllAsk(cycles, a) && cycles != []
    ensures Exec(s, cycles).vRef == Max(0.0, Min(1.1, StartReference(s) + Gain(a, |cycles|)))
    ensures Exec(s, cycles).prevMode == 1
    decreases |cycles|
  {
    hide Tick, Asked, AccCommand, Gain, StartReference;
    var c, rest := cycles[0], cycles[1..];
    assert c in cycles;
    var t := Tick(s, c.measured, c.cmd);
    AccTickWrittenOut(s, c.measured, c.cmd);
    GainAdds(a, |rest|);
    if rest == [] {
      assert Exec(s, cycles) == t;
    } else {
      StartsThere(t);
      ReferenceRamps(t, rest, a);
      RampAgain(StartReference(s), 0.005 * a, Gain(a, |rest|));
    }
  }

  lemma StartsThere(t: State)
    requires t.prevMode == 1
    ensures StartReference(t) == t.vRef
  {
  }

  lemma GainAdds(a: real, ticks: nat)
    ensures Gain(a, ticks + 1) == 0.005 * a + Gain(a, ticks) && Gain(a, 0) == 0.0
    ensures a >= 0.0 ==> Gain(a, ticks) >= 0.0
    ensures a <= 0.0 ==> Gain(a, ticks) <= 0.0
  {
  }

  lemma RampAgain(v: real, step: real, more: real)
    requires 0.0 <= v <= 1.1 && ((step >= 0.0 && more >= 0.0) || (step <= 0.0 && more <= 0.0))
    ensures Max(0.0, Min(1.1, Max(0.0, Min(1.1, v + step)) + more)) == Max(0.0, Min(1.1, v + (step + more)))
  {
  }
}

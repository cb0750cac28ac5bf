/** The control loop of REAR CPU1 (REAR/Cpu1_Main.c): MANUAL, ACC and brake modes around a PI
    controller with feed-forward and back-calculation anti-windup. */
module RearDrive {
  import opened Words
  import opened Float32
  import opened RearBuffers
  import opened Motor

  const MODE_MANUAL: byte := 0
  const MODE_ACC: byte := 1
  const MODE_AEB: byte := 2
  const DIR_STOP: byte := 0
  const DIR_REV: byte := 2

  const DT: real := 0.005
  const A_CMD_MAX: real := 4.0
  const V_MAX: real := 1.1
  const U_EPS: real := 0.01
  const DEADZONE: real := 0.15
  const BRAKE_TH: real := 0.30
  const MODE_HYST: real := 0.05
  const V_BRAKE_MIN: real := 0.05
  const KP: real := 0.5
  const KI: real := 2.0
  const KAW: real := 10.0

  /** The statics of the control loop, and the outputs. */
  datatype State = State(vRef: real, iTerm: real, brakeMode: bool, prevMode: byte, pins: Pins)

  datatype Telem = Telem(vRef: real, vMeas: real, u: real, aCmd: real, iTerm: real)

  function Boot(pins: Pins): State { State(0.0, 0.0, false, MODE_ACC, pins.(dutyA := 0, dutyB := 0)) }

  /** NaN and infinities count as zero. */
  function FiniteOrZero(f: Float): real { if f.Fin? then f.v else 0.0 }

  function SpeedFeedForward(v: real): real { 74.94 * v / 100.0 }

  /** Mass 3 kg, wheel radius 0.0325 m, gear ratio 31, motor constant 0.012, 1.4 ohm, 11 V. */
  function InverseModel(aCmd: real, vRef: real): real
  {
    SpeedFeedForward(vRef) + 3.0 * aCmd * 0.0325 / 31.0 / 0.012 * 1.4 / 11.0
  }

  /** The duty in percent, with the dead zone of the motor compensated. */
  function Duty(u: real): int
  {
    var compensated := if u > U_EPS then u + DEADZONE else u;
    (Clamp(compensated, 0.0, 1.0) * 100.0).Floor
  }

  function ManualEffort(v: real): real { Clamp(SpeedFeedForward(Clamp(v, 0.0, V_MAX)), 0.0, 1.0) }

  predicate Stops(cmd: DriveCmd) { cmd.controlMode == MODE_AEB || cmd.emergencyStop != 0 }

  // ---------------------------------------------------------------- one tick

  function Reset(s: State): State { s.(vRef := 0.0, iTerm := 0.0) }

  function StopTick(s: State, cmd: DriveCmd): State
  {
    Reset(s).(brakeMode := true, pins := Braked(s.pins), prevMode := cmd.controlMode)
  }

  function ManualTick(s: State, cmd: DriveCmd): State
  {
    var t := (if s.prevMode != MODE_MANUAL then Reset(s) else s).(prevMode := MODE_MANUAL);
    if cmd.driveDirection == DIR_STOP then t.(pins := Coasted(s.pins))
    else
      var u := ManualEffort(FiniteOrZero(Value(cmd.targetSpeed)));
      t.(pins := Driven(s.pins, Duty(u), cmd.driveDirection != DIR_REV))
  }

  function AccEntry(s: State): State
  {
    (if s.prevMode != MODE_ACC then Reset(s) else s).(prevMode := MODE_ACC)
  }

  function Acceleration(cmd: DriveCmd): real
  {
    Clamp(FiniteOrZero(Value(cmd.accelCmd)), -A_CMD_MAX, A_CMD_MAX)
  }

  function NextVRef(vRef: real, aCmd: real): real { Clamp(vRef + aCmd * DT, 0.0, V_MAX) }

  function Effort(iTerm: real, aCmd: real, vRef: real, e: real): real { InverseModel(aCmd, vRef) + KP * e + iTerm }

  function NextITerm(iTerm: real, aCmd: real, vRef: real, e: real): real
  {
    if vRef <= 0.0 then 0.0
    else
      var unsat := Effort(iTerm, aCmd, vRef, e);
      iTerm + (KI * e + KAW * (Clamp(unsat, -1.0, 1.0) - unsat)) * DT
  }

  function NextBrakeMode(brakeMode: bool, u: real, vMeas: real): bool
  {
    if u >= 0.0 || vMeas < V_BRAKE_MIN then brakeMode
    else if -u > BRAKE_TH + MODE_HYST then true
    else if -u < BRAKE_TH - MODE_HYST then false
    else brakeMode
  }

  function OutputPins(p: Pins, brakeMode: bool, u: real, vMeas: real): Pins
  {
    if u >= 0.0 then Driven(p, Duty(u), true)
    else if vMeas < V_BRAKE_MIN || !NextBrakeMode(brakeMode, u, vMeas) then Coasted(p)
    else Braked(p)
  }

  function AccTick(s: State, vMeas: real, cmd: DriveCmd): State
  {
    var t := AccEntry(s);
    var a := Acceleration(cmd);
    var v := NextVRef(t.vRef, a);
    var u := Clamp(Effort(t.iTerm, a, v, v - vMeas), -1.0, 1.0);
    t.(vRef := v, iTerm := NextITerm(t.iTerm, a, v, v - vMeas),
       brakeMode := NextBrakeMode(s.brakeMode, u, vMeas), pins := OutputPins(s.pins, s.brakeMode, u, vMeas))
  }

  function Tick(s: State, measured: Float, cmd: DriveCmd): State
  {
    if Stops(cmd) then StopTick(s, cmd)
    else if cmd.controlMode == MODE_MANUAL then ManualTick(s, cmd)
    else AccTick(s, FiniteOrZero(measured), cmd)
  }

  function Report(s: State, measured: Float, cmd: DriveCmd): Telem
  {
    var vMeas := FiniteOrZero(measured);
    if Stops(cmd) then Telem(0.0, vMeas, 0.0, 0.0, 0.0)
    else if cmd.controlMode == MODE_MANUAL then
      if cmd.driveDirection == DIR_STOP then Telem(0.0, vMeas, 0.0, 0.0, 0.0)
      else
        var v := FiniteOrZero(Value(cmd.targetSpeed));
        var shown := Clamp(v, 0.0, V_MAX);
        Telem(if cmd.driveDirection == DIR_REV then -shown else shown, vMeas, ManualEffort(v), 0.0, 0.0)
    else
      var t := AccEntry(s);
      var a := Acceleration(cmd);
      var v := NextVRef(t.vRef, a);
      Telem(v, vMeas, Clamp(Effort(t.iTerm, a, v, v - vMeas), -1.0, 1.0), a, NextITerm(t.iTerm, a, v, v - vMeas))
  }

  // ---------------------------------------------------------------- the loop as it runs

  class ControlLoop {
    var vRef: real
    var iTerm: real
    var brakeMode: bool
    var prevMode: byte
    const motor: MotorDriver

    ghost function Abstract(): State
      reads this, motor
    {
      State(vRef, iTerm, brakeMode, prevMode, motor.Abstract())
    }

    constructor (pins: Pins)
      ensures Abstract() == Boot(pins) && fresh(motor)
    {
      vRef, iTerm, brakeMode, prevMode := 0.0, 0.0, false, MODE_ACC;
      motor := new MotorDriver(pins);
    }

    method ResetState()
      modifies this`vRef, this`iTerm
      ensures vRef == 0.0 && iTerm == 0.0
    {
      vRef := 0.0;
      iTerm := 0.0;
    }

    method DrivePwm(duty: int, forward: bool)
      modifies motor
      ensures motor.Abstract() == Driven(old(motor.Abstract()), duty, forward)
    {
      motor.MovChA(duty, if forward then CHA_FWD else !CHA_FWD);
      motor.MovChB(duty, if forward then CHB_FWD else !CHB_FWD);
    }

    method Coast()
      modifies motor
      ensures motor.Abstract() == Coasted(old(motor.Abstract()))
    {
      motor.CoastChA();
      motor.CoastChB();
    }

    method Brake()
      modifies motor
      ensures motor.Abstract() == Braked(old(motor.Abstract()))
    {
      motor.BrakeChA(100);
      motor.BrakeChB(100);
    }

    method ApplyOutput(u: real, vMeas: real)
      modifies this`brakeMode, motor
      ensures brakeMode == NextBrakeMode(old(brakeMode), u, vMeas)
      ensures motor.Abstract() == OutputPins(old(motor.Abstract()), old(brakeMode), u, vMeas)
    {
      if u >= 0.0 {
        DrivePwm(Duty(u), true);
        return;
      }
      var mag := -u;
      if vMeas < V_BRAKE_MIN {
        Coast();
        return;
      }
      if mag > BRAKE_TH + MODE_HYST {
        brakeMode := true;
      } else if mag < BRAKE_TH - MODE_HYST {
        brakeMode := false;
      }
      if brakeMode {
        Brake();
      } else {
        Coast();
      }
    }

    method RunTick(measured: Float, cmd: DriveCmd) returns (telem: Telem)
      modifies this`vRef, this`iTerm, this`brakeMode, this`prevMode, motor
      ensures Abstract() == Tick(old(Abstract()), measured, cmd)
      ensures telem == Report(old(Abstract()), measured, cmd)
    {
      var vMeas := if measured.Fin? then measured.v else 0.0;
      if cmd.controlMode == MODE_AEB || cmd.emergencyStop != 0 {
        ResetState();
        brakeMode := true;
        Brake();
        prevMode := cmd.controlMode;
        return Telem(0.0, vMeas, 0.0, 0.0, 0.0);
      }
      if cmd.controlMode == MODE_MANUAL {
        telem := RunManual(vMeas, cmd);
      } else {
        telem := RunAcc(vMeas, cmd);
      }
    }

    method RunManual(vMeas: real, cmd: DriveCmd) returns (telem: Telem)
      requires !Stops(cmd) && cmd.controlMode == MODE_MANUAL
      modifies this`vRef, this`iTerm, this`prevMode, motor
      ensures Abstract() == ManualTick(old(Abstract()), cmd)
      ensures telem == Report(old(Abstract()), Fin(vMeas), cmd)
    {
      if prevMode != MODE_MANUAL { ResetState(); }
      prevMode := MODE_MANUAL;
      var vCmd := FiniteOrZero(Value(cmd.targetSpeed));
      if cmd.driveDirection == DIR_STOP {
        Coast();
        return Telem(0.0, vMeas, 0.0, 0.0, 0.0);
      }
      var u := ManualEffort(vCmd);
      DrivePwm(Duty(u), cmd.driveDirection != DIR_REV);
      var shown := Clamp(vCmd, 0.0, V_MAX);
      telem := Telem(if cmd.driveDirection == DIR_REV then -shown else shown, vMeas, u, 0.0, 0.0);
    }

    method RunAcc(vMeas: real, cmd: DriveCmd) returns (telem: Telem)
      requires !Stops(cmd) && cmd.controlMode != MODE_MANUAL
      modifies this`vRef, this`iTerm, this`brakeMode, this`prevMode, motor
      ensures Abstract() == AccTick(old(Abstract()), vMeas, cmd)
      ensures telem == Report(old(Abstract()), Fin(vMeas), cmd)
    {
      hide Acceleration, NextVRef, NextITerm, Effort, OutputPins, NextBrakeMode;
      if prevMode != MODE_ACC { ResetState(); }
      prevMode := MODE_ACC;
      var aCmd := Acceleration(cmd);
      vRef := NextVRef(vRef, aCmd);
      var e := vRef - vMeas;
      var u := Integrate(aCmd, e);
      ApplyOutput(u, vMeas);
      telem := Telem(vRef, vMeas, u, aCmd, iTerm);
    }

    /** The PI step: returns the saturated effort and advances the integrator. */
    method Integrate(aCmd: real, e: real) returns (u: real)
      modifies this`iTerm
      ensures u == Clamp(Effort(old(iTerm), aCmd, vRef, e), -1.0, 1.0)
      ensures iTerm == NextITerm(old(iTerm), aCmd, vRef, e)
    {
      var uFf := InverseModel(aCmd, vRef);
      var uUnsat := uFf + KP * e + iTerm;
      u := Clamp(uUnsat, -1.0, 1.0);
      if vRef <= 0.0 {
        iTerm := 0.0;
      } else {
        iTerm := iTerm + (KI * e + KAW * (u - uUnsat)) * DT;
      }
    }
  }
}

/** The two motor channels of REAR (REAR/BSW/IO/Motor.c) as pins and PWM duty. */
module Motor {

  /** Direction pin, brake pin and PWM duty (0 to 1000) of each channel. */
  datatype Pins = Pins(dirA: bool, brakeA: bool, dutyA: int, dirB: bool, brakeB: bool, dutyB: int)

  const CHA_FWD: bool := true
  const CHB_FWD: bool := false

  function Driven(p: Pins, duty: int, forward: bool): Pins
  {
    p.(dirA := if forward then CHA_FWD else !CHA_FWD, brakeA := false, dutyA := duty * 10,
       dirB := if forward then CHB_FWD else !CHB_FWD, brakeB := false, dutyB := duty * 10)
  }

  function Coasted(p: Pins): Pins { p.(brakeA := false, dutyA := 0, brakeB := false, dutyB := 0) }

  function Braked(p: Pins): Pins { p.(brakeA := true, dutyA := 1000, brakeB := true, dutyB := 1000) }

  predicate Driving(p: Pins)
  {
    !p.brakeA && !p.brakeB && p.dutyA == p.dutyB && 0 <= p.dutyA <= 1000 && p.dirA != p.dirB
  }

  predicate Coasting(p: Pins) { !p.brakeA && !p.brakeB && p.dutyA == p.dutyB == 0 }

  predicate Braking(p: Pins) { p.brakeA && p.brakeB && p.dutyA == p.dutyB == 1000 }

  class MotorDriver {
    var dirA: bool
    var brakeA: bool
    var dutyA: int
    var dirB: bool
    var brakeB: bool
    var dutyB: int

    ghost function Abstract(): Pins
      reads this
    {
      Pins(dirA, brakeA, dutyA, dirB, brakeB, dutyB)
    }

    /** `Motor_Init` clears the duties only; the pins come up as they are. */
    constructor (p: Pins)
      ensures Abstract() == p.(dutyA := 0, dutyB := 0)
    {
      dirA, brakeA, dutyA := p.dirA, p.brakeA, 0;
      dirB, brakeB, dutyB := p.dirB, p.brakeB, 0;
    }

    method MovChA(duty: int, dir: bool)
      modifies this`dutyA, this`dirA, this`brakeA
      ensures dutyA == duty * 10 && dirA == dir && !brakeA
    {
      dutyA := duty * 10;
      dirA := dir;
      brakeA := false;
    }

    method MovChB(duty: int, dir: bool)
      modifies this`dutyB, this`dirB, this`brakeB
      ensures dutyB == duty * 10 && dirB == dir && !brakeB
    {
      dutyB := duty * 10;
      dirB := dir;
      brakeB := false;
    }

    method CoastChA()
      modifies this`dutyA, this`brakeA
      ensures dutyA == 0 && !brakeA
    {
      dutyA := 0;
      brakeA := false;
    }

    method CoastChB()
      modifies this`dutyB, this`brakeB
      ensures dutyB == 0 && !brakeB
    {
      dutyB := 0;
      brakeB := false;
    }

    method BrakeChA(duty: int)
      modifies this`dutyA, this`brakeA
      ensures dutyA == duty * 10 && brakeA
    {
      dutyA := duty * 10;
      brakeA := true;
    }

    method BrakeChB(duty: int)
      modifies this`dutyB, this`brakeB
      ensures dutyB == duty * 10 && brakeB
    {
      dutyB := duty * 10;
      brakeB := true;
    }
  }
}

/** The centering of the FRONT servo in the single precision arithmetic of the firmware. */
module FrontSingle {
  import opened Words
  import opened Float32
  import opened Rounding
  import Hpsc
  import opened FrontState
  import opened FrontSafety

  // ---------------------------------------------------------------- one period in float32

  function MaxStepSingle(s: State, nowMs: u32): (step: real)
    ensures step >= MIN_STEP
  {
    Max(Single(s.maxRate * Single(Single(Wrap32(nowMs - s.lastApplyMs) as real) / 1000.0)), MIN_STEP)
  }

  function AdvanceSingle(applied: real, target: real, step: real): real
  {
    Clamp(Single(applied + Clamp(Single(target - applied), -step, step)), -MAX_ABS_RAD, MAX_ABS_RAD)
  }

  function RunOnceSingle(s: State, nowMs: u32): State
  {
    var t := if WatchdogFires(s, nowMs) then FailSafe(s) else s;
    t.(lastApplyMs := nowMs, applied := AdvanceSingle(t.applied, t.target, MaxStepSingle(s, nowMs)))
  }

  function StepSingle(s: State, e: Event): State
  {
    if e.Period? then RunOnceSingle(s, e.nowMs) else Step(s, e)
  }

  function ExecSingle(s: State, es: seq<Event>): State
    decreases |es|
  {
    if es == [] then s else ExecSingle(StepSingle(s, es[0]), es[1..])
  }

  predicate QuietSingle(s: State, es: seq<Event>)
    decreases |es|
  {
    es == [] || (!Accepts(s, es[0]) && QuietSingle(StepSingle(s, es[0]), es[1..]))
  }

  /** The applied angle is a float32 within the mechanical limit. */
  predicate Sound(s: State) { Abs(s.applied) <= MAX_ABS_RAD && Single(s.applied) == s.applied }

  // ---------------------------------------------------------------- every run keeps it sound

  lemma HalfIsExact()
    ensures Single(0.5) == 0.5 && Single(-0.5) == -0.5 && Single(0.0) == 0.0
  {
    PowerIsExact(-1, 24);
    RoundOdd(0.5, 24);
  }

  lemma AdvanceIsSound(applied: real, target: real, step: real)
    ensures var a := AdvanceSingle(applied, target, step); Abs(a) <= MAX_ABS_RAD && Single(a) == a
  {
    hide Round;
    HalfIsExact();
    RoundIdempotent(applied + Clamp(Single(target - applied), -step, step), 24);
  }

  lemma AcceptKeepsApplied(s: State, p: seq<byte>, nowMs: u32)
    ensures Accept(s, p, nowMs).0.applied == s.applied
  {
    hide Value, WellFormed, CommandValid;
  }

  lemma {:induction false} TryAllKeepsApplied(s: State, f: seq<byte>, offsets: seq<nat>, nowMs: u32)
    requires InBuffer(f, offsets)
    ensures TryAll(s, f, offsets, nowMs).0.applied == s.applied
    decreases |offsets|
  {
    hide Accept;
    if offsets == [] {
    } else {
      InBufferTail(f, offsets);
      var p := f[offsets[0]..offsets[0] + Hpsc.SIZE];
      AcceptKeepsApplied(s, p, nowMs);
      TryAllKeepsApplied(Accept(s, p, nowMs).0, f, offsets[1..], nowMs);
    }
  }

  lemma StepKeepsSound(s: State, e: Event)
    requires Sound(s)
    ensures Sound(StepSingle(s, e))
  {
    hide Accept, TryAll, Attempts, AdvanceSingle, MaxStepSingle, Round;
    match e
    case Packet(p, nowMs) => AcceptKeepsApplied(s, p, nowMs);
    case Frame(f, length, nowMs) => TryAllKeepsApplied(s, f, Attempts(f, length), nowMs);
    case Period(nowMs) =>
      var t := if WatchdogFires(s, nowMs) then FailSafe(s) else s;
      AdvanceIsSound(t.applied, t.target, MaxStepSingle(s, nowMs));
  }

  lemma {:induction false} ExecKeepsSound(s: State, es: seq<Event>)
    requires Sound(s)
    ensures Sound(ExecSingle(s, es))
    decreases |es|
  {
    hide StepSingle, Sound;
    if es == [] {
    } else {
      StepKeepsSound(s, es[0]);
      ExecKeepsSound(StepSingle(s, es[0]), es[1..]);
    }
  }

  // ---------------------------------------------------------------- one centering step

  /** What a period takes off the magnitude at least, rounding included. */
  const PROGRESS: real := 0.001 - 0.0000001

  lemma RoundingIsSmall(x: real)
    requires Abs(x) <= 1.0
    ensures Abs(Single(x) - x) <= 0.00000005
  {
    hide Round;
    ErrorBelowOne(x, 24);
    ScaleOf24(24);
  }

  lemma ScaleOf24(n: nat)
    requires n == 24
    ensures Scale(0 - n) / 2.0 <= 0.00000005
  {
    hide Scale;
    ScaleAdd(0 - n, n);
    ScaleOfZero(0);
    PowOf24(n);
  }

  lemma PowOf24(n: nat)
    requires n == 24
    ensures Pow2(n) == 16777216
  {
    hide Pow2;
    PowOf12();
    PowAdd(12, 12);
  }

  lemma PowOf12()
    ensures Pow2(12) == 4096
  {
  }

  lemma PositiveCenters(a: real, step: real)
    requires 0.0 < a <= MAX_ABS_RAD && Single(a) == a && step >= MIN_STEP
    ensures 0.0 <= AdvanceSingle(a, 0.0, step) <= Max(0.0, a - PROGRESS)
  {
    hide Round;
    HalfIsExact();
    RoundOdd(a, 24);
    assert Single(0.0 - a) == -a;
    if a > step {
      RoundingIsSmall(a - step);
      RoundMonotone(0.0, a - step, 24);
    }
  }

  lemma AdvanceOdd(a: real, step: real)
    requires step > 0.0
    ensures AdvanceSingle(-a, 0.0, step) == -AdvanceSingle(a, 0.0, step)
  {
    hide Round;
    var e := Clamp(Single(0.0 - a), -step, step);
    RoundOdd(0.0 - a, 24);
    assert 0.0 - (0.0 - a) == a && -(0.0 - a) == 0.0 - -a;
    RoundOdd(a + e, 24);
    assert -(a + e) == -a + -e;
  }

  lemma PeriodCenters(a: real, step: real)
    requires Abs(a) <= MAX_ABS_RAD && Single(a) == a && step >= MIN_STEP
    ensures Abs(AdvanceSingle(a, 0.0, step)) <= Max(0.0, Abs(a) - PROGRESS)
  {
    hide Round, AdvanceSingle;
    if a > 0.0 {
      PositiveCenters(a, step);
    } else if a < 0.0 {
      RoundOdd(a, 24);
      PositiveCenters(-a, step);
      AdvanceOdd(-a, step);
    } else {
      ZeroStays(step);
    }
  }

  lemma ZeroStays(step: real)
    requires step > 0.0
    ensures AdvanceSingle(0.0, 0.0, step) == 0.0
  {
  }

  // ---------------------------------------------------------------- runs

  lemma LatchedStep(s: State, e: Event)
    requires Latched(s) && Sound(s) && !Accepts(s, e)
    ensures Latched(StepSingle(s, e))
    ensures Abs(StepSingle(s, e).applied) <= if e.Period? then Max(0.0, Abs(s.applied) - PROGRESS) else Abs(s.applied)
  {
    hide AdvanceSingle, MaxStepSingle, Round, Accept, AcceptFrame;
    if e.Period? {
      PeriodCenters(s.applied, MaxStepSingle(s, e.nowMs));
    } else {
      RefusedStep(s, e);
    }
  }

  lemma {:induction false} LatchPersistsSingle(s: State, es: seq<Event>)
    requires Latched(s) && Sound(s) && QuietSingle(s, es)
    ensures Latched(ExecSingle(s, es))
    ensures Abs(ExecSingle(s, es).applied) <= Max(0.0, Abs(s.applied) - PROGRESS * Periods(es) as real)
    decreases |es|
  {
    hide StepSingle, Accepts, Sound, Latched;
    if es == [] {
    } else {
      LatchedStep(s, es[0]);
      StepKeepsSound(s, es[0]);
      LatchPersistsSingle(StepSingle(s, es[0]), es[1..]);
    }
  }

  lemma FiringLatchesSingle(s: State, nowMs: u32)
    requires WatchdogFires(s, nowMs) && Sound(s)
    ensures Latched(RunOnceSingle(s, nowMs))
    ensures Abs(RunOnceSingle(s, nowMs).applied) <= Max(0.0, Abs(s.applied) - PROGRESS)
  {
    hide AdvanceSingle, MaxStepSingle, Round;
    PeriodCenters(s.applied, MaxStepSingle(s, nowMs));
  }

  /** In the arithmetic of the firmware, from any state it can reach: once the watchdog has
      fired, the fail-safe persists, the angle never grows, and it is exactly zero after 501
      periods without an accepted packet, the one in which it fires included, at any clock
      readings. Rounding costs at most one period. */
  lemma WatchdogCentersWithin501PeriodsInSingle(bootMs: u32, before: seq<Event>, nowMs: u32, after: seq<Event>)
    ensures var b := ExecSingle(Boot(bootMs), before);
            var s := RunOnceSingle(b, nowMs);
            var t := ExecSingle(s, after);
            WatchdogFires(b, nowMs) && QuietSingle(s, after) ==>
              && Latched(s) && Latched(t) && Abs(t.applied) <= Abs(s.applied) <= Abs(b.applied)
              && (1 + Periods(after) >= 501 ==> t.applied == 0.0)
  {
    hide ExecSingle, RunOnceSingle, Latched, QuietSingle, WatchdogFires, Round;
    var b := ExecSingle(Boot(bootMs), before);
    BootIsSound(bootMs);
    ExecKeepsSound(Boot(bootMs), before);
    PeriodKeepsSound(b, nowMs);
    if WatchdogFires(b, nowMs) && QuietSingle(RunOnceSingle(b, nowMs), after) {
      FiringLatchesSingle(b, nowMs);
      LatchPersistsSingle(RunOnceSingle(b, nowMs), after);
    }
  }

  lemma BootIsSound(bootMs: u32)
    ensures Sound(Boot(bootMs))
  {
    HalfIsExact();
  }

  lemma PeriodKeepsSound(s: State, nowMs: u32)
    requires Sound(s)
    ensures Sound(RunOnceSingle(s, nowMs))
  {
    StepKeepsSound(s, Period(nowMs));
  }
}

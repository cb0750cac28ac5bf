/** What holds of the FRONT receiver over every run: packets, frames and servo periods in any
    order, with any contents and any clock readings. */
module FrontSafety {
  import opened Words
  import opened Float32
  import opened Hpsc
  import opened FrontState

  type RxBuffer = f: seq<byte> | |f| == RX_BUFFER_SIZE witness seq(RX_BUFFER_SIZE, i => 0)
  type RxLength = n: nat | n <= RX_BUFFER_SIZE

  datatype Event =
    | Packet(payload: seq<byte>, nowMs: u32)
    | Frame(frame: RxBuffer, length: RxLength, nowMs: u32)
    | Period(nowMs: u32)

  function Step(s: State, e: Event): State
  {
    match e
    case Packet(p, nowMs) => Accept(s, p, nowMs).0
    case Frame(f, length, nowMs) => AcceptFrame(s, f, length, nowMs).0
    case Period(nowMs) => RunOnce(s, nowMs)
  }

  predicate Accepts(s: State, e: Event)
  {
    match e
    case Packet(p, nowMs) => Accept(s, p, nowMs).1
    case Frame(f, length, nowMs) => AcceptFrame(s, f, length, nowMs).1
    case Period(nowMs) => false
  }

  function Exec(s: State, es: seq<Event>): State
    decreases |es|
  {
    if es == [] then s else Exec(Step(s, es[0]), es[1..])
  }

  // ---------------------------------------------------------------- the safety invariant

  predicate Safe(s: State)
  {
    && (s.commandValid ==> s.linkValid && !s.emergencyCenter)
    && (!s.commandValid ==> s.target == 0.0)
    && (s.linkValid ==> s.initialized)
    && Abs(s.target) <= MAX_ABS_RAD && Abs(s.applied) <= MAX_ABS_RAD
    && MIN_RATE <= s.maxRate <= MAX_RATE
  }

  lemma AcceptTargetSafe(s: State, sequence: u32, angle: real, rate: real, valid: bool, center: bool, nowMs: u32)
    requires Safe(s)
    ensures Safe(AcceptTarget(s, sequence, angle, rate, valid, center, nowMs))
  {
  }

  lemma AcceptSafe(s: State, p: seq<byte>, nowMs: u32)
    requires Safe(s)
    ensures Safe(Accept(s, p, nowMs).0)
  {
    if WellFormed(p) {
      var sequence := U32Le(p, 8);
      AcceptTargetSafe(s, sequence, 0.0, DEFAULT_MAX_RATE, false, true, nowMs);
      AcceptTargetSafe(s, sequence, 0.0, DEFAULT_MAX_RATE, false, false, nowMs);
      if CommandValid(p) {
        AcceptTargetSafe(s, sequence, Value(U32Le(p, 20)).v, Value(U32Le(p, 24)).v, true, false, nowMs);
      }
    }
  }

  lemma {:induction false} TryAllSafe(s: State, f: seq<byte>, offsets: seq<nat>, nowMs: u32)
    requires Safe(s) && InBuffer(f, offsets)
    ensures Safe(TryAll(s, f, offsets, nowMs).0)
    decreases |offsets|
  {
    if offsets == [] {
    } else {
      InBufferTail(f, offsets);
      var p := f[offsets[0]..offsets[0] + SIZE];
      AcceptSafe(s, p, nowMs);
      TryAllSafe(Accept(s, p, nowMs).0, f, offsets[1..], nowMs);
    }
  }

  lemma RunOnceSafe(s: State, nowMs: u32)
    requires Safe(s)
    ensures Safe(RunOnce(s, nowMs))
  {
  }

  lemma StepSafe(s: State, e: Event)
    requires Safe(s)
    ensures Safe(Step(s, e))
  {
    match e
    case Packet(p, nowMs) => AcceptSafe(s, p, nowMs);
    case Frame(f, length, nowMs) => TryAllSafe(s, f, Attempts(f, length), nowMs);
    case Period(nowMs) => RunOnceSafe(s, nowMs);
  }

  lemma {:induction false} ExecSafe(s: State, es: seq<Event>)
    requires Safe(s)
    ensures Safe(Exec(s, es))
    decreases |es|
  {
    if es == [] {
    } else {
      StepSafe(s, es[0]);
      ExecSafe(Step(s, es[0]), es[1..]);
    }
  }

  /** No command is in force unless the link is up and no emergency center is pending; without
      a command the target is straight ahead; all angles stay within the mechanical limit. */
  lemma ReachableIsSafe(bootMs: u32, es: seq<Event>)
    ensures Safe(Exec(Boot(bootMs), es))
  {
    ExecSafe(Boot(bootMs), es);
  }

  /** The events of a run that act on a packet. */
  function AcceptingEvents(s: State, es: seq<Event>): nat
    decreases |es|
  {
    if es == [] then 0 else (if Accepts(s, es[0]) then 1 else 0) + AcceptingEvents(Step(s, es[0]), es[1..])
  }

  lemma AcceptCounts(s: State, p: seq<byte>, nowMs: u32)
    ensures var (t, ok) := Accept(s, p, nowMs); t.accepted == if ok then Wrap32(s.accepted + 1) else s.accepted
  {
    hide WellFormed, CommandValid;
  }

  lemma {:induction false} TryAllCounts(s: State, f: seq<byte>, offsets: seq<nat>, nowMs: u32)
    requires InBuffer(f, offsets)
    ensures var (t, ok) := TryAll(s, f, offsets, nowMs);
            t.accepted == if ok then Wrap32(s.accepted + 1) else s.accepted
    decreases |offsets|
  {
    hide Accept;
    if offsets == [] {
    } else {
      InBufferTail(f, offsets);
      AcceptCounts(s, f[offsets[0]..offsets[0] + SIZE], nowMs);
      TryAllCounts(Accept(s, f[offsets[0]..offsets[0] + SIZE], nowMs).0, f, offsets[1..], nowMs);
    }
  }

  lemma StepCounts(s: State, e: Event)
    ensures Step(s, e).accepted == if Accepts(s, e) then Wrap32(s.accepted + 1) else s.accepted
  {
    hide Accept, TryAll;
    if e.Packet? { AcceptCounts(s, e.payload, e.nowMs); }
    if e.Frame? { TryAllCounts(s, e.frame, Attempts(e.frame, e.length), e.nowMs); }
  }

  lemma {:induction false} AcceptedFrom(s: State, es: seq<Event>)
    ensures Exec(s, es).accepted == Wrap32(s.accepted + AcceptingEvents(s, es))
    decreases |es|
  {
    hide Step, Accepts;
    if es == [] {
    } else {
      StepCounts(s, es[0]);
      AcceptedFrom(Step(s, es[0]), es[1..]);
      Wrap32Add(s.accepted + 1, AcceptingEvents(Step(s, es[0]), es[1..]));
    }
  }

  /** Over every run from boot the accept counter is the number of packets acted on, modulo 2^32,
      a frame counting at most once. */
  lemma AcceptedCounts(bootMs: u32, es: seq<Event>)
    ensures Exec(Boot(bootMs), es).accepted == AcceptingEvents(Boot(bootMs), es) % 0x1_0000_0000
  {
    AcceptedFrom(Boot(bootMs), es);
  }

  // ---------------------------------------------------------------- one servo period

  predicate Between(x: real, a: real, b: real)
  {
    a <= x <= b || b <= x <= a
  }

  /** What a rate in radians a second allows in so many milliseconds, but no less than 0.001f. */
  function Allowed(rate: real, dtMs: int): real
  {
    Max(8589935.0 / 8589934592.0, rate * dtMs as real / 1000.0)
  }

  /** One period, written out. The watchdog counts milliseconds since the last packet, and takes
      the command away after more than 200; the wheel moves towards the target by what the rate
      allows in the time since the last period, or reaches it. */
  lemma PeriodMovesTowardsTarget(s: State, nowMs: u32)
    requires Abs(s.applied) <= 0.5 && Abs(s.target) <= 0.5
    ensures var t := RunOnce(s, nowMs);
            var lost := !s.initialized || (nowMs - s.lastPacketMs) % 0x1_0000_0000 > 200;
            var goal := if lost then 0.0 else s.target;
            var dtMs := (nowMs - s.lastApplyMs) % 0x1_0000_0000;
            && Between(t.applied, s.applied, goal)
            && Abs(t.applied - s.applied)
               == Min(Abs(goal - s.applied), Allowed(s.maxRate, dtMs))
            && t == s.(applied := t.applied, lastApplyMs := nowMs, target := goal,
                       linkValid := s.linkValid && !lost, commandValid := s.commandValid && !lost,
                       emergencyCenter := s.emergencyCenter || lost)
  {
    hide Advance, MaxStep, Allowed;
    StepIsAllowed(s, nowMs);
    AdvanceLimited(s.applied, s.target, MaxStep(s, nowMs));
    AdvanceLimited(s.applied, 0.0, MaxStep(s, nowMs));
  }

  lemma AdvanceLimited(applied: real, target: real, step: real)
    requires Abs(applied) <= 0.5 && Abs(target) <= 0.5 && step >= 0.0
    ensures Between(Advance(applied, target, step), applied, target)
    ensures Abs(Advance(applied, target, step) - applied) == Min(Abs(target - applied), step)
  {
  }

  lemma StepIsAllowed(s: State, nowMs: u32)
    ensures MaxStep(s, nowMs) == Allowed(s.maxRate, (nowMs - s.lastApplyMs) % 0x1_0000_0000) >= MIN_STEP
  {
    RatePerPeriod(s.maxRate, Wrap32(nowMs - s.lastApplyMs));
  }

  lemma RatePerPeriod(rate: real, dtMs: u32)
    ensures RateStep(rate, dtMs) == rate * dtMs as real / 1000.0
  {
  }

  // ---------------------------------------------------------------- the servo pulse

  lemma PulseInRange(angle: real)
    ensures LEFT_US <= ServoPulseUs(angle) == AngleToPulseUs(angle) <= RIGHT_US
    ensures ServoPulseUs(0.0) == CENTER_US
    ensures angle >= MAX_ABS_RAD ==> ServoPulseUs(angle) == LEFT_US
    ensures angle <= -MAX_ABS_RAD ==> ServoPulseUs(angle) == RIGHT_US
  {
  }

  /** A larger angle (more to the left) never gives a longer pulse. */
  lemma PulseAntitone(a: real, b: real)
    requires a <= b
    ensures ServoPulseUs(b) <= ServoPulseUs(a)
  {
    PulseInRange(a);
    PulseInRange(b);
    var x, y := Clamp(a / MAX_ABS_RAD, -1.0, 1.0), Clamp(b / MAX_ABS_RAD, -1.0, 1.0);
    assert x <= y;
  }

  // ---------------------------------------------------------------- refused packets

  /** Nothing but the reject counter moves when a packet is not accepted: an invalid packet
      neither centers the steering nor keeps the watchdog quiet. */
  lemma RefusedChangesOnlyCounter(s: State, p: seq<byte>, nowMs: u32)
    requires !Accept(s, p, nowMs).1
    ensures Accept(s, p, nowMs).0 in {s, Reject(s)}
  {
  }

  lemma {:induction false} RefusedFrameChangesOnlyCounter(s: State, f: seq<byte>, offsets: seq<nat>, nowMs: u32)
    requires InBuffer(f, offsets) && !TryAll(s, f, offsets, nowMs).1
    ensures var t := TryAll(s, f, offsets, nowMs).0; t == s.(rejected := t.rejected)
    decreases |offsets|
  {
    if offsets == [] {
    } else {
      InBufferTail(f, offsets);
      var p := f[offsets[0]..offsets[0] + SIZE];
      RefusedChangesOnlyCounter(s, p, nowMs);
      RefusedFrameChangesOnlyCounter(Accept(s, p, nowMs).0, f, offsets[1..], nowMs);
    }
  }

  lemma RefusedStep(s: State, e: Event)
    requires !e.Period? && !Accepts(s, e)
    ensures var t := Step(s, e); t == s.(rejected := t.rejected)
  {
    match e
    case Packet(p, nowMs) => RefusedChangesOnlyCounter(s, p, nowMs);
    case Frame(f, length, nowMs) => RefusedFrameChangesOnlyCounter(s, f, Attempts(f, length), nowMs);
  }

  // ---------------------------------------------------------------- the watchdog latch

  predicate Latched(s: State)
  {
    !s.linkValid && !s.commandValid && s.emergencyCenter && s.target == 0.0
  }

  /** A run in which no packet is accepted. Refused packets and clock readings are arbitrary. */
  predicate Quiet(s: State, es: seq<Event>)
    decreases |es|
  {
    es == [] || (!Accepts(s, es[0]) && Quiet(Step(s, es[0]), es[1..]))
  }

  function Periods(es: seq<Event>): nat
  {
    if es == [] then 0 else (if es[0].Period? then 1 else 0) + Periods(es[1..])
  }

  /** The period in which the watchdog fires already moves towards the center. */
  lemma FiringLatches(s: State, nowMs: u32)
    requires WatchdogFires(s, nowMs)
    ensures Latched(RunOnce(s, nowMs))
    ensures Safe(s) ==> Abs(RunOnce(s, nowMs).applied) <= Max(0.0, Abs(s.applied) - MIN_STEP)
  {
  }

  lemma LatchedPeriod(s: State, nowMs: u32)
    requires Latched(s) && Safe(s)
    ensures Latched(RunOnce(s, nowMs))
    ensures Abs(RunOnce(s, nowMs).applied) <= Max(0.0, Abs(s.applied) - MIN_STEP)
  {
  }

  lemma CentersEachPeriod(s: State, e: Event)
    requires Latched(s) && Safe(s) && !Accepts(s, e)
    ensures Latched(Step(s, e))
    ensures Abs(Step(s, e).applied) <= if e.Period? then Max(0.0, Abs(s.applied) - MIN_STEP) else Abs(s.applied)
  {
    hide RunOnce, Accept, AcceptFrame, Safe;
    if e.Period? {
      LatchedPeriod(s, e.nowMs);
    } else {
      RefusedStep(s, e);
    }
  }

  /** What so many periods take off the angle at least. */
  function LeastTravel(periods: nat): real { MIN_STEP * periods as real }

  lemma TravelAdds(periods: nat)
    ensures LeastTravel(periods + 1) == MIN_STEP + LeastTravel(periods) && LeastTravel(periods) >= 0.0
    ensures periods >= 500 ==> LeastTravel(periods) >= MAX_ABS_RAD
    ensures periods >= 499 ==> MIN_STEP + LeastTravel(periods) >= MAX_ABS_RAD
    ensures LeastTravel(0) == 0.0
  {
  }

  lemma AppliedInRange(s: State)
    requires Safe(s)
    ensures Abs(s.applied) <= MAX_ABS_RAD
  {
  }

  /** Once the watchdog has fired, no clock reading revives the command, not even one that
      wraps around and makes the last packet look fresh; and the wheel returns to center. */
  lemma {:induction false} LatchPersists(s: State, es: seq<Event>)
    requires Latched(s) && Safe(s) && Quiet(s, es)
    ensures Latched(Exec(s, es))
    ensures Abs(Exec(s, es).applied) <= Max(0.0, Abs(s.applied) - LeastTravel(Periods(es)))
    ensures Periods(es) >= 500 ==> Exec(s, es).applied == 0.0
    decreases |es|
  {
    hide Step, Accepts, Safe, Latched, LeastTravel;
    AppliedInRange(s);
    TravelAdds(Periods(es));
    if es == [] {
    } else {
      var t := Step(s, es[0]);
      StepSafe(s, es[0]);
      CentersEachPeriod(s, es[0]);
      LatchPersists(t, es[1..]);
      TravelAdds(Periods(es[1..]));
    }
  }

  /** The same from any reachable state, in one statement: centered after 500 periods, the one
      in which the watchdog fires included. */
  lemma WatchdogCentersWithin500Periods(bootMs: u32, before: seq<Event>, nowMs: u32, after: seq<Event>)
    requires WatchdogFires(Exec(Boot(bootMs), before), nowMs)
    requires Quiet(RunOnce(Exec(Boot(bootMs), before), nowMs), after)
    ensures var b := Exec(Boot(bootMs), before);
            var s := RunOnce(b, nowMs);
            var t := Exec(s, after);
            && Latched(s) && Latched(t)
            && Abs(t.applied) <= Abs(s.applied) <= Abs(b.applied)
            && (1 + Periods(after) >= 500 ==> t.applied == 0.0)
  {
    hide Exec, Boot, RunOnce, WatchdogFires, Quiet, Latched, Periods, LeastTravel;
    TravelAdds(Periods(after));
    var s := Exec(Boot(bootMs), before);
    ReachableIsSafe(bootMs, before);
    FiringLatches(s, nowMs);
    RunOnceSafe(s, nowMs);
    LatchPersists(RunOnce(s, nowMs), after);
  }
}

/** The state machine of the AEB prototype (HPVC/legacy/aeb_demo.py): it turns the requested
    state of each cycle into a brake, holds a stop for one second, and returns to monitoring
    only after five clear cycles. */
module AebStateMachine {
  import opened Words

  datatype AebState = Off | Standby | Monitoring | Fcw | Prefill | Partial | Full | StopHold | Release | Degraded
                    | SensorFault

  const CLEAR_CONFIRM_COUNT: nat := 5
  const STOP_HOLD_SEC: real := 1.0
  const STOP_HOLD_DISTANCE: real := 0.09375

  datatype Request = Request(desired: AebState, brake: int, distance: Option<real>)

  /** One cycle: the assessed risk, the driver's override, and the clock. */
  datatype Call = Call(request: Request, driverOverride: bool, now: real)

  datatype Machine = Machine(state: AebState, clearCount: nat, holdStart: Option<real>)

  const START: Machine := Machine(Standby, 0, None)

  predicate NearStop(r: Request) { r.distance.Some? && r.distance.value <= STOP_HOLD_DISTANCE }

  predicate Active(s: AebState) { s in {Fcw, Prefill, Partial, Full, Release, Degraded} }

  predicate StillHeld(m: Machine, now: real)
  {
    m.state == StopHold && m.holdStart.Some? && now - m.holdStart.value < STOP_HOLD_SEC
  }

  function Clearing(m: Machine): (Machine, int)
  {
    if Active(m.state) then
      var n := m.clearCount + 1;
      if n >= CLEAR_CONFIRM_COUNT then (m.(state := Monitoring, clearCount := 0), 0)
      else (m.(clearCount := n), if m.state == Partial then 30 else if m.state == Prefill then 10 else 0)
    else (m.(state := Monitoring), 0)
  }

  function Next(m: Machine, c: Call): (Machine, int)
  {
    var r := c.request;
    if c.driverOverride then (m.(state := Release, clearCount := 0), 0)
    else if r.desired == SensorFault then (m.(state := SensorFault, clearCount := 0), 0)
    else if r.desired == Full then
      if NearStop(r) then (Machine(StopHold, 0, Some(c.now)), 100) else (m.(state := Full, clearCount := 0), 100)
    else if m.state == StopHold then
      if StillHeld(m, c.now) then (m, 100) else (m.(state := Release), 0)
    else if r.desired in {Partial, Prefill, Fcw, Degraded} then (m.(state := r.desired, clearCount := 0), r.brake)
    else if r.desired == Monitoring then Clearing(m)
    else (m.(state := r.desired), r.brake)
  }

  class StateMachine {
    var state: AebState
    var clearCount: nat
    var holdStart: Option<real>

    ghost function Abstract(): Machine
      reads this
    {
      Machine(state, clearCount, holdStart)
    }

    constructor ()
      ensures Abstract() == START
    {
      state, clearCount, holdStart := Standby, 0, None;
    }

    method Update(c: Call) returns (brake: int)
      modifies this
      ensures (Abstract(), brake) == Next(old(Abstract()), c)
    {
      var desired := c.request.desired;
      if c.driverOverride {
        state, clearCount := Release, 0;
        return 0;
      }
      if desired == SensorFault {
        state, clearCount := SensorFault, 0;
        return 0;
      }
      if desired == Full {
        state, clearCount := Full, 0;
        if c.request.distance.Some? && c.request.distance.value <= STOP_HOLD_DISTANCE {
          state, holdStart := StopHold, Some(c.now);
        }
        return 100;
      }
      if state == StopHold {
        if holdStart.Some? && c.now - holdStart.value < STOP_HOLD_SEC { return 100; }
        state := Release;
        return 0;
      }
      if desired == Partial || desired == Prefill || desired == Fcw || desired == Degraded {
        state, clearCount := desired, 0;
        return c.request.brake;
      }
      if desired == Monitoring {
        brake := Clear();
        return;
      }
      state := desired;
      brake := c.request.brake;
    }

    method Clear() returns (brake: int)
      modifies this
      ensures (Abstract(), brake) == Clearing(old(Abstract()))
    {
      brake := 0;
      if state !in {Fcw, Prefill, Partial, Full, Release, Degraded} {
        state := Monitoring;
        return;
      }
      clearCount := clearCount + 1;
      if clearCount >= CLEAR_CONFIRM_COUNT {
        state, clearCount := Monitoring, 0;
      } else if state == Partial {
        brake := 30;
      } else if state == Prefill {
        brake := 10;
      }
    }
  }

  // ---------------------------------------------------------------- runs

  function Exec(calls: seq<Call>): Machine
    decreases |calls|
  {
    if calls == [] then START else Next(Exec(calls[..|calls| - 1]), calls[|calls| - 1]).0
  }

  function BrakeAt(calls: seq<Call>, k: nat): int
    requires k < |calls|
  {
    Next(Exec(calls[..k]), calls[k]).1
  }

  /** The assessment requests these states only, and a full brake only for `Full`. */
  predicate Assessed(c: Call)
  {
    && c.request.desired in {Monitoring, Fcw, Prefill, Partial, Full, Degraded, SensorFault}
    && (c.request.desired != Full ==> c.request.brake < 100)
  }

  predicate AllAssessed(calls: seq<Call>) { forall k :: 0 <= k < |calls| ==> Assessed(calls[k]) }

  /** What every reachable machine keeps. */
  predicate Inv(m: Machine)
  {
    && m.clearCount < CLEAR_CONFIRM_COUNT && m.state != Off
    && (m.clearCount > 0 ==> Active(m.state))
    && (m.state == StopHold ==> m.holdStart.Some?)
  }

  lemma {:induction false} ReachableInv(calls: seq<Call>)
    requires AllAssessed(calls)
    ensures Inv(Exec(calls))
    decreases |calls|
  {
    if calls == [] {
    } else {
      ReachableInv(calls[..|calls| - 1]);
    }
  }

  lemma ExecSnoc(calls: seq<Call>, k: nat)
    requires k < |calls|
    ensures Exec(calls[..k + 1]) == Next(Exec(calls[..k]), calls[k]).0
  {
    assert calls[..k + 1][..k] == calls[..k];
  }

  // ---------------------------------------------------------------- the stop that is held

  /** A full brake at 3 m or less, in the scale of the model car. */
  predicate Enters(c: Call)
  {
    && !c.driverOverride && c.request.desired == Full
    && c.request.distance.Some? && c.request.distance.value <= 3.0 / 32.0
  }

  /** A cycle that leaves a hold begun at `since`, less than a second ago, alone. */
  predicate Keeps(c: Call, since: real)
  {
    !c.driverOverride && c.request.desired !in {Full, SensorFault} && c.now - since < 1.0
  }

  /** The hold was entered at cycle `j` and nothing before cycle `k` ended it. */
  predicate HeldSince(calls: seq<Call>, j: nat, k: nat)
    requires k <= |calls|
  {
    j < k && Enters(calls[j]) && forall i :: j < i < k ==> Keeps(calls[i], calls[j].now)
  }

  lemma HoldStep(m: Machine, c: Call)
    requires Inv(m) && Assessed(c)
    ensures var t := Next(m, c).0;
            && (t.state == StopHold <==> Enters(c) || (m.state == StopHold && Keeps(c, m.holdStart.value)))
            && (t.state == StopHold ==> t.holdStart == if Enters(c) then Some(c.now) else m.holdStart)
  {
  }

  lemma HeldStep(calls: seq<Call>, j: nat, k: nat)
    requires 0 < k <= |calls|
    ensures HeldSince(calls, j, k)
       <==> || (j == k - 1 && Enters(calls[j]))
            || (HeldSince(calls, j, k - 1) && Keeps(calls[k - 1], calls[j].now))
  {
    hide Enters, Keeps;
  }

  lemma EnteredIsNotKept(c: Call, since: real)
    ensures !(Enters(c) && Keeps(c, since))
  {
  }

  /** The machine is in the held stop exactly when its history says so, since the same time. */
  lemma {:induction false} HoldStateIsHistory(calls: seq<Call>, k: nat)
    requires AllAssessed(calls) && k <= |calls|
    ensures Exec(calls[..k]).state == StopHold <==> exists j: nat :: HeldSince(calls, j, k)
    ensures forall j: nat :: HeldSince(calls, j, k) ==> Exec(calls[..k]).holdStart == Some(calls[j].now)
    decreases k
  {
    if k == 0 {
    } else {
      hide Next, Enters, Keeps, Assessed, Exec, HeldSince;
      var m, c := Exec(calls[..k - 1]), calls[k - 1];
      ExecSnoc(calls, k - 1);
      HoldStateIsHistory(calls, k - 1);
      ReachableInv(calls[..k - 1]);
      HoldStep(m, c);
      forall j: nat
        ensures HeldSince(calls, j, k)
           <==> || (j == k - 1 && Enters(calls[j]))
                || (HeldSince(calls, j, k - 1) && Keeps(calls[k - 1], calls[j].now))
      {
        HeldStep(calls, j, k);
      }
      forall since: real ensures !(Enters(c) && Keeps(c, since)) { EnteredIsNotKept(c, since); }
      if Enters(c) { assert HeldSince(calls, k - 1, k); }
    }
  }

  /** Over every run: the brake is full exactly when a full brake is requested or a stop entered
      within the last second is still held, and neither an override nor a fault intervenes. */
  lemma FullBrakeIsHistory(calls: seq<Call>, k: nat)
    requires AllAssessed(calls) && k < |calls|
    ensures BrakeAt(calls, k) == 100
       <==> && !calls[k].driverOverride && calls[k].request.desired != SensorFault
            && (|| calls[k].request.desired == Full
                || exists j: nat :: HeldSince(calls, j, k) && calls[k].now - calls[j].now < 1.0)
  {
    hide Exec;
    var m, c := Exec(calls[..k]), calls[k];
    HoldStateIsHistory(calls, k);
    ReachableInv(calls[..k]);
    assert Assessed(c);
    FullBrakeStep(m, c);
  }

  lemma FullBrakeStep(m: Machine, c: Call)
    requires Inv(m) && Assessed(c)
    ensures Next(m, c).1 == 100
       <==> && !c.driverOverride && c.request.desired != SensorFault
            && (c.request.desired == Full || StillHeld(m, c.now))
  {
  }

  /** A hold that runs out releases the brake for one cycle, whatever lower brake is requested. */
  lemma ExpiredHoldReleases(calls: seq<Call>, j: nat, k: nat)
    requires AllAssessed(calls) && k < |calls| && HeldSince(calls, j, k)
    requires calls[k].now - calls[j].now >= 1.0 && calls[k].request.desired != Full
    ensures BrakeAt(calls, k) == 0
  {
    HoldStateIsHistory(calls, k);
  }

  /** A lower request is followed at once, state and brake, as soon as no stop is held; an override
      or a fault gives no brake, whatever is requested or held. */
  lemma LowerRequestIsFollowed(calls: seq<Call>, k: nat)
    requires AllAssessed(calls) && k < |calls|
    ensures var r, t := calls[k].request, Exec(calls[..k + 1]);
            if calls[k].driverOverride then t.state == Release && BrakeAt(calls, k) == 0
            else if r.desired == SensorFault then t.state == SensorFault && BrakeAt(calls, k) == 0
            else
              r.desired in {Partial, Prefill, Fcw, Degraded} && !(exists j: nat :: HeldSince(calls, j, k)) ==>
                t.state == r.desired && t.clearCount == 0 && BrakeAt(calls, k) == r.brake
  {
    hide Exec;
    HoldStateIsHistory(calls, k);
    ExecSnoc(calls, k);
  }

  /** Any other request is followed as it is while no stop is held, without touching the count. */
  lemma OtherRequestIsFollowed(m: Machine, c: Call)
    requires !c.driverOverride && m.state != StopHold && c.request.desired in {Off, Standby, StopHold, Release}
    ensures Next(m, c) == (m.(state := c.request.desired), c.request.brake)
  {
  }

  // ---------------------------------------------------------------- clearing

  predicate Clears(c: Call) { !c.driverOverride && c.request.desired == Monitoring }

  /** The last `n` cycles before `k` were all clear. */
  predicate ClearRun(calls: seq<Call>, k: nat, n: nat)
    requires k <= |calls|
  {
    n <= k && forall i :: k - n <= i < k ==> Clears(calls[i])
  }

  lemma CountStep(m: Machine, c: Call)
    requires Inv(m) && Assessed(c)
    ensures var n := Next(m, c).0.clearCount; n == 0 || (Clears(c) && n == m.clearCount + 1)
  {
  }

  lemma {:induction false} CountIsClearRun(calls: seq<Call>, k: nat)
    requires AllAssessed(calls) && k <= |calls|
    ensures ClearRun(calls, k, Exec(calls[..k]).clearCount)
    decreases k
  {
    hide Next, Clears;
    if k == 0 {
      assert calls[..k] == [];
    } else {
      ExecSnoc(calls, k - 1);
      CountIsClearRun(calls, k - 1);
      ReachableInv(calls[..k - 1]);
      assert Assessed(calls[k - 1]);
      CountStep(Exec(calls[..k - 1]), calls[k - 1]);
    }
  }

  /** Over every run: an active state is given up for monitoring only after five clear cycles
      in a row. */
  lemma MonitoringNeedsFiveClearCycles(calls: seq<Call>, k: nat)
    requires AllAssessed(calls) && k < |calls|
    requires Active(Exec(calls[..k]).state) && Exec(calls[..k + 1]).state == Monitoring
    ensures ClearRun(calls, k + 1, 5)
  {
    ExecSnoc(calls, k);
    CountIsClearRun(calls, k);
    ReachableInv(calls[..k]);
    assert Assessed(calls[k]);
    assert Exec(calls[..k]).clearCount == CLEAR_CONFIRM_COUNT - 1;
  }

  /** The brake that is kept while the road has just become clear. */
  function WhileClearing(s: AebState): int { match s case Partial => 30 case Prefill => 10 case _ => 0 }

  lemma ClearingStep(m: Machine, c: Call)
    requires Clears(c) && Active(m.state) && m.clearCount + 1 < CLEAR_CONFIRM_COUNT
    ensures Next(m, c) == (m.(clearCount := m.clearCount + 1), WhileClearing(m.state))
  {
  }

  lemma {:induction false} ClearingCounts(calls: seq<Call>, k: nat, n: nat)
    requires AllAssessed(calls) && k + n <= |calls|
    requires forall i :: k <= i < k + n ==> Clears(calls[i])
    requires Active(Exec(calls[..k]).state) && Exec(calls[..k]).clearCount + n < CLEAR_CONFIRM_COUNT
    ensures Exec(calls[..k + n]).state == Exec(calls[..k]).state
    ensures Exec(calls[..k + n]).clearCount == Exec(calls[..k]).clearCount + n
    ensures forall i :: k <= i < k + n ==> BrakeAt(calls, i) == WhileClearing(Exec(calls[..k]).state)
    decreases n
  {
    hide Exec, Next;
    if n == 0 {
      assert calls[..k + n] == calls[..k];
    } else {
      ClearingCounts(calls, k, n - 1);
      ExecSnoc(calls, k + n - 1);
      ClearingStep(Exec(calls[..k + n - 1]), calls[k + n - 1]);
    }
  }

  /** And five are enough: from an active state that has just been entered, monitoring is
      reached with the fifth clear cycle, and not before; until then a partial brake eases to 30
      percent, a prefill to 10, and with the fifth cycle the brake is released. */
  lemma FiveClearCyclesSuffice(calls: seq<Call>, k: nat)
    requires AllAssessed(calls) && k + 5 <= |calls|
    requires forall i :: k <= i < k + 5 ==> Clears(calls[i])
    requires Active(Exec(calls[..k]).state) && Exec(calls[..k]).clearCount == 0
    ensures Exec(calls[..k + 5]).state == Monitoring
    ensures Exec(calls[..k + 4]).state == Exec(calls[..k]).state
    ensures forall i :: k <= i < k + 4 ==>
              BrakeAt(calls, i) == WhileClearing(Exec(calls[..k]).state)
    ensures BrakeAt(calls, k + 4) == 0
  {
    hide Exec, Next;
    var n: nat := 4;
    ClearingCounts(calls, k, n);
    ExecSnoc(calls, k + n);
    FifthClears(Exec(calls[..k + n]), calls[k + n]);
  }

  lemma FifthClears(m: Machine, c: Call)
    requires Clears(c) && Active(m.state) && m.clearCount == 4
    ensures Next(m, c).0.state == Monitoring && Next(m, c).1 == 0
  {
  }
}

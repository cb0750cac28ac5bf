/** The relative speed estimator of the ACC (HPVC/RPI1/acc_rel_speed.py): a low-passed
    derivative of the gap that reseeds on dropouts. */
module RelativeSpeed {
  import opened Words
  import opened Float32

  datatype Config = Config(tau: real, minDt: real, maxDt: real, maxSpeed: real)

  const DEFAULT: Config := Config(0.20, 0.001, 0.50, 5.0)

  datatype Sample = Sample(gap: real, time: real)

  datatype State = State(last: Option<Sample>, speed: real)

  const RESET: State := State(None, 0.0)

  /** A gap reading; an absent one counts as NaN. */
  predicate Usable(gap: Float) { gap.Fin? && gap.v > 0.0 }

  function Weight(cfg: Config, dt: real): real
    requires cfg.tau + dt != 0.0
  {
    cfg.tau / (cfg.tau + dt)
  }

  function Blend(alpha: real, speed: real, raw: real): real { alpha * speed + (1.0 - alpha) * raw }

  function Limited(cfg: Config, speed: real): real { Max(-cfg.maxSpeed, Min(cfg.maxSpeed, speed)) }

  /** The estimate and whether it is valid, or the exception of a division by zero. */
  datatype Outcome = Estimate(speed: real, valid: bool) | DivisionByZero

  /** Any configuration; an exception leaves the state as it was. */
  function Next(cfg: Config, s: State, gap: Float, now: real): (State, Outcome)
  {
    if !Usable(gap) then (RESET, Estimate(0.0, false))
    else if s.last.None? then (State(Some(Sample(gap.v, now)), 0.0), Estimate(0.0, true))
    else
      var dt := now - s.last.value.time;
      if dt < cfg.minDt then (s, Estimate(s.speed, true))
      else if dt > cfg.maxDt then (State(Some(Sample(gap.v, now)), 0.0), Estimate(0.0, true))
      else if dt == 0.0 || cfg.tau + dt == 0.0 then (s, DivisionByZero)
      else
        var speed := Limited(cfg, Blend(Weight(cfg, dt), s.speed, (gap.v - s.last.value.gap) / dt));
        (State(Some(Sample(gap.v, now)), speed), Estimate(speed, true))
  }

  class Estimator {
    const cfg: Config
    var lastGap: Option<real>
    var lastTime: real
    var speed: real

    ghost function Abstract(): State
      reads this
    {
      State(if lastGap.Some? then Some(Sample(lastGap.value, lastTime)) else None, speed)
    }

    constructor (cfg: Config)
      ensures this.cfg == cfg && Abstract() == RESET
    {
      this.cfg := cfg;
      lastGap, lastTime, speed := None, 0.0, 0.0;
    }

    method Update(gap: Float, now: real) returns (r: Outcome)
      modifies this
      ensures (Abstract(), r) == Next(cfg, old(Abstract()), gap, now)
    {
      if !gap.Fin? || gap.v <= 0.0 {
        lastGap, speed := None, 0.0;
        return Estimate(0.0, false);
      }
      if lastGap.None? {
        lastGap, lastTime, speed := Some(gap.v), now, 0.0;
        return Estimate(0.0, true);
      }
      var dt := now - lastTime;
      if dt < cfg.minDt { return Estimate(speed, true); }
      if dt > cfg.maxDt {
        lastGap, lastTime, speed := Some(gap.v), now, 0.0;
        return Estimate(0.0, true);
      }
      if dt == 0.0 { return DivisionByZero; }
      var raw := (gap.v - lastGap.value) / dt;
      if cfg.tau + dt == 0.0 { return DivisionByZero; }
      var alpha := cfg.tau / (cfg.tau + dt);
      speed := Blend(alpha, speed, raw);
      speed := if cfg.maxSpeed < speed then cfg.maxSpeed else speed;
      speed := if -cfg.maxSpeed < speed then speed else -cfg.maxSpeed;
      lastGap, lastTime := Some(gap.v), now;
      return Estimate(speed, true);
    }
  }

  /** Exactly which configurations never divide by zero, whatever the state, the gap and the
      clock: those for which neither a zero spacing nor one of minus the time constant is taken
      as a spacing to differentiate over. */
  lemma NoDivisionByZero(cfg: Config)
    ensures (forall s, gap, now :: Next(cfg, s, gap, now).1.Estimate?)
       <==> !(cfg.minDt <= 0.0 <= cfg.maxDt) && !(cfg.minDt <= -cfg.tau <= cfg.maxDt)
  {
    hide Blend, Weight, Limited;
    DividesAt(cfg, 0.0);
    DividesAt(cfg, -cfg.tau);
  }

  /** Two equal gaps that far apart divide by zero. */
  lemma DividesAt(cfg: Config, dt: real)
    requires dt == 0.0 || dt == -cfg.tau
    ensures cfg.minDt <= dt <= cfg.maxDt ==>
              Next(cfg, State(Some(Sample(1.0, 0.0)), 0.0), Fin(1.0), dt).1 == DivisionByZero
  {
  }

  /** What is reported: without a usable gap nothing valid, and everything is forgotten; otherwise
      the new state's speed, which is zero for a first sample and after a dropout, and is held
      when a sample comes too early. */
  lemma OutcomeMeans(cfg: Config, s: State, gap: Float, now: real)
    ensures var (t, r) := Next(cfg, s, gap, now);
            && (!(gap.Fin? && gap.v > 0.0) <==> r.Estimate? && !r.valid)
            && (r.Estimate? && !r.valid ==> r.speed == 0.0 && t.last.None? && t.speed == 0.0)
            && (r.Estimate? && r.valid ==> r.speed == t.speed && t.last.Some?)
            && (r.Estimate? && r.valid && (s.last.None? || now - s.last.value.time > Max(cfg.minDt, cfg.maxDt)) ==>
                  t == State(Some(Sample(gap.v, now)), 0.0))
            && (r.Estimate? && r.valid && s.last.Some? && now - s.last.value.time < cfg.minDt ==> t == s)
            && (r.DivisionByZero? ==> t == s)
  {
    hide Blend, Weight, Limited;
  }

  predicate Sane(cfg: Config) { cfg.tau >= 0.0 && 0.0 < cfg.minDt && cfg.maxSpeed >= 0.0 }

  /** The configuration as shipped: samples less than a millisecond apart hold the estimate, more
      than half a second apart restart it, and it stays within 5 m/s and never divides by zero. */
  lemma AsShipped(s: State, gap: Float, now: real)
    requires Abs(s.speed) <= 5.0
    ensures var (t, r) := Next(DEFAULT, s, gap, now);
            && r.Estimate? && Abs(t.speed) <= 5.0
            && (gap.Fin? && gap.v > 0.0 && s.last.Some? ==>
                  && (now - s.last.value.time < 0.001 ==> t == s)
                  && (now - s.last.value.time > 0.5 ==> t == State(Some(Sample(gap.v, now)), 0.0))
                  && (0.001 <= now - s.last.value.time <= 0.5 ==> t.last == Some(Sample(gap.v, now))))
  {
    hide Blend, Weight;
  }

  // ---------------------------------------------------------------- over whole runs

  datatype Reading = Reading(gap: Float, now: real)

  function Run(cfg: Config, s: State, rs: seq<Reading>): State
    decreases |rs|
  {
    if rs == [] then s else Run(cfg, Next(cfg, s, rs[0].gap, rs[0].now).0, rs[1..])
  }

  /** Whatever the readings and the clock, the estimate stays within the limit. */
  lemma {:induction false} SpeedIsBounded(cfg: Config, s: State, rs: seq<Reading>)
    requires Abs(s.speed) <= cfg.maxSpeed
    ensures Abs(Run(cfg, s, rs).speed) <= cfg.maxSpeed
    decreases |rs|
  {
    hide Blend, Weight;
    if rs == [] {
    } else {
      SpeedIsBounded(cfg, Next(cfg, s, rs[0].gap, rs[0].now).0, rs[1..]);
    }
  }

  /** The sample at `now` on the line through `from` of slope `v`. */
  function OnLine(from: Sample, v: real, now: real): (s: Sample)
    ensures s.time == now
  {
    Sample(from.gap + v * (now - from.time), now)
  }

  /** Usable samples of a gap that opens at the constant speed `v`, each within the accepted
      spacing of the one before. */
  predicate Steady(cfg: Config, from: Sample, v: real, times: seq<real>)
    decreases |times|
  {
    times == [] ||
    (cfg.minDt <= times[0] - from.time <= cfg.maxDt && OnLine(from, v, times[0]).gap > 0.0
     && Steady(cfg, OnLine(from, v, times[0]), v, times[1..]))
  }

  function Readings(from: Sample, v: real, times: seq<real>): (rs: seq<Reading>)
    ensures |rs| == |times|
    decreases |times|
  {
    if times == [] then []
    else
      var next := OnLine(from, v, times[0]);
      [Reading(Fin(next.gap), times[0])] + Readings(next, v, times[1..])
  }

  /** The product of the filter weights: of each the share of the time constant in its sum with the
      spacing. */
  function Decay(cfg: Config, from: real, times: seq<real>): real
    requires Sane(cfg)
    decreases |times|
  {
    if times == [] || cfg.tau + (times[0] - from) == 0.0 then 1.0
    else cfg.tau / (cfg.tau + (times[0] - from)) * Decay(cfg, times[0], times[1..])
  }

  lemma WeightInRange(cfg: Config, dt: real)
    requires Sane(cfg) && dt > 0.0
    ensures 0.0 <= Weight(cfg, dt) < 1.0
  {
    var w, b := Weight(cfg, dt), cfg.tau + dt;
    assert w * b == cfg.tau;
  }

  lemma BlendError(alpha: real, speed: real, v: real, limit: real)
    requires 0.0 <= alpha < 1.0 && Abs(v) <= limit && Abs(speed) <= limit
    ensures Max(-limit, Min(limit, Blend(alpha, speed, v))) - v == alpha * (speed - v)
  {
    var e := Blend(alpha, speed, v);
    assert e - v == alpha * (speed - v);
    Between(alpha, speed, v);
  }

  lemma Between(alpha: real, a: real, b: real)
    requires 0.0 <= alpha < 1.0
    ensures Min(a, b) <= Blend(alpha, a, b) <= Max(a, b)
  {
    assert Blend(alpha, a, b) - b == alpha * (a - b);
    assert a - Blend(alpha, a, b) == (1.0 - alpha) * (a - b);
    if a >= b {
      ProductNotNegative(alpha, a - b);
      ProductNotNegative(1.0 - alpha, a - b);
    } else {
      ProductNotNegative(alpha, b - a);
      ProductNotNegative(1.0 - alpha, b - a);
    }
  }

  lemma ProductNotNegative(x: real, y: real)
    requires x >= 0.0 && y >= 0.0
    ensures x * y >= 0.0
  {
  }

  lemma SlopeOfLine(v: real, dt: real, g: real)
    requires dt > 0.0
    ensures (g + v * dt - g) / dt == v
  {
    assert g + v * dt - g == v * dt;
  }

  lemma StepOnLine(cfg: Config, s: State, v: real, now: real, dt: real, gap: real)
    requires Sane(cfg) && s.last.Some? && Abs(v) <= cfg.maxSpeed && Abs(s.speed) <= cfg.maxSpeed
    requires dt == now - s.last.value.time && cfg.minDt <= dt <= cfg.maxDt
    requires gap == s.last.value.gap + v * dt && gap > 0.0
    ensures var t := Next(cfg, s, Fin(gap), now).0;
            && t.last == Some(Sample(gap, now)) && Abs(t.speed) <= cfg.maxSpeed
            && t.speed - v == Weight(cfg, dt) * (s.speed - v)
  {
    hide Blend, Weight;
    SlopeOfLine(v, dt, s.last.value.gap);
    WeightInRange(cfg, dt);
    BlendError(Weight(cfg, dt), s.speed, v, cfg.maxSpeed);
  }

  /** One steady sample multiplies the error by the weight of its spacing. */
  lemma SteadyStep(cfg: Config, s: State, v: real, now: real, next: Sample)
    requires Sane(cfg) && s.last.Some? && Abs(v) <= cfg.maxSpeed && Abs(s.speed) <= cfg.maxSpeed
    requires next == OnLine(s.last.value, v, now) && next.gap > 0.0
    requires cfg.minDt <= now - s.last.value.time <= cfg.maxDt
    ensures var t := Next(cfg, s, Fin(next.gap), now).0;
            && t.last == Some(next) && Abs(t.speed) <= cfg.maxSpeed
            && t.speed - v == Weight(cfg, now - s.last.value.time) * (s.speed - v)
  {
    hide Next, Weight;
    StepOnLine(cfg, s, v, now, now - s.last.value.time, next.gap);
  }

  /** The estimator converges: along a gap that opens at a constant speed the error shrinks by
      exactly the product of the filter weights, whatever the spacing of the samples. */
  lemma {:induction false} ErrorDecays(cfg: Config, s: State, v: real, times: seq<real>)
    requires Sane(cfg) && s.last.Some? && Abs(v) <= cfg.maxSpeed && Abs(s.speed) <= cfg.maxSpeed
    requires Steady(cfg, s.last.value, v, times)
    ensures Run(cfg, s, Readings(s.last.value, v, times)).speed - v
         == Decay(cfg, s.last.value.time, times) * (s.speed - v)
    decreases |times|
  {
    hide Next, Weight, Blend, OnLine, Run, Readings, Decay;
    if times == [] {
      NothingRead(cfg, s, v);
    } else {
      var from, now := s.last.value, times[0];
      var next := OnLine(from, v, now);
      SteadyStep(cfg, s, v, now, next);
      var t := Next(cfg, s, Fin(next.gap), now).0;
      ErrorDecays(cfg, t, v, times[1..]);
      var rs := Readings(from, v, times);
      RunSteady(cfg, s, v, times);
      DecayStep(cfg, from.time, times);
      Chain(Run(cfg, s, rs).speed, v, Decay(cfg, now, times[1..]), t.speed, Weight(cfg, now - from.time), s.speed,
            Decay(cfg, from.time, times));
    }
  }

  lemma NothingRead(cfg: Config, s: State, v: real)
    requires Sane(cfg) && s.last.Some?
    ensures Run(cfg, s, Readings(s.last.value, v, [])) == s && Decay(cfg, s.last.value.time, []) == 1.0
  {
  }

  lemma RunSteady(cfg: Config, s: State, v: real, times: seq<real>)
    requires s.last.Some? && times != []
    ensures Run(cfg, s, Readings(s.last.value, v, times))
         == Run(cfg, Next(cfg, s, Fin(OnLine(s.last.value, v, times[0]).gap), times[0]).0,
                Readings(OnLine(s.last.value, v, times[0]), v, times[1..]))
  {
    hide Next, OnLine;
    var rs := Readings(s.last.value, v, times);
    assert rs[1..] == Readings(OnLine(s.last.value, v, times[0]), v, times[1..]);
  }

  lemma DecayStep(cfg: Config, from: real, times: seq<real>)
    requires Sane(cfg) && times != [] && times[0] - from >= cfg.minDt
    ensures Decay(cfg, from, times) == Weight(cfg, times[0] - from) * Decay(cfg, times[0], times[1..])
  {
  }

  lemma Chain(last: real, v: real, rest: real, middle: real, weight: real, first: real, decay: real)
    requires last - v == rest * (middle - v) && middle - v == weight * (first - v) && decay == weight * rest
    ensures last - v == decay * (first - v)
  {
    assert rest * (weight * (first - v)) == weight * rest * (first - v);
  }
}

/** The AEB decision of the HPVC (HPVC/hpvc_aeb.py): ranges from FRONT and persons from MIDDLE
    fused into a brake request, and a stop that is held for a while. All arithmetic is that of
    doubles; comparisons are exact. */
module AebFusion {
  import opened Words
  import opened Float32
  import opened Rounding

  type Level = x: int | 0 <= x <= 6

  const CLEAR: Level := 0
  const FCW: Level := 1
  const PARTIAL_BRAKE: Level := 2
  const FULL_BRAKE: Level := 3
  const STOP_HOLD: Level := 4
  const DEGRADED: Level := 5
  const SENSOR_FAULT: Level := 6

  datatype Reason = ReasonClear | TofClose | UltrasonicClose | PersonAhead | PersonWithRange
                  | NoFreshInput | FrontStale

  datatype Front = Front(sequence: u32, timestampMs: u32, arrival: real, validMask: byte, tofDiag: u16,
                         tof: Float, left: Float, right: Float)

  datatype Person = Person(valid: Float, confidence: Float, centerX: Float)

  datatype Middle = Middle(sequence: u32, arrival: real, flags: byte, persons: seq<Person>)

  datatype Thresholds = Thresholds(full: real, partial: real, fcw: real)

  datatype Config = Config(frontTimeout: real, middleTimeout: real, stopHold: real, personConfidenceMin: real,
                           gateMin: real, gateMax: real, front: Thresholds, side: Thresholds, personGain: real)

  /** As shipped: every literal is the double nearest to it. */
  const DEFAULT: Config :=
    Config(0.5, 0.5, Double(0.6), Double(0.35), Double(0.32), Double(0.68),
           Thresholds(Double(0.18), Double(0.3), 0.5), Thresholds(Double(0.1), Double(0.18), Double(0.3)), 1.25)

  datatype Decision = Decision(sequence: u32, state: Level, brake: int, reason: Reason, distance: Option<real>,
                               confidence: real, frontFresh: bool, middleFresh: bool, personInPath: bool)

  /** What the controller remembers between decisions. */
  datatype Memory = Memory(sequence: u32, holdUntil: real)

  // ---------------------------------------------------------------- inputs

  predicate FinitePositive(f: Float) { f.Fin? && f.v > 0.0 }

  predicate LeftValid(f: Front) { f.validMask % 2 == 1 && FinitePositive(f.left) }

  predicate RightValid(f: Front) { f.validMask / 2 % 2 == 1 && FinitePositive(f.right) }

  predicate TofValid(f: Front) { f.validMask / 4 % 2 == 1 && FinitePositive(f.tof) }

  predicate FrontFresh(cfg: Config, front: Option<Front>, now: real)
  {
    front.Some? && Double(now - front.value.arrival) <= cfg.frontTimeout
  }

  predicate MiddleFresh(cfg: Config, middle: Option<Middle>, now: real)
  {
    middle.Some? && Double(now - middle.value.arrival) <= cfg.middleTimeout
  }

  /** The tests are negated comparisons, which NaN passes, except for the gate. */
  predicate PersonPasses(cfg: Config, p: Person)
  {
    && !Less(p.valid, 0.5) && !Less(p.confidence, cfg.personConfidenceMin)
    && AtLeast(p.centerX, cfg.gateMin) && AtMost(p.centerX, cfg.gateMax)
  }

  predicate PersonCounts(cfg: Config, p: Person) { PersonPasses(cfg, p) && Greater(p.confidence, 0.0) }

  /** Python's `max(a, b)`: the second one only if it is larger. */
  function Larger(a: Float, b: Float): Float { if Above(b, a) then b else a }

  /** The highest confidence of a person that passes, starting from zero. */
  function BestConfidence(cfg: Config, persons: seq<Person>): Float
  {
    if persons == [] then Fin(0.0)
    else
      var best, p := BestConfidence(cfg, persons[..|persons| - 1]), persons[|persons| - 1];
      if PersonPasses(cfg, p) then Larger(best, p.confidence) else best
  }

  predicate Watching(cfg: Config, middle: Option<Middle>, now: real)
  {
    MiddleFresh(cfg, middle, now) && middle.value.flags / 16 % 2 == 1
  }

  function PersonConfidence(cfg: Config, middle: Option<Middle>, now: real): Float
  {
    if Watching(cfg, middle, now) then BestConfidence(cfg, middle.value.persons) else Fin(0.0)
  }

  predicate PersonInPath(cfg: Config, middle: Option<Middle>, now: real)
  {
    Watching(cfg, middle, now) && exists p <- middle.value.persons :: PersonCounts(cfg, p)
  }

  lemma LargerKeeps(b: Float, c: Float)
    requires AtLeast(b, 0.0)
    ensures var n := Larger(b, c);
            && AtLeast(n, 0.0) && !Above(c, n) && (Greater(n, 0.0) <==> Greater(b, 0.0) || Greater(c, 0.0))
            && (n == b || (n == c && Greater(c, 0.0)))
  {
  }

  lemma LargerBounds(x: Float, b: Float, c: Float)
    requires AtLeast(b, 0.0) && !Above(x, b)
    ensures !Above(x, Larger(b, c))
  {
  }

  lemma ZeroIsLeast()
    ensures AtLeast(Fin(0.0), 0.0) && !Greater(Fin(0.0), 0.0)
  {
  }

  /** The confidence found is the highest one: of a person that counts if there is one. */
  lemma {:induction false} BestConfidenceIsHighest(cfg: Config, persons: seq<Person>)
    ensures var best := BestConfidence(cfg, persons);
            && AtLeast(best, 0.0)
            && (Greater(best, 0.0) <==> exists p <- persons :: PersonCounts(cfg, p))
            && (Greater(best, 0.0) ==> exists p <- persons :: PersonCounts(cfg, p) && p.confidence == best)
            && forall p <- persons :: PersonCounts(cfg, p) ==> !Above(p.confidence, best)
    decreases |persons|
  {
    hide PersonPasses, Above, Larger, AtLeast, Greater;
    if persons == [] {
      ZeroIsLeast();
    } else {
      var rest, p := persons[..|persons| - 1], persons[|persons| - 1];
      var best := BestConfidence(cfg, rest);
      BestConfidenceIsHighest(cfg, rest);
      LargerKeeps(best, p.confidence);
      forall q | q in rest && PersonCounts(cfg, q) ensures !Above(q.confidence, Larger(best, p.confidence)) {
        LargerBounds(q.confidence, best, p.confidence);
      }
      assert persons == rest + [p];
      assert forall q :: q in persons <==> q in rest || q == p;
    }
  }

  // ---------------------------------------------------------------- levels

  function Product(x: real, y: real): real { Double(x * y) }

  function Scaled(t: Thresholds, gain: real): Thresholds
  {
    Thresholds(Product(t.full, gain), Product(t.partial, gain), Product(t.fcw, gain))
  }

  function ThresholdsFor(cfg: Config, center: bool, person: bool): Thresholds
  {
    if center then Scaled(cfg.front, if person then cfg.personGain else 1.0) else cfg.side
  }

  function RangeLevel(t: Thresholds, distance: real): (r: Level)
    ensures r <= FULL_BRAKE
  {
    if distance <= t.full then FULL_BRAKE
    else if distance <= t.partial then PARTIAL_BRAKE
    else if distance <= t.fcw then FCW
    else CLEAR
  }

  function BrakeFor(level: Level): int
  {
    if level == FULL_BRAKE || level == STOP_HOLD then 100 else if level == PARTIAL_BRAKE then 65 else 0
  }

  function MaxLevel(a: Level, b: Level): Level { if a < b then b else a }

  function SensorLevel(valid: bool, f: Float, t: Thresholds): Level
  {
    if valid && f.Fin? then RangeLevel(t, f.v) else CLEAR
  }

  /** The level of the two side sensors, and of the whole frame: the maximum over the valid ones. */
  function SideLevel(cfg: Config, f: Front): (r: Level)
    ensures r <= FULL_BRAKE
  {
    MaxLevel(SensorLevel(LeftValid(f), f.left, cfg.side), SensorLevel(RightValid(f), f.right, cfg.side))
  }

  function TofLevel(cfg: Config, f: Front, person: bool): (r: Level)
    ensures r <= FULL_BRAKE
  {
    SensorLevel(TofValid(f), f.tof, ThresholdsFor(cfg, true, person))
  }

  function FrameLevel(cfg: Config, f: Front, person: bool): (r: Level)
    ensures r <= FULL_BRAKE
  {
    MaxLevel(TofLevel(cfg, f, person), SideLevel(cfg, f))
  }

  /** The nearest valid side range. */
  function SideRange(f: Front): Option<real>
  {
    if LeftValid(f) && RightValid(f) then Some(Min(f.left.v, f.right.v))
    else if LeftValid(f) then Some(f.left.v)
    else if RightValid(f) then Some(f.right.v)
    else None
  }

  /** What the sensors ask for: the level, which range it comes from, and how sure it is. */
  datatype Threat = Threat(level: Level, reason: Reason, distance: Option<real>, confidence: Float)

  function NoThreat(confidence: Float): Threat { Threat(CLEAR, ReasonClear, None, confidence) }

  function IdleConfidence(person: bool, confidence: Float): Float { if person then confidence else Fin(1.0) }

  function TofConfidence(confidence: Float): Float { Larger(Fin(Double(0.65)), confidence) }

  const SIDE_CONFIDENCE: Float := Fin(Double(0.6))

  function FrameThreat(cfg: Config, f: Front, person: bool, confidence: Float): Threat
  {
    var tof, side := TofLevel(cfg, f, person), SideLevel(cfg, f);
    if tof > CLEAR && tof >= side then
      Threat(tof, if person then PersonWithRange else TofClose, Some(f.tof.v), TofConfidence(confidence))
    else if side > CLEAR then Threat(side, UltrasonicClose, SideRange(f), SIDE_CONFIDENCE)
    else NoThreat(IdleConfidence(person, confidence))
  }

  function SensedThreat(cfg: Config, front: Option<Front>, frontFresh: bool, person: bool, confidence: Float): Threat
  {
    var t := if frontFresh && front.Some? then FrameThreat(cfg, front.value, person, confidence)
             else NoThreat(IdleConfidence(person, confidence));
    if t.level == CLEAR && person then t.(level := FCW, reason := PersonAhead, confidence := confidence) else t
  }

  // ---------------------------------------------------------------- the decision

  /** `max(0.0, min(1.0, c))` */
  function ClampUnit(c: Float): real
  {
    if !Less(c, 1.0) then 1.0 else if c.Fin? && c.v > 0.0 then c.v else 0.0
  }

  function Decide(cfg: Config, m: Memory, front: Option<Front>, middle: Option<Middle>, now: real): (Memory, Decision)
  {
    var m1 := m.(sequence := Wrap32(m.sequence + 1));
    var ff, mf := FrontFresh(cfg, front, now), MiddleFresh(cfg, middle, now);
    var person, confidence := PersonInPath(cfg, middle, now), PersonConfidence(cfg, middle, now);
    if !ff && !mf then
      (m1, Decision(m1.sequence, SENSOR_FAULT, 0, NoFreshInput, None, 0.0, ff, mf, person))
    else if !ff && person then
      (m1, Decision(m1.sequence, DEGRADED, 0, FrontStale, None, ClampUnit(confidence), ff, mf, person))
    else
      var t := SensedThreat(cfg, front, ff, person, confidence);
      var held := t.level != FULL_BRAKE && now < m.holdUntil;
      var level := if held then STOP_HOLD else t.level;
      (if t.level == FULL_BRAKE then m1.(holdUntil := Max(m.holdUntil, Double(now + cfg.stopHold))) else m1,
       Decision(m1.sequence, level, BrakeFor(level), t.reason, t.distance, ClampUnit(t.confidence), ff, mf, person))
  }

  // ---------------------------------------------------------------- the candidate loop

  datatype Candidate = Candidate(distance: real, reason: Reason, confidence: Float, center: bool)

  function LevelOf(cfg: Config, c: Candidate, person: bool): Level
  {
    if c.distance > 0.0 then RangeLevel(ThresholdsFor(cfg, c.center, person), c.distance) else CLEAR
  }

  function AsThreat(cfg: Config, c: Candidate, person: bool): Threat
  {
    Threat(LevelOf(cfg, c, person), c.reason, Some(c.distance), c.confidence)
  }

  /** The loop over the candidates, starting from `idle`. */
  function Best(cfg: Config, cs: seq<Candidate>, person: bool, idle: Threat): Threat
    decreases |cs|
  {
    if cs == [] then idle
    else
      var b, c := Best(cfg, cs[..|cs| - 1], person, idle), cs[|cs| - 1];
      if LevelOf(cfg, c, person) > b.level then AsThreat(cfg, c, person) else b
  }

  lemma BestSnoc(cfg: Config, cs: seq<Candidate>, c: Candidate, person: bool, idle: Threat)
    ensures Best(cfg, cs + [c], person, idle)
         == if LevelOf(cfg, c, person) > Best(cfg, cs, person, idle).level then AsThreat(cfg, c, person)
            else Best(cfg, cs, person, idle)
  {
    assert (cs + [c])[..|cs|] == cs;
  }

  /** For every list of candidates: no level is above the one found; the threat is `idle` when
      no candidate exceeds it, and otherwise the first candidate of the highest level. */
  lemma {:induction false} BestIsFirstHighest(cfg: Config, cs: seq<Candidate>, person: bool, idle: Threat)
    ensures var b := Best(cfg, cs, person, idle);
            && idle.level <= b.level && (forall c <- cs :: LevelOf(cfg, c, person) <= b.level)
            && if forall c <- cs :: LevelOf(cfg, c, person) <= idle.level then b == idle
               else exists i :: 0 <= i < |cs| && b == AsThreat(cfg, cs[i], person)
                                && forall j :: 0 <= j < i ==> LevelOf(cfg, cs[j], person) < b.level
    decreases |cs|
  {
    hide LevelOf;
    if cs == [] {
    } else {
      var rest, c := cs[..|cs| - 1], cs[|cs| - 1];
      BestIsFirstHighest(cfg, rest, person, idle);
      assert cs == rest + [c];
      BestSnoc(cfg, rest, c, person, idle);
    }
  }

  /** So the level found does not depend on the order of the candidates. */
  lemma BestLevelIgnoresOrder(cfg: Config, cs: seq<Candidate>, ds: seq<Candidate>, person: bool, idle: Threat)
    requires multiset(cs) == multiset(ds)
    ensures Best(cfg, cs, person, idle).level == Best(cfg, ds, person, idle).level
  {
    hide LevelOf, Best;
    BestIsFirstHighest(cfg, cs, person, idle);
    BestIsFirstHighest(cfg, ds, person, idle);
    forall c: Candidate ensures c in cs <==> c in ds {
      assert c in multiset(cs) <==> c in multiset(ds);
    }
  }

  function TofCandidate(f: Front, person: bool, confidence: Float): Candidate
  {
    Candidate(if f.tof.Fin? then f.tof.v else 0.0, if person then PersonWithRange else TofClose,
              TofConfidence(confidence), true)
  }

  function SideCandidate(f: Front): Candidate
  {
    Candidate(if SideRange(f).Some? then SideRange(f).value else 0.0, UltrasonicClose, SIDE_CONFIDENCE, false)
  }

  function FrameCandidates(f: Front, person: bool, confidence: Float): seq<Candidate>
  {
    (if TofValid(f) then [TofCandidate(f, person, confidence)] else [])
    + (if SideRange(f).Some? then [SideCandidate(f)] else [])
  }

  lemma NearestHasHighestLevel(t: Thresholds, a: real, b: real)
    ensures RangeLevel(t, Min(a, b)) == MaxLevel(RangeLevel(t, a), RangeLevel(t, b))
  {
  }

  lemma CandidateLevels(cfg: Config, f: Front, person: bool, confidence: Float)
    ensures TofLevel(cfg, f, person)
         == if TofValid(f) then LevelOf(cfg, TofCandidate(f, person, confidence), person) else CLEAR
    ensures SideLevel(cfg, f) == if SideRange(f).Some? then LevelOf(cfg, SideCandidate(f), person) else CLEAR
  {
    hide Scaled;
    if LeftValid(f) && RightValid(f) { NearestHasHighestLevel(cfg.side, f.left.v, f.right.v); }
  }

  /** On the candidates of a frame the loop finds the maximum over all valid sensors. */
  lemma BestIsFrameThreat(cfg: Config, f: Front, person: bool, confidence: Float)
    ensures Best(cfg, FrameCandidates(f, person, confidence), person, NoThreat(IdleConfidence(person, confidence)))
         == FrameThreat(cfg, f, person, confidence)
  {
    hide Best, LevelOf, TofLevel, SideLevel, TofConfidence, IdleConfidence;
    var idle := NoThreat(IdleConfidence(person, confidence));
    var tof, side := TofCandidate(f, person, confidence), SideCandidate(f);
    CandidateLevels(cfg, f, person, confidence);
    BestOfNone(cfg, person, idle);
    if TofValid(f) {
      BestSnoc(cfg, [], tof, person, idle);
      assert [] + [tof] == [tof];
      if SideRange(f).Some? {
        BestSnoc(cfg, [tof], side, person, idle);
        assert FrameCandidates(f, person, confidence) == [tof] + [side];
      } else {
        assert FrameCandidates(f, person, confidence) == [tof];
      }
    } else if SideRange(f).Some? {
      BestSnoc(cfg, [], side, person, idle);
      assert FrameCandidates(f, person, confidence) == [] + [side];
    } else {
      assert FrameCandidates(f, person, confidence) == [];
    }
  }

  lemma BestOfNone(cfg: Config, person: bool, idle: Threat)
    ensures Best(cfg, [], person, idle) == idle
  {
  }

  // ---------------------------------------------------------------- the controller as it runs

  class HpvcAebController {
    const cfg: Config
    var sequence: u32
    var holdUntil: real

    ghost function Abstract(): Memory
      reads this
    {
      Memory(sequence, holdUntil)
    }

    constructor (cfg: Config)
      ensures this.cfg == cfg && Abstract() == Memory(0, 0.0)
    {
      this.cfg := cfg;
      sequence, holdUntil := 0, 0.0;
    }

    method FindPersonInPath(middle: Middle) returns (found: bool, best: Float)
      ensures found <==> middle.flags / 16 % 2 == 1 && exists p <- middle.persons :: PersonCounts(cfg, p)
      ensures best == if middle.flags / 16 % 2 == 1 then BestConfidence(cfg, middle.persons) else Fin(0.0)
    {
      best := Fin(0.0);
      if middle.flags / 16 % 2 != 1 { return false, best; }
      for i := 0 to |middle.persons|
        invariant best == BestConfidence(cfg, middle.persons[..i])
      {
        var p := middle.persons[i];
        assert middle.persons[..i + 1][..i] == middle.persons[..i];
        if Less(p.valid, 0.5) { continue; }
        if Less(p.confidence, cfg.personConfidenceMin) { continue; }
        if !(AtLeast(p.centerX, cfg.gateMin) && AtMost(p.centerX, cfg.gateMax)) { continue; }
        best := if Above(p.confidence, best) then p.confidence else best;
      }
      assert middle.persons[..|middle.persons|] == middle.persons;
      BestConfidenceIsHighest(cfg, middle.persons);
      found := Greater(best, 0.0);
    }

    method Candidates(f: Front, person: bool, confidence: Float) returns (cs: seq<Candidate>)
      ensures cs == FrameCandidates(f, person, confidence)
    {
      cs := [];
      if TofValid(f) {
        cs := cs + [Candidate(f.tof.v, if person then PersonWithRange else TofClose,
                              Larger(Fin(Double(0.65)), confidence), true)];
      }
      var sides: seq<real> := [];
      if LeftValid(f) { sides := sides + [f.left.v]; }
      if RightValid(f) { sides := sides + [f.right.v]; }
      if |sides| > 0 {
        var nearest := if |sides| == 2 && sides[1] < sides[0] then sides[1] else sides[0];
        cs := cs + [Candidate(nearest, UltrasonicClose, Fin(Double(0.6)), false)];
      }
    }

    method Pick(cs: seq<Candidate>, person: bool, confidence: Float) returns (best: Threat, brake: int)
      ensures best == Best(cfg, cs, person, NoThreat(confidence)) && best.level <= FULL_BRAKE
      ensures brake == BrakeFor(best.level)
    {
      best, brake := NoThreat(confidence), 0;
      for i := 0 to |cs|
        invariant best == Best(cfg, cs[..i], person, NoThreat(confidence)) && best.level <= FULL_BRAKE
        invariant brake == BrakeFor(best.level)
      {
        var c := cs[i];
        assert cs[..i + 1] == cs[..i] + [c];
        BestSnoc(cfg, cs[..i], c, person, NoThreat(confidence));
        if c.distance <= 0.0 { continue; }
        var level := RangeLevel(ThresholdsFor(cfg, c.center, person), c.distance);
        if BrakeFor(level) > brake || level > best.level {
          best, brake := Threat(level, c.reason, Some(c.distance), c.confidence), BrakeFor(level);
        }
      }
      assert cs[..|cs|] == cs;
    }

    method RunDecide(front: Option<Front>, middle: Option<Middle>, now: real) returns (d: Decision)
      modifies this`sequence, this`holdUntil
      ensures (Abstract(), d) == Decide(cfg, old(Abstract()), front, middle, now)
    {
      hide Best, FrameThreat, FrameCandidates, BestConfidence, Round, RangeLevel;
      sequence := Wrap32(sequence + 1);
      var ff := front.Some? && Double(now - front.value.arrival) <= cfg.frontTimeout;
      var mf := middle.Some? && Double(now - middle.value.arrival) <= cfg.middleTimeout;
      var person, confidence := false, Fin(0.0);
      if mf { person, confidence := FindPersonInPath(middle.value); }
      if !ff && !mf { return Decision(sequence, SENSOR_FAULT, 0, NoFreshInput, None, 0.0, ff, mf, person); }
      if !ff && person {
        return Decision(sequence, DEGRADED, 0, FrontStale, None, ClampUnit(confidence), ff, mf, person);
      }
      var cs: seq<Candidate> := [];
      var idle := if person then confidence else Fin(1.0);
      BestOfNone(cfg, person, NoThreat(idle));
      if ff {
        cs := Candidates(front.value, person, confidence);
        BestIsFrameThreat(cfg, front.value, person, confidence);
      }
      var best, brake := Pick(cs, person, idle);
      if best.level == CLEAR && person {
        best := best.(level := FCW, reason := PersonAhead, confidence := confidence);
      }
      var state := best.level;
      if best.level == FULL_BRAKE {
        holdUntil := Max(holdUntil, Double(now + cfg.stopHold));
      } else if now < holdUntil {
        state, brake := STOP_HOLD, if brake > 100 then brake else 100;
      }
      d := Decision(sequence, state, brake, best.reason, best.distance, ClampUnit(best.confidence), ff, mf, person);
    }
  }
}

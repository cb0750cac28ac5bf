/** The brake request the HPVC sends (HPVC/hpvc_aeb.py): 32 bytes and their CRC. Distance and
    confidence are float32 patterns. */
module BrakeCommand {
  import opened Words
  import opened Float32
  import opened Crc32
  import opened Rounding
  import AF = AebFusion

  datatype Command = Command(state: byte, brake: byte, flags: byte, sequence: u32, timestampUs: u64,
                             distance: Option<u32>, confidence: u32, reason: u16)

  datatype Error = BadLength | CrcMismatch | BadMagicOrVersion | BadState | BadReason

  datatype Result = Ok(command: Command) | Err(error: Error)

  const MAGIC: seq<byte> := [0x48, 0x50, 0x41, 0x42]
  const VERSION: byte := 1
  const BODY_SIZE: nat := 32
  const STATES: byte := 7
  const REASONS: u16 := 8
  const MINUS_ONE: u32 := 0xBF80_0000

  /** A distance that is not finite travels as -1. */
  function DistanceOnWire(c: Command): u32
  {
    if c.distance.Some? && Value(c.distance.value).Fin? then c.distance.value else MINUS_ONE
  }

  function Body(c: Command): (b: seq<byte>)
    ensures |b| == BODY_SIZE
  {
    MAGIC + [VERSION, c.state, c.brake, c.flags] + LE32(c.sequence) + LE64(c.timestampUs) + LE32(DistanceOnWire(c))
    + LE32(c.confidence) + LE16(c.reason) + [0, 0]
  }

  function Encode(c: Command): seq<byte> { Seal(Body(c)) }

  function Decode(data: seq<byte>): Result
  {
    if |data| != BODY_SIZE + 4 then Err(BadLength)
    else if !Passes(data) then Err(CrcMismatch)
    else if data[..4] != MAGIC || data[4] != VERSION then Err(BadMagicOrVersion)
    else if data[5] >= STATES then Err(BadState)
    else if U16Le(data, 28) >= REASONS then Err(BadReason)
    else
      var distance := U32Le(data, 20);
      Ok(Command(data[5], data[6], data[7], U32Le(data, 8), U64Le(data, 12),
                 if Less(Value(distance), 0.0) then None else Some(distance), U32Le(data, 24), U16Le(data, 28)))
  }

  lemma EncodedFields(c: Command)
    ensures var p := Encode(c);
            && |p| == BODY_SIZE + 4 && Passes(p) && p[..4] == MAGIC && p[4] == VERSION
            && p[5] == c.state && p[6] == c.brake && p[7] == c.flags
            && U32Le(p, 8) == c.sequence && U64Le(p, 12) == c.timestampUs && U32Le(p, 20) == DistanceOnWire(c)
            && U32Le(p, 24) == c.confidence && U16Le(p, 28) == c.reason
  {
    var p := Encode(c);
    SealPasses(Body(c));
    hide DistanceOnWire;
    assert p[..4] == MAGIC;
    assert p[8..12] == LE32(c.sequence) && p[12..20] == LE64(c.timestampUs);
    assert p[20..24] == LE32(DistanceOnWire(c)) && p[24..28] == LE32(c.confidence);
    U32LeAt(p, 8, c.sequence);
    U64LeAt(p, 12, c.timestampUs);
    U32LeAt(p, 20, DistanceOnWire(c));
    U32LeAt(p, 24, c.confidence);
  }

  lemma MinusOneIsNegative()
    ensures Less(Value(MINUS_ONE), 0.0)
  {
    ValueOfOne(ONE, 127);
    NegateValue(ONE);
  }

  /** Which bytes are a request: 36 of them with the right CRC, "HPAB", version 1, one of seven
      states and one of eight reasons. */
  lemma AcceptedRequests(data: seq<byte>)
    ensures Decode(data).Ok?
       <==> && |data| == 36 && Passes(data) && data[..4] == [0x48, 0x50, 0x41, 0x42] && data[4] == 1
            && data[5] <= 6 && U16Le(data, 28) <= 7
  {
    hide Passes, Value, U32Le, U64Le;
  }

  /** The command comes back as it was exactly when its state and reason are known and its
      distance is absent or finite and not negative. */
  lemma CommandRoundTrip(c: Command)
    ensures Decode(Encode(c)) == Ok(c)
       <==> && c.state < STATES && c.reason < REASONS
            && (c.distance.Some? ==> Value(c.distance.value).Fin? && AtLeast(Value(c.distance.value), 0.0))
  {
    hide Encode, Passes;
    EncodedFields(c);
    MinusOneIsNegative();
  }

  /** A request hit by an error burst of at most 32 bits is never obeyed. */
  lemma DamagedRequestIsRefused(c: Command, received: seq<byte>, at: nat)
    requires DifferInBurst(Bits(Encode(c)), Bits(received), at)
    ensures Decode(received) == Err(CrcMismatch)
  {
    SealPasses(Body(c));
    BurstDetected(Encode(c), received, at);
    assert |received| == BODY_SIZE + 4;
  }

  // ---------------------------------------------------------------- the requests of the controller

  function ReasonCode(r: AF.Reason): u16
  {
    match r
    case ReasonClear => 0
    case TofClose => 1
    case UltrasonicClose => 2
    case PersonAhead => 3
    case PersonWithRange => 4
    case NoFreshInput => 5
    case FrontStale => 6
  }

  function Flags(d: AF.Decision): byte
  {
    (if d.frontFresh then 1 else 0) + (if d.middleFresh then 2 else 0) + (if d.personInPath then 4 else 0)
  }

  /** The request for a decision; distance and confidence as the packing rounds them. */
  function CommandOf(d: AF.Decision, timestampUs: u64, distance: u32, confidence: u32): Command
    requires 0 <= d.brake < 0x100
  {
    Command(d.state, d.brake, Flags(d), d.sequence, timestampUs, if d.distance.Some? then Some(distance) else None,
            confidence, ReasonCode(d.reason))
  }

  /** The request on the bytes: state and brake as they are, one bit for each input that was fresh
      and for a person, the number of the reason, and -1 for a distance there is none of. */
  lemma RequestBytes(d: AF.Decision, timestampUs: u64, distance: u32, confidence: u32)
    requires 0 <= d.brake < 0x100
    ensures var p := Encode(CommandOf(d, timestampUs, distance, confidence));
            && |p| == 36 && Passes(p) && p[..4] == [0x48, 0x50, 0x41, 0x42] && p[4] == 1
            && p[5] == d.state && p[6] == d.brake && U32Le(p, 8) == d.sequence && U64Le(p, 12) == timestampUs
            && p[7] < 8 && (p[7] % 2 == 1 <==> d.frontFresh) && (p[7] / 2 % 2 == 1 <==> d.middleFresh)
            && (p[7] / 4 % 2 == 1 <==> d.personInPath)
            && (U16Le(p, 28) == 0 <==> d.reason == AF.ReasonClear)
            && (U16Le(p, 28) == 1 <==> d.reason == AF.TofClose)
            && (U16Le(p, 28) == 2 <==> d.reason == AF.UltrasonicClose)
            && (U16Le(p, 28) == 3 <==> d.reason == AF.PersonAhead)
            && (U16Le(p, 28) == 4 <==> d.reason == AF.PersonWithRange)
            && (U16Le(p, 28) == 5 <==> d.reason == AF.NoFreshInput)
            && (U16Le(p, 28) == 6 <==> d.reason == AF.FrontStale)
            && (d.distance.None? ==> Value(U32Le(p, 20)) == Fin(-1.0))
            && (d.distance.Some? && Value(distance).Fin? ==> U32Le(p, 20) == distance)
            && U32Le(p, 24) == confidence
  {
    hide Encode, Value, U32Le, U16Le, U64Le, Passes;
    EncodedFields(CommandOf(d, timestampUs, distance, confidence));
    ValueOfMinusOne();
  }

  lemma ValueOfMinusOne()
    ensures Value(MINUS_ONE) == Fin(-1.0)
  {
    ValueOfOne(ONE, 127);
    NegateValue(ONE);
  }

  /** A decision has a distance exactly when a range caused it, and then a positive one. */
  lemma DistanceIsPositive(cfg: AF.Config, m: AF.Memory, front: Option<AF.Front>, middle: Option<AF.Middle>, now: real)
    ensures var d := AF.Decide(cfg, m, front, middle, now).1;
            && (d.distance.Some? <==> d.reason in {AF.TofClose, AF.PersonWithRange, AF.UltrasonicClose})
            && (d.distance.Some? ==> d.distance.value > 0.0)
            && 0 <= d.brake <= 100 && d.state < STATES
  {
    hide AF.PersonInPath, AF.PersonConfidence, AF.FrontFresh, AF.ClampUnit, AF.RangeLevel, AF.ThresholdsFor, Round;
  }

  /** Every decision the controller can take comes back from the wire as it was sent. */
  lemma EveryDecisionTravels(cfg: AF.Config, m: AF.Memory, front: Option<AF.Front>, middle: Option<AF.Middle>,
                             now: real, timestampUs: u64, distance: u32, confidence: u32)
    requires var d := AF.Decide(cfg, m, front, middle, now).1;
             d.distance.Some? ==> Value(distance) == Fin(Single(d.distance.value))
    ensures var d := AF.Decide(cfg, m, front, middle, now).1;
            && 0 <= d.brake < 0x100
            && var c := CommandOf(d, timestampUs, distance, confidence); Decode(Encode(c)) == Ok(c)
  {
    hide AF.Decide, Decode, Encode, Round, Value;
    DistanceIsPositive(cfg, m, front, middle, now);
    var d := AF.Decide(cfg, m, front, middle, now).1;
    if d.distance.Some? { RoundMonotone(0.0, d.distance.value, 24); }
    RoundOfZero(24);
    CommandRoundTrip(CommandOf(d, timestampUs, distance, confidence));
  }

  lemma RoundOfZero(bits: nat)
    ensures Round(0.0, bits) == 0.0
  {
  }
}

/** What the FRONT receiver makes of what the senders pack, and of what noise makes of it. */
module FrontPackets {
  import opened Words
  import opened Crc32
  import opened Float32
  import opened Hpsc
  import opened FrontState
  import opened LargestFloat

  predicate Newer(s: State, p: seq<byte>)
    requires |p| == SIZE
  {
    !s.initialized || SequenceNewer(U32Le(p, 8), s.lastSequence)
  }

  /** A pattern of a finite float other than the two largest ones. */
  predicate OrdinaryFloat(pattern: u32)
  {
    Value(pattern).Fin? && Abs(Value(pattern).v) < 340282346638528859811704183484516925440.0
  }

  /** The packets a receiver in state `s` acts on, on the bytes: 40 of them, "HPSC", version 1,
      header size 32, the reserved words zero and the CRC right; a number at most 2^31 - 1 ahead of
      the last one; and a request to center, to disable, or to steer by at most half a radian at a
      positive rate with both valid bits. Of the state only the sequence memory counts. */
  predicate Acceptable(s: State, p: seq<byte>)
  {
    && |p| == 40 && p[..4] == [0x48, 0x50, 0x53, 0x43] && p[4] == 1 && p[7] == 32
    && U16Le(p, 30) == 0 && U32Le(p, 32) == 0 && Passes(p)
    && (s.initialized ==> 1 <= (U32Le(p, 8) - s.lastSequence) % 0x1_0000_0000 <= 0x7FFF_FFFF)
    && (|| p[6] / 2 % 2 == 1
        || p[5] == 0
        || (&& p[5] == 1 && p[6] % 2 == 1 && p[6] / 4 % 2 == 1
            && OrdinaryFloat(U32Le(p, 20)) && Abs(Value(U32Le(p, 20)).v) <= 0.5
            && OrdinaryFloat(U32Le(p, 24)) && Value(U32Le(p, 24)).v > 0.0))
  }

  lemma AcceptableMeans(s: State, p: seq<byte>)
    ensures Acceptable(s, p)
       <==> && WellFormed(p) && Newer(s, p)
            && (EmergencyCenter(p[6]) || p[5] == CONTROL_DISABLED || CommandValid(p))
  {
    hide Value, Crc;
  }

  lemma AcceptIffAcceptable(s: State, p: seq<byte>, nowMs: u32)
    ensures Accept(s, p, nowMs).1 <==> Acceptable(s, p)
    ensures Accept(s, p, nowMs).1 ==>
              && Accept(s, p, nowMs).0.lastSequence == U32Le(p, 8)
              && Accept(s, p, nowMs).0.initialized && Accept(s, p, nowMs).0.linkValid
              && Accept(s, p, nowMs).0.accepted == Wrap32(s.accepted + 1)
              && Accept(s, p, nowMs).0.rejected == s.rejected
              && Accept(s, p, nowMs).0.applied == s.applied
  {
    hide Acceptable, CommandValid, Value;
    AcceptableMeans(s, p);
  }

  // ---------------------------------------------------------------- round trip

  /** The angle and rate patterns a steering command may carry. */
  predicate Drivable(angle: u32, rate: u32)
  {
    && IsFiniteFloat(Value(angle)) && Abs(Value(angle).v) <= MAX_ABS_RAD
    && IsFiniteFloat(Value(rate)) && Value(rate).v > 0.0
  }

  lemma PackedFields(sequence: int, timestampUs: int, angle: u32, rate: u32, alive: int, valid: bool, center: bool)
    ensures var p := PackSteering(sequence, timestampUs, angle, rate, alive, valid, center);
            && WellFormed(p)
            && U32Le(p, 8) == Wrap32(sequence)
            && U32Le(p, 20) == (if center then ZERO else angle) && U32Le(p, 24) == rate
            && SteeringValid(p[6]) == valid && UpstreamValid(p[6]) == valid && EmergencyCenter(p[6]) == center
            && p[5] == (if valid && !center then CONTROL_STEERING_ANGLE else CONTROL_DISABLED)
  {
    var flags := PackedFlags(valid, center);
    var mode := if valid && !center then CONTROL_STEERING_ANGLE else CONTROL_DISABLED;
    var carried := if center then ZERO else angle;
    FieldsOfSealed(mode, flags, Wrap32(sequence), timestampUs % TWO64, carried, rate, Wrap16(alive));
    SealPasses(Body(mode, flags, Wrap32(sequence), timestampUs % TWO64, carried, rate, Wrap16(alive)));
  }

  /** From the arguments of the Python sender to the state of the C receiver. A packet whose
      sequence is newer is accepted exactly when it is not a steering command, or its angle and
      rate are drivable, and the new state is determined by the arguments. */
  lemma HpscRoundTrip(s: State, sequence: int, timestampUs: int, angle: u32, rate: u32, alive: int,
                      valid: bool, center: bool, nowMs: u32)
    requires s.initialized ==> SequenceNewer(Wrap32(sequence), s.lastSequence)
    ensures var (t, ok) := Accept(s, PackSteering(sequence, timestampUs, angle, rate, alive, valid, center), nowMs);
            && (ok <==> (center || !valid || Drivable(angle, rate)))
            && (!ok ==> t == s.(rejected := (s.rejected + 1) % 0x1_0000_0000))
            && (ok ==>
                 && t.lastSequence == Wrap32(sequence) && t.lastPacketMs == nowMs
                 && t.initialized && t.linkValid && t.accepted == Wrap32(s.accepted + 1)
                 && t.emergencyCenter == center && t.commandValid == (valid && !center)
                 && t.target == (if valid && !center then Value(angle).v else 0.0)
                 && t.maxRate == (if valid && !center then Clamp(Value(rate).v, 13421773.0 / 268435456.0, 10.0)
                                  else 1.0))
  {
    PackedFields(sequence, timestampUs, angle, rate, alive, valid, center);
  }

  /** `max_rate_rad_s` may be any finite positive float for the sender, but the receiver's
      finiteness test excludes the largest one: a command with an allowed angle is refused for
      its rate exactly when it is that one. */
  lemma LargestRateIsRefused(s: State, sequence: int, timestampUs: int, angle: u32, rate: u32, alive: int, nowMs: u32)
    requires s.initialized ==> SequenceNewer(Wrap32(sequence), s.lastSequence)
    requires rate < 0x7F80_0000 && Value(rate) != Fin(0.0)
    requires IsFiniteFloat(Value(angle)) && Abs(Value(angle).v) <= MAX_ABS_RAD
    ensures Accept(s, PackSteering(sequence, timestampUs, angle, rate, alive, true, false), nowMs).1
       <==> rate != 0x7F7F_FFFF
  {
    hide Accept, PackSteering, Value;
    HpscRoundTrip(s, sequence, timestampUs, angle, rate, alive, true, false, nowMs);
    OnlyOneIsLargest(rate);
    OnlyLargestIsRefused(rate);
  }

  // ---------------------------------------------------------------- reserved flags

  lemma LowBits(f: byte, high: nat, low: nat)
    requires f == 8 * high + low && low < 8
    ensures f % 2 == low % 2 && f / 2 % 2 == low / 2 % 2 && f / 4 % 2 == low / 4 % 2
  {
    assert f / 2 == 4 * high + low / 2;
    assert f / 4 == 2 * high + low / 4;
  }

  lemma LowBitsDecide(f: byte, g: byte)
    requires f % 8 == g % 8
    ensures SteeringValid(f) == SteeringValid(g) && EmergencyCenter(f) == EmergencyCenter(g)
    ensures UpstreamValid(f) == UpstreamValid(g)
  {
    LowBits(f, f / 8, f % 8);
    LowBits(g, g / 8, g % 8);
  }

  lemma SealedIsWellFormed(mode: byte, flags: byte, sequence: u32, timestamp: u64, angle: u32, rate: u32, alive: u16)
    ensures var p := Seal(Body(mode, flags, sequence, timestamp, angle, rate, alive));
            && WellFormed(p) && U32Le(p, 8) == sequence && p[5] == mode && p[6] == flags
            && U32Le(p, 20) == angle && U32Le(p, 24) == rate
  {
    FieldsOfSealed(mode, flags, sequence, timestamp, angle, rate, alive);
    SealPasses(Body(mode, flags, sequence, timestamp, angle, rate, alive));
  }

  /** Flag bits 3 to 7 are not looked at: genuine packets that differ in them alone have the
      same effect on every receiver. */
  lemma ReservedFlagsAreIgnored(s: State, mode: byte, f: byte, g: byte, sequence: u32, timestamp: u64, angle: u32,
                                rate: u32, alive: u16, nowMs: u32)
    requires f % 8 == g % 8
    ensures Accept(s, Seal(Body(mode, f, sequence, timestamp, angle, rate, alive)), nowMs)
         == Accept(s, Seal(Body(mode, g, sequence, timestamp, angle, rate, alive)), nowMs)
  {
    hide Seal, Body, Value, U32Le, WellFormed;
    SealedIsWellFormed(mode, f, sequence, timestamp, angle, rate, alive);
    SealedIsWellFormed(mode, g, sequence, timestamp, angle, rate, alive);
    LowBitsDecide(f, g);
  }

  /** So a packet with any reserved bits set can be acted on, such as this emergency center with
      all of them. */
  lemma ReservedFlagsAccepted(s: State, sequence: u32, timestamp: u64, angle: u32, rate: u32, alive: u16, nowMs: u32)
    requires s.initialized ==> SequenceNewer(sequence, s.lastSequence)
    ensures var (t, ok) :=
              Accept(s, Seal(Body(CONTROL_DISABLED, 0xFA, sequence, timestamp, angle, rate, alive)), nowMs);
            ok && t.emergencyCenter && t.lastSequence == sequence
  {
    hide Seal, Body, Value, U32Le, WellFormed;
    SealedIsWellFormed(CONTROL_DISABLED, 0xFA, sequence, timestamp, angle, rate, alive);
  }

  /** A packet that is not newer is dropped without a trace. */
  lemma StaleIsIgnored(s: State, p: seq<byte>, nowMs: u32)
    requires WellFormed(p) && s.initialized && !SequenceNewer(U32Le(p, 8), s.lastSequence)
    ensures Accept(s, p, nowMs) == (s, false)
  {
  }

  // ---------------------------------------------------------------- corruption

  /** The steering centers only on request: after a packet no command is in force exactly when
      the packet is acceptable and asks for that, or it is not and none was before. */
  lemma CentersOnlyOnRequest(s: State, p: seq<byte>, nowMs: u32)
    ensures var t := Accept(s, p, nowMs).0;
            !t.commandValid
            <==> if Acceptable(s, p) then p[6] / 2 % 2 == 1 || p[5] == 0 else !s.commandValid
  {
    hide Value, WellFormed, Acceptable;
    AcceptableMeans(s, p);
  }

  /** Whatever the state, a genuine packet hit by an error burst of at most 32 bits is counted
      as rejected and changes nothing else. */
  lemma CorruptedPacketIsRejected(s: State, sent: seq<byte>, received: seq<byte>, at: nat, nowMs: u32)
    requires WellFormed(sent) && DifferInBurst(Bits(sent), Bits(received), at)
    ensures Accept(s, received, nowMs) == (s.(rejected := (s.rejected + 1) % 0x1_0000_0000), false)
  {
    assert Passes(sent);
    BurstDetected(sent, received, at);
  }
}

/** The HPSC steering packet: 40 bytes, little endian, CRC-32 over the first 36. The layout
    shared by both senders, and the bench sender of FRONT/servo.py. */
module Hpsc {
  import opened Words
  import opened Crc32
  import opened Float32

  const SIZE: nat := 40
  const MAGIC: seq<byte> := [0x48, 0x50, 0x53, 0x43]
  const VERSION: byte := 1
  const HEADER_SIZE: byte := 32
  const CONTROL_DISABLED: byte := 0
  const CONTROL_STEERING_ANGLE: byte := 1
  const FLAG_STEERING_VALID: byte := 1
  const FLAG_EMERGENCY_CENTER: byte := 2
  const FLAG_UPSTREAM_VALID: byte := 4

  predicate SteeringValid(flags: byte) { flags % 2 != 0 }

  predicate EmergencyCenter(flags: byte) { flags / 2 % 2 != 0 }

  predicate UpstreamValid(flags: byte) { flags / 4 % 2 != 0 }

  function Body(controlMode: byte, flags: byte, sequence: u32, timestamp: u64, angle: u32, rate: u32,
                alive: u16): (b: seq<byte>)
    ensures |b| == SIZE - 4
  {
    MAGIC + [VERSION, controlMode, flags, HEADER_SIZE] + LE32(sequence) + LE64(timestamp)
    + LE32(angle) + LE32(rate) + LE16(alive) + [0, 0] + [0, 0, 0, 0]
  }

  /** Where the receiver finds each field again. */
  lemma FieldsOfSealed(controlMode: byte, flags: byte, sequence: u32, timestamp: u64, angle: u32, rate: u32,
                       alive: u16)
    ensures var p := Seal(Body(controlMode, flags, sequence, timestamp, angle, rate, alive));
            && p[..4] == MAGIC && p[4] == VERSION && p[5] == controlMode && p[6] == flags && p[7] == HEADER_SIZE
            && U32Le(p, 8) == sequence && U32Le(p, 20) == angle && U32Le(p, 24) == rate
            && U16Le(p, 30) == 0 && U32Le(p, 32) == 0
            && U64Le(p, 12) == timestamp && U16Le(p, 28) == alive
  {
    hide LE32, LE64, U64Le, Crc;
    var p := Seal(Body(controlMode, flags, sequence, timestamp, angle, rate, alive));
    assert p[..4] == MAGIC;
    assert p[8..12] == LE32(sequence) && p[20..24] == LE32(angle) && p[24..28] == LE32(rate);
    U32LeAt(p, 8, sequence);
    U32LeAt(p, 20, angle);
    U32LeAt(p, 24, rate);
    assert p[12..20] == LE64(timestamp);
    U64LeAt(p, 12, timestamp);
  }

  function PackedFlags(steeringValid: bool, emergencyCenter: bool): (flags: byte)
    ensures SteeringValid(flags) == steeringValid && UpstreamValid(flags) == steeringValid
    ensures EmergencyCenter(flags) == emergencyCenter
  {
    (if steeringValid then FLAG_STEERING_VALID + FLAG_UPSTREAM_VALID else 0)
    + (if emergencyCenter then FLAG_EMERGENCY_CENTER else 0)
  }

  /** `pack_steering`: the mode and the flags follow from two booleans, and an emergency
      center replaces the angle by zero. Angle and rate are float32 patterns. */
  function PackSteering(sequence: int, timestampUs: int, angle: u32, rate: u32, alive: int,
                        steeringValid: bool, emergencyCenter: bool): seq<byte>
  {
    var controlMode :=
      if steeringValid && !emergencyCenter then CONTROL_STEERING_ANGLE else CONTROL_DISABLED;
    Seal(Body(controlMode, PackedFlags(steeringValid, emergencyCenter), Wrap32(sequence), timestampUs % TWO64,
              if emergencyCenter then ZERO else angle, rate, Wrap16(alive)))
  }

  /** The keyboard bench sender: one packet per call, sequence and alive counters stepped. */
  class SteeringSender {
    var angle: u32
    var sequence: u32
    var alive: u16
    var armed: bool

    constructor (sequence: u32, armed: bool)
      ensures this.angle == ZERO && this.sequence == sequence && this.alive == 0 && this.armed == armed
    {
      this.angle := ZERO;
      this.sequence := sequence;
      this.alive := 0;
      this.armed := armed;
    }

    method SendPacket(timestampUs: int, rate: u32, emergencyCenter: bool) returns (packet: seq<byte>)
      modifies this`sequence, this`alive
      ensures packet == PackSteering(old(sequence), timestampUs, if armed then angle else ZERO, rate, old(alive),
                                     armed && !emergencyCenter, emergencyCenter)
      ensures sequence == Wrap32(old(sequence) + 1) && alive == Wrap16(old(alive) + 1)
    {
      hide PackSteering;
      packet := PackSteering(sequence, timestampUs, if armed then angle else ZERO, rate, alive,
                             armed && !emergencyCenter, emergencyCenter);
      sequence := Wrap32(sequence + 1);
      alive := Wrap16(alive + 1);
    }
  }
}

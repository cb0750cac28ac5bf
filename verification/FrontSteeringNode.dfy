/** The FRONT steering receiver as it runs: the fields of the module state, updated in place. */
module FrontSteering {
  import opened Words
  import opened Crc32
  import opened Float32
  import opened Hpsc
  import opened FrontState

  class FrontSteeringNode {
    var initialized: bool
    var linkValid: bool
    var commandValid: bool
    var emergencyCenter: bool
    var targetAngleRad: real
    var appliedAngleRad: real
    var maxRateRadS: real
    var lastSequence: u32
    var lastPacketMs: u32
    var lastApplyMs: u32
    var acceptedPackets: u32
    var rejectedPackets: u32

    ghost function Abstract(): State
      reads this
    {
      State(initialized, linkValid, commandValid, emergencyCenter, targetAngleRad, appliedAngleRad, maxRateRadS,
            lastSequence, lastPacketMs, lastApplyMs, acceptedPackets, rejectedPackets)
    }

    constructor (nowMs: u32)
      ensures Abstract() == Boot(nowMs)
    {
      initialized, linkValid, commandValid, emergencyCenter := false, false, false, false;
      targetAngleRad, appliedAngleRad, maxRateRadS := 0.0, 0.0, DEFAULT_MAX_RATE;
      lastSequence, lastPacketMs, lastApplyMs := 0, 0, nowMs;
      acceptedPackets, rejectedPackets := 0, 0;
    }

    method RejectPacket()
      modifies this`rejectedPackets
      ensures Abstract() == Reject(old(Abstract()))
    {
      rejectedPackets := Wrap32(rejectedPackets + 1);
    }

    method AcceptNewTarget(sequence: u32, angleRad: real, rateRadS: real, valid: bool, center: bool, nowMs: u32)
      modifies this
      ensures Abstract() == AcceptTarget(old(Abstract()), sequence, angleRad, rateRadS, valid, center, nowMs)
    {
      initialized := true;
      lastSequence := sequence;
      lastPacketMs := nowMs;
      maxRateRadS := Clamp(rateRadS, MIN_RATE, MAX_RATE);
      emergencyCenter := center;
      commandValid := valid && !center;
      linkValid := true;
      targetAngleRad := if commandValid then Clamp(angleRad, -MAX_ABS_RAD, MAX_ABS_RAD) else 0.0;
      acceptedPackets := Wrap32(acceptedPackets + 1);
    }

    /** A null or wrongly sized payload is a sequence of another length here. */
    method AcceptHpscPacket(payload: seq<byte>, nowMs: u32) returns (ok: bool)
      modifies this
      ensures (Abstract(), ok) == Accept(old(Abstract()), payload, nowMs)
    {
      if |payload| != SIZE {
        RejectPacket();
        return false;
      }
      if payload[0] != 0x48 || payload[1] != 0x50 || payload[2] != 0x53 || payload[3] != 0x43 {
        assert payload[..4] != MAGIC;
        RejectPacket();
        return false;
      }
      assert payload[..4] == MAGIC;
      var controlMode, flags := payload[5], payload[6];
      var sequence := U32Le(payload, 8);
      var angle, rate := Value(U32Le(payload, 20)), Value(U32Le(payload, 24));
      var calculatedCrc := Crc32Ieee(payload[..36]);
      if payload[4] != VERSION || payload[7] != HEADER_SIZE
         || U16Le(payload, 30) != 0 || U32Le(payload, 32) != 0 || U32Le(payload, 36) != calculatedCrc {
        RejectPacket();
        return false;
      }
      if initialized && !SequenceNewer(sequence, lastSequence) {
        return false;
      }
      var valid :=
        SteeringValid(flags) && UpstreamValid(flags) && controlMode == CONTROL_STEERING_ANGLE
        && IsFiniteFloat(angle) && IsFiniteFloat(rate) && Abs(angle.v) <= MAX_ABS_RAD && rate.v > 0.0;
      if EmergencyCenter(flags) {
        AcceptNewTarget(sequence, 0.0, DEFAULT_MAX_RATE, false, true, nowMs);
        return true;
      }
      if !valid {
        if controlMode == CONTROL_DISABLED {
          AcceptNewTarget(sequence, 0.0, DEFAULT_MAX_RATE, false, false, nowMs);
          return true;
        }
        RejectPacket();
        return false;
      }
      AcceptNewTarget(sequence, angle.v, rate.v, true, false, nowMs);
      return true;
    }

    /** Three parsing stages over the receive buffer; `length` is what the descriptor reports. */
    method AcceptEthernetFrame(frame: array?<byte>, length: nat, nowMs: u32) returns (ok: bool)
      requires frame != null ==> frame.Length == RX_BUFFER_SIZE && length <= RX_BUFFER_SIZE
      modifies this
      ensures frame == null ==> !ok && unchanged(this)
      ensures frame != null ==> (Abstract(), ok) == AcceptFrame(old(Abstract()), frame[..], length, nowMs)
    {
      if frame == null || length < SIZE {
        return false;
      }
      ghost var f := frame[..];
      ghost var ethernet, raw := OptionSeq(EthernetCandidate(f, length)), OptionSeq(RawIpCandidate(f, length));
      ghost var scan := ScanOffsets(f, 0, length);
      assert Attempts(f, length) == ethernet + (raw + scan);
      var at := EthernetHeaders(frame, length);
      if at.Some? {
        ok := TryAt(frame, at.value, nowMs, raw + scan);
        if ok { return true; }
      } else {
        assert ethernet + (raw + scan) == raw + scan;
      }
      at := RawIpHeaders(frame, length);
      if at.Some? {
        ok := TryAt(frame, at.value, nowMs, scan);
        if ok { return true; }
      } else {
        assert raw + scan == scan;
      }
      ok := ScanForMagic(frame, length, nowMs);
    }

    /** Stage one: the payload of an Ethernet/IPv4/UDP frame to the steering port. */
    method EthernetHeaders(frame: array<byte>, length: nat) returns (at: Option<nat>)
      requires frame.Length == RX_BUFFER_SIZE && length <= RX_BUFFER_SIZE
      ensures at == EthernetCandidate(frame[..], length)
    {
      at := None;
      if length >= 82 && 0x100 * frame[12] as int + frame[13] as int == 0x0800 {
        var ihl := frame[14] % 16 * 4;
        if frame[14] / 16 == 4 && ihl >= 20 && frame[23] == 17 {
          var totalLength := 0x100 * frame[16] as int + frame[17] as int;
          if totalLength >= ihl + 48 && 14 + totalLength <= length {
            var udp := 14 + ihl;
            var dstPort := 0x100 * frame[udp + 2] as int + frame[udp + 3] as int;
            var udpLength := 0x100 * frame[udp + 4] as int + frame[udp + 5] as int;
            if dstPort == UDP_PORT && udpLength >= 48 {
              at := Some(udp + 8);
            }
          }
        }
      }
    }

    /** Stage two: the same headers without the Ethernet part, and without a length check. */
    method RawIpHeaders(frame: array<byte>, length: nat) returns (at: Option<nat>)
      requires frame.Length == RX_BUFFER_SIZE && length <= RX_BUFFER_SIZE
      ensures at == RawIpCandidate(frame[..], length)
    {
      at := None;
      if length >= 82 && frame[0] / 16 == 4 && frame[9] == 17 {
        var ihl := frame[0] % 16 * 4;
        if ihl >= 20 {
          var dstPort := 0x100 * frame[ihl + 2] as int + frame[ihl + 3] as int;
          var udpLength := 0x100 * frame[ihl + 4] as int + frame[ihl + 5] as int;
          if dstPort == UDP_PORT && udpLength >= 48 {
            at := Some(ihl + 8);
          }
        }
      }
    }

    /** Stage three: every offset at which the magic appears. */
    method ScanForMagic(frame: array<byte>, length: nat, nowMs: u32) returns (ok: bool)
      requires frame.Length == RX_BUFFER_SIZE && SIZE <= length <= RX_BUFFER_SIZE
      modifies this
      ensures (Abstract(), ok) == TryAll(old(Abstract()), frame[..], ScanOffsets(frame[..], 0, length), nowMs)
    {
      ghost var f := frame[..];
      for offset := 0 to length - SIZE + 1
        invariant TryAll(old(Abstract()), f, ScanOffsets(f, 0, length), nowMs)
               == TryAll(Abstract(), f, ScanOffsets(f, offset, length), nowMs)
      {
        ScanFirst(f, offset, length);
        MagicAtIsMagic(f, offset);
        if frame[offset] == 0x48 && frame[offset + 1] == 0x50 && frame[offset + 2] == 0x53
           && frame[offset + 3] == 0x43 {
          ok := TryAt(frame, offset, nowMs, ScanOffsets(f, offset + 1, length));
          if ok { return true; }
        }
      }
      return false;
    }

    method TryAt(frame: array<byte>, offset: nat, nowMs: u32, ghost rest: seq<nat>) returns (ok: bool)
      requires offset + SIZE <= frame.Length && InBuffer(frame[..], rest)
      modifies this
      ensures TryAll(old(Abstract()), frame[..], [offset] + rest, nowMs)
           == if ok then (Abstract(), true) else TryAll(Abstract(), frame[..], rest, nowMs)
    {
      ghost var before := Abstract();
      assert frame[offset..offset + SIZE] == frame[..][offset..offset + SIZE];
      ok := AcceptHpscPacket(frame[offset..offset + SIZE], nowMs);
      TryFirst(before, frame[..], offset, rest, nowMs, Abstract(), ok);
    }

    method ApplyFailSafe(nowMs: u32)
      modifies this`linkValid, this`commandValid, this`emergencyCenter, this`targetAngleRad
      ensures Abstract() == if WatchdogFires(old(Abstract()), nowMs) then FailSafe(old(Abstract())) else old(Abstract())
    {
      var ageMs := Wrap32(nowMs - lastPacketMs);
      if !initialized || ageMs > WATCHDOG_MS {
        linkValid := false;
        commandValid := false;
        emergencyCenter := true;
        targetAngleRad := 0.0;
      }
    }

    /** One servo period; `pulseUs` is the pulse sent to the pin. */
    method RunOnceAt(nowMs: u32) returns (pulseUs: int)
      modifies this
      ensures Abstract() == RunOnce(old(Abstract()), nowMs)
      ensures pulseUs == ServoPulseUs(appliedAngleRad)
    {
      ApplyFailSafe(nowMs);
      var maxStep := StepLimit(nowMs);
      lastApplyMs := nowMs;
      MoveTowardsTarget(maxStep);
      pulseUs := ServoPulse(appliedAngleRad);
    }

    method MoveTowardsTarget(maxStep: real)
      requires maxStep > 0.0
      modifies this`appliedAngleRad
      ensures appliedAngleRad == Advance(old(appliedAngleRad), targetAngleRad, maxStep)
    {
      var error := targetAngleRad - appliedAngleRad;
      if error > maxStep {
        error := maxStep;
      } else if error < -maxStep {
        error := -maxStep;
      }
      appliedAngleRad := Clamp(appliedAngleRad + error, -MAX_ABS_RAD, MAX_ABS_RAD);
    }

    method StepLimit(nowMs: u32) returns (maxStep: real)
      ensures maxStep == MaxStep(Abstract(), nowMs)
    {
      var dtMs := Wrap32(nowMs - lastApplyMs);
      maxStep := RateStep(maxRateRadS, dtMs);
      if maxStep < MIN_STEP { maxStep := MIN_STEP; }
    }

    /** The two branches of the angle conversion and the clamp of the sender: always the whole
        microsecond nearest to the calibrated line through left, center and right. */
    method ServoPulse(angleRad: real) returns (pulseUs: int)
      ensures pulseUs == ServoPulseUs(angleRad)
      ensures LEFT_US <= pulseUs <= RIGHT_US && Abs(pulseUs as real - CalibratedUs(angleRad)) <= 0.5
    {
      var normalized := angleRad / MAX_ABS_RAD;
      if normalized < -1.0 {
        normalized := -1.0;
      } else if normalized > 1.0 {
        normalized := 1.0;
      }
      if normalized >= 0.0 {
        var span := (CENTER_US - LEFT_US) as real;
        pulseUs := CENTER_US - (normalized * span + 0.5).Floor;
      } else {
        var span := (RIGHT_US - CENTER_US) as real;
        pulseUs := CENTER_US + (-normalized * span + 0.5).Floor;
      }
      PulseIsNearest(angleRad);
      if pulseUs < LEFT_US {
        pulseUs := LEFT_US;
      } else if pulseUs > RIGHT_US {
        pulseUs := RIGHT_US;
      }
    }
  }
}

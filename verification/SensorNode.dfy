/** The frame the FRONT sensor node assembles each cycle (FRONT/AebSensorNode.c), and what it
    takes of it to brake at the other end. */
module SensorNode {
  import opened Words
  import opened Float32
  import opened Rounding
  import opened SampleRing
  import opened SensorPacket
  import opened AebFusion

  /** One ultrasonic sensor after its update. */
  datatype Slot = Slot(valid: bool, filtered: u16, diag: u16)

  datatype Tof = Tof(valid: bool, cmX10: u16, diag: u16)

  /** What the steering receiver reports. */
  datatype Steering = Steering(linkValid: bool, commandValid: bool, emergencyCenter: bool)

  function Flag(on: bool, weight: nat): nat { if on then weight else 0 }

  function Range(s: Slot): u16 { if s.valid then s.filtered else s.diag }

  function Assembled(before: Frame, timestampMs: u32, left: Slot, right: Slot, tof: Tof, steering: Steering): Frame
  {
    Frame(Wrap32(before.sequence + 1), timestampMs, tof.cmX10, Range(left), Range(right), tof.diag,
          Flag(tof.valid, 4) + Flag(left.valid, 1) + Flag(right.valid, 2) + Flag(steering.linkValid, 32)
          + Flag(steering.commandValid, 64) + Flag(steering.emergencyCenter, 128))
  }

  class Node {
    var latest: Frame

    constructor ()
      ensures latest == Frame(0, 0, 0, 0, 0, 0, 0)
    {
      latest := Frame(0, 0, 0, 0, 0, 0, 0);
    }

    /** Each flag is set with `|=` in a mask that starts at zero. */
    method Assemble(timestampMs: u32, left: Slot, right: Slot, tof: Tof, steering: Steering)
      modifies this
      ensures latest == Assembled(old(latest), timestampMs, left, right, tof, steering)
    {
      latest := latest.(sequence := Wrap32(latest.sequence + 1));
      latest := latest.(timestampMs := timestampMs, tof := tof.cmX10);
      latest := latest.(left := if left.valid then left.filtered else left.diag);
      latest := latest.(right := if right.valid then right.filtered else right.diag);
      latest := latest.(tofDiag := tof.diag, validMask := 0);
      if tof.valid { latest := latest.(validMask := latest.validMask + 4); }
      if left.valid { latest := latest.(validMask := latest.validMask + 1); }
      if right.valid { latest := latest.(validMask := latest.validMask + 2); }
      if steering.linkValid { latest := latest.(validMask := latest.validMask + 32); }
      if steering.commandValid { latest := latest.(validMask := latest.validMask + 64); }
      if steering.emergencyCenter { latest := latest.(validMask := latest.validMask + 128); }
    }
  }

  /** Which bits of the mask are sent: three ranges, and the steering status in bits 5 to 7. The slot
      of an ultrasonic sensor carries its median when valid and its diagnostic when not. */
  lemma MaskBits(before: Frame, timestampMs: u32, left: Slot, right: Slot, tof: Tof, steering: Steering)
    ensures var f := Assembled(before, timestampMs, left, right, tof, steering);
            && f.sequence == (before.sequence + 1) % 0x1_0000_0000 && f.timestampMs == timestampMs
            && f.left == (if left.valid then left.filtered else left.diag)
            && f.right == (if right.valid then right.filtered else right.diag)
            && f.tof == tof.cmX10 && f.tofDiag == tof.diag
    ensures var mask := Assembled(before, timestampMs, left, right, tof, steering).validMask;
            && (Has(mask, 1) <==> left.valid) && (Has(mask, 2) <==> right.valid) && (Has(mask, 4) <==> tof.valid)
            && (Has(mask, 32) <==> steering.linkValid) && (Has(mask, 64) <==> steering.commandValid)
            && (Has(mask, 128) <==> steering.emergencyCenter)
            && (mask / 8 == 0
                <==> !steering.linkValid && !steering.commandValid && !steering.emergencyCenter)
  {
  }

  // ---------------------------------------------------------------- from echoes to the brake

  /** What a sensor puts into the frame after the last of these updates. */
  function SlotAfter(readings: seq<Reading>, staleTicks: u32): Slot
    requires readings != []
  {
    var s := After(readings);
    Slot(Fresh(s.lastValidTick, readings[|readings| - 1].now, staleTicks), Filtered(s.history), s.lastDiag)
  }

  /** The last valid sample is fresh, and the median of the last ones within the limit. */
  predicate FreshAndNear(readings: seq<Reading>, staleTicks: u32, limit: nat)
    requires readings != []
  {
    && Fresh(After(readings).lastValidTick, readings[|readings| - 1].now, staleTicks)
    && Filtered(After(readings).history) <= limit
  }

  lemma SlotNear(readings: seq<Reading>, staleTicks: u32, limit: nat)
    requires readings != []
    ensures var slot := SlotAfter(readings, staleTicks);
            slot.valid && 0 < Range(slot) <= limit <==> FreshAndNear(readings, staleTicks, limit)
  {
    hide Filtered, After;
    if SlotAfter(readings, staleTicks).valid {
      FreshNeedsSample(readings, readings[|readings| - 1].now, staleTicks);
      FilteredIsRobust(readings, 0, 0);
    }
  }

  /** From echoes to the brake, for the configuration as shipped: whatever the two ultrasonic
      sensors have heard and whenever, a frame not older than 0.5 s brakes fully exactly when the
      median of a sensor with a fresh sample is at most 10 cm, or the range ahead is valid and at
      most 18 cm (with a person in path below 22.5 cm), or an earlier stop is still held. An older
      one never adds a full brake. */
  lemma OnlyFreshMediansBrake(left: seq<Reading>, right: seq<Reading>, staleTicks: u32, tof: Tof, before: Frame,
                              timestampMs: u32, steering: Steering, m: Memory, arrival: real, middle: Option<Middle>,
                              now: real)
    requires left != [] && right != []
    ensures var frame := Assembled(before, timestampMs, SlotAfter(left, staleTicks), SlotAfter(right, staleTicks), tof,
                                   steering);
            var person := PersonInPath(DEFAULT, middle, now);
            && Decode(Payload(frame), arrival).Ok?
            && var brake := Decide(DEFAULT, m, Some(Decode(Payload(frame), arrival).front), middle, now).1.brake;
               if Double(now - arrival) <= 0.5 then
                 brake == 100
                 <==> || FreshAndNear(left, staleTicks, 100) || FreshAndNear(right, staleTicks, 100)
                      || (tof.valid && 0 < tof.cmX10 <= if person then 224 else 180)
                      || now < m.holdUntil
               else
                 brake == 100
                 <==> now < m.holdUntil && middle.Some? && Double(now - middle.value.arrival) <= 0.5 && !person
  {
    hide Decide, Decode, Payload, Filtered, Assembled, PersonInPath, After, Round;
    var l, r := SlotAfter(left, staleTicks), SlotAfter(right, staleTicks);
    var frame := Assembled(before, timestampMs, l, r, tof, steering);
    SensorRoundTrip(frame, arrival);
    AssembledRanges(before, timestampMs, l, r, tof, steering);
    SlotNear(left, staleTicks, 100);
    SlotNear(right, staleTicks, 100);
    FullBrakeInFirmwareUnits(m, frame, arrival, middle, now);
  }

  lemma AssembledRanges(before: Frame, timestampMs: u32, left: Slot, right: Slot, tof: Tof, steering: Steering)
    ensures var f := Assembled(before, timestampMs, left, right, tof, steering);
            && f.left == Range(left) && f.right == Range(right) && f.tof == tof.cmX10
            && (Has(f.validMask, 1) <==> left.valid) && (Has(f.validMask, 2) <==> right.valid)
            && (Has(f.validMask, 4) <==> tof.valid)
  {
    MaskBits(before, timestampMs, left, right, tof, steering);
  }
}

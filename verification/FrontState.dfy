/** What one call of the FRONT steering receiver computes (FRONT/FrontSteeringNode.c), as
    functions from the module state before the call to the state after it. */
module FrontState {
  import opened Words
  import opened Crc32
  import opened Float32
  import opened Hpsc

  const MAX_ABS_RAD: real := 0.5
  const DEFAULT_MAX_RATE: real := 1.0
  /** The float32 literal 0.05f, which is not exactly that number; likewise 0.001f below. */
  const MIN_RATE: real := 13421773.0 / 268435456.0
  const MAX_RATE: real := 10.0
  const WATCHDOG_MS: u32 := 200
  const MIN_STEP: real := 8589935.0 / 8589934592.0
  const UDP_PORT: u16 := 5100
  const RX_BUFFER_SIZE: nat := 256
  /** The largest float32; the firmware's finiteness test excludes it. */
  const FLT_MAX: real := 340282346638528859811704183484516925440.0

  datatype State = State(
    initialized: bool, linkValid: bool, commandValid: bool, emergencyCenter: bool,
    target: real, applied: real, maxRate: real,
    lastSequence: u32, lastPacketMs: u32, lastApplyMs: u32, accepted: u32, rejected: u32)

  function Boot(nowMs: u32): State
  {
    State(false, false, false, false, 0.0, 0.0, DEFAULT_MAX_RATE, 0, 0, nowMs, 0, 0)
  }

  // ---------------------------------------------------------------- one packet

  predicate SequenceNewer(candidate: u32, reference: u32)
  {
    var difference := Wrap32(candidate - reference);
    difference != 0 && difference < 0x8000_0000
  }

  predicate IsFiniteFloat(f: Float)
  {
    f.Fin? && -FLT_MAX < f.v < FLT_MAX
  }

  predicate WellFormed(p: seq<byte>)
  {
    && |p| == SIZE
    && p[..4] == MAGIC
    && p[4] == VERSION && p[7] == HEADER_SIZE
    && U16Le(p, 30) == 0 && U32Le(p, 32) == 0
    && U32Le(p, 36) == Crc(p[..36])
  }

  predicate CommandValid(p: seq<byte>)
    requires |p| == SIZE
  {
    var angle, rate := Value(U32Le(p, 20)), Value(U32Le(p, 24));
    && SteeringValid(p[6]) && UpstreamValid(p[6])
    && p[5] == CONTROL_STEERING_ANGLE
    && IsFiniteFloat(angle) && IsFiniteFloat(rate)
    && Abs(angle.v) <= MAX_ABS_RAD && rate.v > 0.0
  }

  function Reject(s: State): State { s.(rejected := Wrap32(s.rejected + 1)) }

  function AcceptTarget(s: State, sequence: u32, angle: real, rate: real, commandValid: bool,
                        emergencyCenter: bool, nowMs: u32): State
  {
    var valid := commandValid && !emergencyCenter;
    s.(initialized := true, lastSequence := sequence, lastPacketMs := nowMs,
       maxRate := Clamp(rate, MIN_RATE, MAX_RATE),
       emergencyCenter := emergencyCenter, commandValid := valid, linkValid := true,
       target := if valid then Clamp(angle, -MAX_ABS_RAD, MAX_ABS_RAD) else 0.0,
       accepted := Wrap32(s.accepted + 1))
  }

  function Accept(s: State, p: seq<byte>, nowMs: u32): (State, bool)
  {
    if !WellFormed(p) then (Reject(s), false)
    else if s.initialized && !SequenceNewer(U32Le(p, 8), s.lastSequence) then (s, false)
    else if EmergencyCenter(p[6]) then
      (AcceptTarget(s, U32Le(p, 8), 0.0, DEFAULT_MAX_RATE, false, true, nowMs), true)
    else if CommandValid(p) then
      (AcceptTarget(s, U32Le(p, 8), Value(U32Le(p, 20)).v, Value(U32Le(p, 24)).v, true, false, nowMs), true)
    else if p[5] == CONTROL_DISABLED then
      (AcceptTarget(s, U32Le(p, 8), 0.0, DEFAULT_MAX_RATE, false, false, nowMs), true)
    else (Reject(s), false)
  }

  // ---------------------------------------------------------------- one received frame

  /** Where the Ethernet/IPv4/UDP headers say the steering payload is. */
  function EthernetCandidate(f: seq<byte>, length: nat): (at: Option<nat>)
    requires |f| == RX_BUFFER_SIZE && length <= RX_BUFFER_SIZE
    ensures at.Some? ==> at.value + SIZE <= length
  {
    if length < 82 || U16Be(f, 12) != 0x0800 then None
    else
      var ihl := f[14] % 16 * 4;
      var total := U16Be(f, 16);
      if f[14] / 16 != 4 || ihl < 20 || f[23] != 17 || total < ihl + 48 || 14 + total > length then None
      else
        var udp := 14 + ihl;
        if U16Be(f, udp + 2) == UDP_PORT && U16Be(f, udp + 4) >= 48 then Some(udp + 8) else None
  }

  /** The same when the frame starts with the IPv4 header. No length field is compared here. */
  function RawIpCandidate(f: seq<byte>, length: nat): (at: Option<nat>)
    requires |f| == RX_BUFFER_SIZE && length <= RX_BUFFER_SIZE
    ensures at.Some? ==> at.value + SIZE <= RX_BUFFER_SIZE
  {
    if length < 82 || f[0] / 16 != 4 || f[9] != 17 then None
    else
      var udp := f[0] % 16 * 4;
      if udp >= 20 && U16Be(f, udp + 2) == UDP_PORT && U16Be(f, udp + 4) >= 48 then Some(udp + 8) else None
  }

  /** The offsets from `from` on at which the byte scan sees the magic. */
  function ScanOffsets(f: seq<byte>, from: nat, length: nat): (offsets: seq<nat>)
    requires |f| == RX_BUFFER_SIZE && length <= RX_BUFFER_SIZE
    ensures forall o <- offsets :: from <= o && o + SIZE <= length
    decreases length - from
  {
    if from + SIZE > length then []
    else (if f[from..from + 4] == MAGIC then [from] else []) + ScanOffsets(f, from + 1, length)
  }

  function OptionSeq(o: Option<nat>): seq<nat> { if o.Some? then [o.value] else [] }

  /** Every place the receiver would try, in its order. */
  function Attempts(f: seq<byte>, length: nat): (offsets: seq<nat>)
    requires |f| == RX_BUFFER_SIZE && length <= RX_BUFFER_SIZE
    ensures InBuffer(f, offsets)
  {
    OptionSeq(EthernetCandidate(f, length)) + OptionSeq(RawIpCandidate(f, length)) + ScanOffsets(f, 0, length)
  }

  predicate InBuffer(f: seq<byte>, offsets: seq<nat>)
  {
    forall o <- offsets :: o + SIZE <= |f|
  }

  lemma InBufferTail(f: seq<byte>, offsets: seq<nat>)
    requires InBuffer(f, offsets) && offsets != []
    ensures offsets[0] + SIZE <= |f| && InBuffer(f, offsets[1..])
  {
    assert offsets[0] in offsets;
    forall o | o in offsets[1..]
      ensures o + SIZE <= |f|
    {
      assert o in offsets;
    }
  }

  function TryAll(s: State, f: seq<byte>, offsets: seq<nat>, nowMs: u32): (State, bool)
    requires InBuffer(f, offsets)
    decreases |offsets|
  {
    if offsets == [] then (s, false)
    else
      InBufferTail(f, offsets);
      var (s1, ok) := Accept(s, f[offsets[0]..offsets[0] + SIZE], nowMs);
      if ok then (s1, true) else TryAll(s1, f, offsets[1..], nowMs)
  }

  lemma TryFirst(s: State, f: seq<byte>, offset: nat, rest: seq<nat>, nowMs: u32, s1: State, ok: bool)
    requires offset + SIZE <= |f| && InBuffer(f, rest)
    requires (s1, ok) == Accept(s, f[offset..offset + SIZE], nowMs)
    ensures TryAll(s, f, [offset] + rest, nowMs) == if ok then (s1, true) else TryAll(s1, f, rest, nowMs)
  {
    assert ([offset] + rest)[1..] == rest;
  }

  lemma ScanFirst(f: seq<byte>, from: nat, length: nat)
    requires |f| == RX_BUFFER_SIZE && from + SIZE <= length <= RX_BUFFER_SIZE
    ensures ScanOffsets(f, from, length)
         == if f[from..from + 4] == MAGIC then [from] + ScanOffsets(f, from + 1, length)
            else ScanOffsets(f, from + 1, length)
  {
  }

  predicate MagicAt(f: seq<byte>, at: nat)
    requires at + 4 <= |f|
  {
    f[at] == 0x48 && f[at + 1] == 0x50 && f[at + 2] == 0x53 && f[at + 3] == 0x43
  }

  lemma MagicAtIsMagic(f: seq<byte>, at: nat)
    requires at + 4 <= |f|
    ensures MagicAt(f, at) <==> f[at..at + 4] == MAGIC
  {
    if f[at..at + 4] == MAGIC {
      assert f[at] == MAGIC[0] && f[at + 1] == MAGIC[1] && f[at + 2] == MAGIC[2] && f[at + 3] == MAGIC[3];
    }
  }

  function AcceptFrame(s: State, f: seq<byte>, length: nat, nowMs: u32): (State, bool)
    requires |f| == RX_BUFFER_SIZE && length <= RX_BUFFER_SIZE
  {
    TryAll(s, f, Attempts(f, length), nowMs)
  }

  // ---------------------------------------------------------------- one servo period

  predicate WatchdogFires(s: State, nowMs: u32)
  {
    !s.initialized || Wrap32(nowMs - s.lastPacketMs) > WATCHDOG_MS
  }

  function FailSafe(s: State): State
  {
    s.(linkValid := false, commandValid := false, emergencyCenter := true, target := 0.0)
  }

  function RateStep(rate: real, dtMs: u32): real { rate * (dtMs as real / 1000.0) }

  /** The largest change of the applied angle in this period. */
  function MaxStep(s: State, nowMs: u32): (step: real)
    ensures step >= MIN_STEP
  {
    Max(RateStep(s.maxRate, Wrap32(nowMs - s.lastApplyMs)), MIN_STEP)
  }

  function Advance(applied: real, target: real, step: real): real
  {
    Clamp(applied + Clamp(target - applied, -step, step), -MAX_ABS_RAD, MAX_ABS_RAD)
  }

  function RunOnce(s: State, nowMs: u32): State
  {
    var t := if WatchdogFires(s, nowMs) then FailSafe(s) else s;
    t.(lastApplyMs := nowMs, applied := Advance(t.applied, t.target, MaxStep(s, nowMs)))
  }

  const CENTER_US: int := 1650
  const LEFT_US: int := 1150
  const RIGHT_US: int := 2000

  function AngleToPulseUs(angle: real): int
  {
    var normalized := Clamp(angle / MAX_ABS_RAD, -1.0, 1.0);
    if normalized >= 0.0 then CENTER_US - (normalized * (CENTER_US - LEFT_US) as real + 0.5).Floor
    else CENTER_US + (-normalized * (RIGHT_US - CENTER_US) as real + 0.5).Floor
  }

  function ServoPulseUs(angle: real): int
  {
    Clamp(AngleToPulseUs(angle) as real, LEFT_US as real, RIGHT_US as real).Floor
  }

  /** The calibration: left at the largest angle, center at zero, right at the smallest, and
      straight lines between. */
  function CalibratedUs(angle: real): real
  {
    if angle >= MAX_ABS_RAD then LEFT_US as real
    else if angle <= -MAX_ABS_RAD then RIGHT_US as real
    else if angle >= 0.0 then CENTER_US as real + angle * 2.0 * (LEFT_US - CENTER_US) as real
    else CENTER_US as real - angle * 2.0 * (RIGHT_US - CENTER_US) as real
  }

  /** The pulse is the nearest whole microsecond, and the sender's clamp never acts. */
  lemma PulseIsNearest(angle: real)
    ensures LEFT_US <= ServoPulseUs(angle) == AngleToPulseUs(angle) <= RIGHT_US
    ensures Abs(ServoPulseUs(angle) as real - CalibratedUs(angle)) <= 0.5
  {
  }
}

/** The REAR command link end to end: the datagram the remote controller packs
    (HPVC/remote_control_flask.py), its decoding on CPU0 (REAR/udp_txrx.c), the double buffer
    to CPU1, and the ticks of the control loop until the next datagram. */
module RearLink {
  import opened Words
  import opened Float32
  import opened RemoteControl
  import opened RearBuffers
  import opened Motor
  import opened RearDrive
  import opened RearSafety
  import opened RearReference

  const BUFFER_SIZE: nat := 32
  const DATAGRAM_USED: nat := 29

  // ---------------------------------------------------------------- decoding

  /** Fixed offsets; neither magic nor length nor check value is looked at. */
  function Decode(buf: seq<byte>): DriveCmd
    requires |buf| == BUFFER_SIZE
  {
    DriveCmd(buf[16], buf[17], U32Le(buf, 20), U32Le(buf, 24), buf[28])
  }

  /** What `pbuf_copy_partial` leaves in a local buffer that held `stack`. */
  function Overlay(payload: seq<byte>, stack: seq<byte>): (buf: seq<byte>)
    requires |stack| == BUFFER_SIZE
    ensures |buf| == BUFFER_SIZE
  {
    if |payload| >= BUFFER_SIZE then payload[..BUFFER_SIZE] else payload + stack[|payload|..]
  }

  function Receive(payload: seq<byte>, stack: seq<byte>): DriveCmd
    requires |stack| == BUFFER_SIZE
  {
    Decode(Overlay(payload, stack))
  }

  lemma ShortDatagramDependsOnStack(payload: seq<byte>) returns (s1: seq<byte>, s2: seq<byte>)
    requires |payload| < DATAGRAM_USED
    ensures |s1| == |s2| == BUFFER_SIZE
    ensures Receive(payload, s1).emergencyStop != Receive(payload, s2).emergencyStop
  {
    s1, s2 := seq(BUFFER_SIZE, i => 0), seq(BUFFER_SIZE, i => 1);
    assert Overlay(payload, s1)[28] == 0 && Overlay(payload, s2)[28] == 1;
  }

  lemma LongDatagramDecodes(payload: seq<byte>, stack: seq<byte>)
    requires |stack| == BUFFER_SIZE && |payload| >= DATAGRAM_USED
    ensures Receive(payload, stack)
         == DriveCmd(payload[16], payload[17], U32Le(payload, 20), U32Le(payload, 24), payload[28])
  {
  }

  /** The decoded command is a function of the datagram exactly from 29 bytes on; a shorter
      one takes its emergency stop from whatever the stack held. */
  lemma DecodedFromDatagramAlone(payload: seq<byte>)
    ensures |payload| >= DATAGRAM_USED
       <==> forall s1: seq<byte>, s2: seq<byte> | |s1| == |s2| == BUFFER_SIZE ::
              Receive(payload, s1) == Receive(payload, s2)
  {
    if |payload| >= DATAGRAM_USED {
      forall s1: seq<byte>, s2: seq<byte> | |s1| == |s2| == BUFFER_SIZE
        ensures Receive(payload, s1) == Receive(payload, s2)
      {
        LongDatagramDecodes(payload, s1);
        LongDatagramDecodes(payload, s2);
      }
    } else {
      var s1, s2 := ShortDatagramDependsOnStack(payload);
    }
  }

  /** `pbuf_copy_partial` into a buffer of this size. */
  method CopyPartial(payload: seq<byte>, buf: array<byte>)
    requires buf.Length == BUFFER_SIZE
    modifies buf
    ensures buf[..] == Overlay(payload, old(buf[..]))
  {
    var at := 0;
    while at < buf.Length && at < |payload|
      invariant at <= buf.Length && at <= |payload|
      invariant forall k :: 0 <= k < at ==> buf[k] == payload[k]
      invariant forall k :: at <= k < buf.Length ==> buf[k] == old(buf[k])
    {
      buf[at] := payload[at];
      at := at + 1;
    }
  }

  /** The receive callback: copy into the local buffer, decode, publish to CPU1. */
  method ReceiveDatagram(payload: seq<byte>, buf: array<byte>, buffer: DriveCmdBuffer)
    requires buf.Length == BUFFER_SIZE && buffer.Valid()
    modifies buf, buffer`idx, buffer.buf
    ensures buffer.Valid() && buffer.Latest() == Receive(payload, old(buf[..]))
  {
    CopyPartial(payload, buf);
    var speed, accel := U32Le(buf[..], 20), U32Le(buf[..], 24);
    buffer.WriteDriveCmd(DriveCmd(buf[16], buf[17], speed, accel, buf[28]));
  }

  /** What CPU1 gets for the operator's commands. */
  function RearCmd(c: Commands): DriveCmd
  {
    DriveCmd(MODE_MANUAL, Direction(c.drive), if c.drive == DriveStop then ZERO else c.speed, ZERO,
             if c.emergency then 1 else 0)
  }

  /** The layouts of the two sides match: every packed command decodes to itself. */
  lemma RearCommandRoundTrip(c: Commands, sequence: u32, nowMs: u32, stack: seq<byte>)
    requires |stack| == BUFFER_SIZE
    ensures Receive(PackRear(c, sequence, nowMs), stack) == RearCmd(c)
  {
    var p := PackRear(c, sequence, nowMs);
    var r := RearCommand(c);
    assert p[16..] == r;
    var speed := if c.drive == DriveStop then ZERO else c.speed;
    assert p[20..24] == r[4..8] == LE32(speed);
    assert p[24..28] == r[8..12] == LE32(ZERO);
    U32LeAt(p, 20, speed);
    U32LeAt(p, 24, ZERO);
    LongDatagramDecodes(p, stack);
    assert p[16] == r[0] && p[17] == r[1] && p[28] == r[12];
  }

  /** The packed rear command byte by byte. */
  lemma PackedRearBytes(c: Commands, sequence: u32, nowMs: u32)
    ensures var p := PackRear(c, sequence, nowMs);
            && |p| == 32 && p[..4] == [0x50, 0x48, 1, 0x43] && U16Le(p, 4) == 12 && U16Le(p, 6) == sequence % 0x1_0000
            && U32Le(p, 8) == nowMs && p[16] == 0
            && (p[17] == 0 <==> c.drive == DriveStop) && (p[17] == 1 <==> c.drive == DriveForward)
            && (p[17] == 2 <==> c.drive == DriveReverse)
            && U32Le(p, 20) == (if c.drive == DriveStop then 0 else c.speed) && U32Le(p, 24) == 0
            && (p[28] == 1 <==> c.emergency) && (p[28] == 0 <==> !c.emergency)
            && p[12..16] == [0, 0, 0, 0] && p[18..20] == [0, 0] && p[29..] == [0, 0, 0]
  {
    hide U32Le, LE32;
    var p := PackRear(c, sequence, nowMs);
    var h, r := RearHeader(sequence, nowMs), RearCommand(c);
    var speed := if c.drive == DriveStop then ZERO else c.speed;
    assert p[..16] == h && p[16..] == r;
    assert p[8..12] == h[8..12] == LE32(nowMs);
    assert p[20..24] == r[4..8] == LE32(speed) && p[24..28] == r[8..12] == LE32(ZERO);
    U32LeAt(p, 8, nowMs);
    U32LeAt(p, 20, speed);
    U32LeAt(p, 24, ZERO);
    assert p[..4] == h[..4] && p[12..16] == h[12..16] && p[18..20] == r[2..4] && p[29..] == r[13..];
  }

  // ---------------------------------------------------------------- the whole unit

  /** The command CPU1 reads, and the control loop. Reads of the buffer are atomic
      (`DoubleBuffer.ReadsAreAtomic`), so a tick sees the latest whole command. */
  datatype Unit = Unit(latest: DriveCmd, loop: State)

  datatype Event = Datagram(payload: seq<byte>, stack: seq<byte>) | Period(measured: Float)

  predicate WellFormed(e: Event) { e.Datagram? ==> |e.stack| == BUFFER_SIZE }

  function Step(u: Unit, e: Event): Unit
    requires WellFormed(e)
  {
    match e
    case Datagram(payload, stack) => u.(latest := Receive(payload, stack))
    case Period(measured) => u.(loop := Tick(u.loop, measured, u.latest))
  }

  predicate AllWellFormed(events: seq<Event>)
  {
    forall k :: 0 <= k < |events| ==> WellFormed(events[k])
  }

  function Play(u: Unit, events: seq<Event>): Unit
    requires AllWellFormed(events)
    decreases |events|
  {
    if events == [] then u else Play(Step(u, events[0]), events[1..])
  }

  function Periods(measured: seq<Float>): (events: seq<Event>)
    ensures AllWellFormed(events)
  {
    seq(|measured|, i requires 0 <= i < |measured| => Period(measured[i]))
  }

  /** A stop as CPU1 sees it: both channels braked at full duty and the controller cleared. */
  predicate Stopped(s: State) { Braking(s.pins) && s.vRef == 0.0 && s.iTerm == 0.0 }

  lemma {:induction false} StopHolds(u: Unit, measured: seq<Float>)
    requires Stops(u.latest) && measured != []
    ensures Stopped(Play(u, Periods(measured)).loop)
    ensures Play(u, Periods(measured)).latest == u.latest
    decreases |measured|
  {
    var u1 := Step(u, Period(measured[0]));
    assert Periods(measured)[0] == Period(measured[0]);
    assert Periods(measured)[1..] == Periods(measured[1..]);
    if |measured| == 1 {
      assert Play(u1, Periods(measured[1..])) == u1;
    } else {
      StopHolds(u1, measured[1..]);
    }
  }

  /** Brake dominance end to end: from any state of the unit, once the operator's emergency
      stop has been received, every tick until the next datagram leaves the car stopped. */
  lemma EmergencyStopBrakesEveryTick(u: Unit, c: Commands, sequence: u32, nowMs: u32, stack: seq<byte>,
                                     measured: seq<Float>)
    requires c.emergency && |stack| == BUFFER_SIZE && measured != []
    ensures Stopped(Play(Step(u, Datagram(PackRear(c, sequence, nowMs), stack)), Periods(measured)).loop)
  {
    RearCommandRoundTrip(c, sequence, nowMs, stack);
    StopHolds(Step(u, Datagram(PackRear(c, sequence, nowMs), stack)), measured);
  }

  /** And so does any datagram that carries the AEB mode or a stop byte, however it is made. */
  lemma StopDatagramBrakesEveryTick(u: Unit, payload: seq<byte>, stack: seq<byte>, measured: seq<Float>)
    requires |payload| >= DATAGRAM_USED && |stack| == BUFFER_SIZE && measured != []
    requires payload[16] == MODE_AEB || payload[28] != 0
    ensures Stopped(Play(Step(u, Datagram(payload, stack)), Periods(measured)).loop)
  {
    LongDatagramDecodes(payload, stack);
    StopHolds(Step(u, Datagram(payload, stack)), measured);
  }

  /** What the operator asked for, on the pins: stop coasts; forward and reverse drive both
      channels in that sense, at 74.94 percent per m/s of the commanded speed, 15 more to get
      the motors moving. */
  predicate Obeys(p: Pins, c: Commands)
  {
    if c.emergency then Braking(p)
    else if c.drive == DriveStop then Coasting(p)
    else
      var speed := Value(c.speed);
      var percent := if speed.Fin? then 74.94 * Max(0.0, Min(1.1, speed.v)) else 0.0;
      && Driving(p) && p.dirA == (c.drive == DriveForward)
      && p.dutyA == 10 * (if percent > 1.0 then percent + 15.0 else percent).Floor
  }

  lemma {:induction false} ObeysHolds(u: Unit, c: Commands, measured: seq<Float>)
    requires u.latest == RearCmd(c) && measured != []
    ensures Obeys(Play(u, Periods(measured)).loop.pins, c)
    decreases |measured|
  {
    var u1 := Step(u, Period(measured[0]));
    assert Periods(measured)[0] == Period(measured[0]);
    assert Periods(measured)[1..] == Periods(measured[1..]);
    if |measured| == 1 {
      assert Play(u1, Periods(measured[1..])) == u1;
      var v := FiniteOrZero(Value(c.speed));
      ManualDutyMonotone(v, v);
      ManualDutyMeans(Value(c.speed));
    } else {
      ObeysHolds(u1, c, measured[1..]);
    }
  }

  /** Operator to pins: from any state of the unit, every tick after a received command and
      before the next one shows exactly that command on the motor pins. */
  lemma EveryTickObeysOperator(u: Unit, c: Commands, sequence: u32, nowMs: u32, stack: seq<byte>,
                               measured: seq<Float>)
    requires |stack| == BUFFER_SIZE && measured != []
    ensures Obeys(Play(Step(u, Datagram(PackRear(c, sequence, nowMs), stack)), Periods(measured)).loop.pins, c)
  {
    RearCommandRoundTrip(c, sequence, nowMs, stack);
    ObeysHolds(Step(u, Datagram(PackRear(c, sequence, nowMs), stack)), c, measured);
  }

  /** Over every interleaving of datagrams and ticks the loop is a run of ticks, so the
      invariants of `RearSafety` hold whatever arrives. */
  lemma {:induction false} PlayKeepsSafe(u: Unit, events: seq<Event>)
    requires AllWellFormed(events) && Safe(u.loop)
    ensures Safe(Play(u, events).loop)
    decreases |events|
  {
    if events == [] {
    } else {
      var e := events[0];
      if e.Period? { TickKeepsSafe(u.loop, e.measured, u.latest); }
      PlayKeepsSafe(Step(u, e), events[1..]);
    }
  }
}

/** The HPVC remote controller (HPVC/remote_control_flask.py): what it packs, how it numbers
    packets, and how it resynchronises the FRONT receiver at start. */
module RemoteControl {
  import opened Words
  import opened Crc32
  import opened Float32
  import opened Hpsc
  import opened PacketBuffer

  datatype Drive = DriveStop | DriveForward | DriveReverse
  datatype Steer = SteerStraight | SteerLeft | SteerRight

  /** The operator's commands; the target speed is a float32 pattern. */
  datatype Commands = Commands(drive: Drive, steer: Steer, speed: u32, emergency: bool)

  const RESYNC_STEP: int := 0x4000_0000

  /** The limits of the steering angle (a pattern without sign bit) and of the speed, and whether
      a broadcast copy of every front packet is sent. */
  datatype Config = Config(steerRad: u32, maxSpeed: u32, broadcast: bool)

  // ---------------------------------------------------------------- packets

  function SteeringAngle(c: Commands, steerRad: u32): u32
  {
    if c.emergency || c.steer == SteerStraight then ZERO
    else if c.steer == SteerLeft then steerRad
    else Negate(steerRad)
  }

  function PackFront(c: Commands, steerRad: u32, sequence: u32, alive: u16, timestampUs: u64,
                     emergencyCenter: bool): seq<byte>
  {
    if emergencyCenter then
      Seal(Body(CONTROL_DISABLED, FLAG_EMERGENCY_CENTER, sequence, timestampUs, ZERO, TWO, alive))
    else if c.emergency then
      Seal(Body(CONTROL_DISABLED, FLAG_UPSTREAM_VALID + FLAG_EMERGENCY_CENTER, sequence, timestampUs,
                SteeringAngle(c, steerRad), TWO, alive))
    else
      Seal(Body(CONTROL_STEERING_ANGLE, FLAG_UPSTREAM_VALID + FLAG_STEERING_VALID, sequence, timestampUs,
                SteeringAngle(c, steerRad), TWO, alive))
  }

  function Direction(d: Drive): byte
  {
    match d case DriveStop => 0 case DriveForward => 1 case DriveReverse => 2
  }

  const REAR_SIZE: nat := 32

  function RearHeader(sequence: u32, nowMs: u32): (h: seq<byte>)
    ensures |h| == 16
  {
    LE16(0x4850) + [1, 0x43] + LE16(12) + LE16(Wrap16(sequence)) + LE32(nowMs) + [0, 0, 0, 0]
  }

  function RearCommand(c: Commands): (b: seq<byte>)
    ensures |b| == 16
  {
    [0, Direction(c.drive), 0, 0] + LE32(if c.drive == DriveStop then ZERO else c.speed) + LE32(ZERO)
    + [if c.emergency then 1 else 0, 0, 0, 0]
  }

  function PackRear(c: Commands, sequence: u32, nowMs: u32): (p: seq<byte>)
    ensures |p| == REAR_SIZE
  {
    RearHeader(sequence, nowMs) + RearCommand(c)
  }

  /** `max(0.0, min(limit, speed))`: NaN becomes the limit. */
  function ClampSpeed(speed: u32, limit: u32): u32
  {
    var w := if Above(Value(limit), Value(speed)) then speed else limit;
    if Greater(Value(w), 0.0) then w else ZERO
  }

  /** Whatever is asked for, the speed sent is never negative nor above the limit, which may be
      infinite; it is finite unless the limit is infinite and the input is NaN or infinite, and
      an input between the two goes out as it is. */
  lemma ClampedSpeedInRange(speed: u32, limit: u32)
    requires Greater(Value(limit), 0.0)
    ensures var v, l := Value(ClampSpeed(speed, limit)), Value(limit);
            && AtLeast(v, 0.0) && (l.Fin? ==> AtMost(v, l.v))
            && (v.Fin? <==> l.Fin? || Less(Value(speed), 0.0) || Value(speed).Fin?)
    ensures Greater(Value(speed), 0.0) && Above(Value(limit), Value(speed)) ==> ClampSpeed(speed, limit) == speed
    ensures Value(speed).NaN? ==> ClampSpeed(speed, limit) == limit
  {
    hide Value;
    ValueOfZero(ZERO);
  }

  // ---------------------------------------------------------------- the controller

  function Fewer(a: nat, b: nat): nat { if a < b then a else b }

  function Copies<T>(x: T, n: nat): (s: seq<T>)
    ensures |s| == n
  {
    seq(n, i => x)
  }

  /** Front datagrams per packet: unicast, and broadcast where configured. */
  function PerPacket(cfg: Config): nat { if cfg.broadcast then 2 else 1 }

  /** Front datagrams for `n` packets. */
  function Datagrams(cfg: Config, n: nat): nat { if cfg.broadcast then 2 * n else n }

  /** The packets that are out in full after so many datagrams. */
  function Whole(cfg: Config, datagrams: nat): nat { if cfg.broadcast then datagrams / 2 else datagrams }

  function ResyncSequence(sequence: u32, index: nat): u32
  {
    Wrap32(sequence % RESYNC_STEP + RESYNC_STEP * index)
  }

  const IDLE: Commands := Commands(DriveStop, SteerStraight, ZERO, false)

  function ResyncPacket(steerRad: u32, sequence: u32, alive: u16, index: nat, clock: nat -> u64): seq<byte>
  {
    PackFront(IDLE, steerRad, ResyncSequence(sequence, index), AliveAfter(alive, index), clock(index), false)
  }

  /** The packets of a burst started with these counters. */
  function ResyncPackets(cfg: Config, sequence: u32, alive: u16, clock: nat -> u64): nat -> seq<byte>
  {
    (index: nat) => ResyncPacket(cfg.steerRad, sequence, alive, index, clock)
  }

  /** `front` is every packet in order, each in its copies. */
  ghost predicate InOrder(cfg: Config, packets: nat -> seq<byte>, front: seq<seq<byte>>)
  {
    forall k :: 0 <= k < |front| ==> front[k] == packets(if cfg.broadcast then k / 2 else k)
  }

  lemma InOrderAppend(cfg: Config, packets: nat -> seq<byte>, front: seq<seq<byte>>, index: nat, n: nat)
    requires InOrder(cfg, packets, front) && |front| == Datagrams(cfg, index) && n <= PerPacket(cfg)
    ensures InOrder(cfg, packets, front + Copies(packets(index), n))
  {
  }

  /** The alive counter `n` packets later. */
  function AliveAfter(alive: u16, n: nat): u16 { Wrap16(alive as int + n) }

  lemma AliveNext(alive: u16, n: nat)
    ensures AliveAfter(alive, 0) == alive
    ensures Wrap16(AliveAfter(alive, n) + 1) == AliveAfter(alive, n + 1)
  {
  }

  class HpvcRemoteController {
    const cfg: Config
    var commands: Commands
    var sequence: u32
    var alive: u16
    var sentFront: nat
    var sentRear: nat
    var lastError: bool

    constructor (cfg: Config, sequence: u32, speed: u32)
      ensures this.cfg == cfg && this.sequence == sequence && this.alive == 0 && !this.lastError
      ensures this.commands == Commands(DriveStop, SteerStraight, speed, false)
      ensures this.sentFront == 0 && this.sentRear == 0
    {
      this.cfg := cfg;
      this.sequence := sequence;
      commands := Commands(DriveStop, SteerStraight, speed, false);
      alive, sentFront, sentRear, lastError := 0, 0, 0, false;
    }

    /** The operator's input, sent at once; an emergency stop also centers and stops, and the
        speed is clamped. `sends` socket calls succeed before one raises. */
    method Command(drive: Option<Drive>, steer: Option<Steer>, speed: Option<u32>, emergency: Option<bool>,
                   timestampUs: u64, nowMs: u32, sends: nat)
      returns (front: seq<seq<byte>>, rear: seq<seq<byte>>)
      modifies this
      ensures emergency == Some(true) ==>
                commands.emergency && commands.drive == DriveStop && commands.steer == SteerStraight
      ensures emergency != Some(true) ==>
                && commands.drive == (if drive.Some? then drive.value else old(commands.drive))
                && commands.steer == (if steer.Some? then steer.value else old(commands.steer))
                && commands.emergency == (if emergency.Some? then emergency.value else old(commands.emergency))
      ensures commands.speed == if speed.Some? then ClampSpeed(speed.value, cfg.maxSpeed) else old(commands.speed)
      ensures front == Copies(PackFront(commands, cfg.steerRad, old(sequence), old(alive), timestampUs, false),
                              Fewer(sends, PerPacket(cfg)))
      ensures rear == if sends > PerPacket(cfg) then [PackRear(commands, old(sequence), nowMs)] else []
      ensures lastError == (sends <= PerPacket(cfg))
      ensures sequence == if lastError then old(sequence) else Wrap32(old(sequence) + 1)
      ensures alive == if lastError then old(alive) else Wrap16(old(alive) + 1)
    {
      hide PackFront, PackRear, Copies;
      if drive.Some? { commands := commands.(drive := drive.value); }
      if steer.Some? { commands := commands.(steer := steer.value); }
      if speed.Some? { commands := commands.(speed := ClampSpeed(speed.value, cfg.maxSpeed)); }
      if emergency.Some? {
        commands := commands.(emergency := emergency.value);
        if commands.emergency {
          commands := commands.(drive := DriveStop, steer := SteerStraight);
        }
      }
      front, rear := Publish(timestampUs, nowMs, sends);
    }

    /** The 32-byte rear command, filled in field by field. */
    method FillRear(nowMs: u32) returns (packet: array<byte>)
      ensures fresh(packet) && packet[..] == PackRear(commands, sequence, nowMs)
    {
      hide RearHeader, RearCommand, Zeros;
      packet := new byte[REAR_SIZE];
      Clear(packet);
      FillRearHeader(packet, nowMs);
      FillRearCommand(packet, RearHeader(sequence, nowMs));
    }

    method FillRearHeader(packet: array<byte>, nowMs: u32)
      requires packet.Length == REAR_SIZE && packet[..] == Zeros(REAR_SIZE)
      modifies packet
      ensures packet[..] == RearHeader(sequence, nowMs) + Zeros(16)
    {
      hide LE16, LE32;
      Append(packet, [], 0, LE16(0x4850));
      ghost var d2 := [] + LE16(0x4850);
      Append(packet, d2, 2, [1, 0x43]);
      ghost var d4 := d2 + [1, 0x43];
      Append(packet, d4, 4, LE16(12));
      ghost var d6 := d4 + LE16(12);
      Append(packet, d6, 6, LE16(Wrap16(sequence)));
      ghost var d8 := d6 + LE16(Wrap16(sequence));
      Append(packet, d8, 8, LE32(nowMs));
      assert d8 + LE32(nowMs) + [0, 0, 0, 0] == RearHeader(sequence, nowMs);
    }

    method FillRearCommand(packet: array<byte>, ghost header: seq<byte>)
      requires packet.Length == REAR_SIZE && |header| == 16 && packet[..] == header + Zeros(16)
      modifies packet
      ensures packet[..] == header + RearCommand(commands)
    {
      hide LE32, Zeros;
      var direction := Direction(commands.drive);
      var speed := LE32(if commands.drive == DriveStop then ZERO else commands.speed);
      var accel, stop := LE32(ZERO), if commands.emergency then 1 else 0;
      FewZeros();
      Append(packet, header, 16, [0, direction]);
      SkipZeros(header + [0, direction], 14, 2);
      ghost var d20 := header + [0, direction] + [0, 0];
      Append(packet, d20, 20, speed);
      Append(packet, d20 + speed, 24, accel);
      Append(packet, d20 + speed + accel, 28, [stop]);
      CommandBytes(header, direction, speed, accel, stop);
    }

    static lemma CommandBytes(header: seq<byte>, direction: byte, speed: seq<byte>, accel: seq<byte>, stop: byte)
      ensures header + [0, direction] + [0, 0] + speed + accel + [stop] + [0, 0, 0]
           == header + ([0, direction, 0, 0] + speed + accel + [stop, 0, 0, 0])
    {
    }

    /** Send one packet to FRONT, unicast and then broadcast. `sends` is how many socket calls
        succeed before one raises. */
    method SendFrontPacket(packet: seq<byte>, sends: nat) returns (front: seq<seq<byte>>)
      ensures front == Copies(packet, Fewer(sends, PerPacket(cfg)))
    {
      front := [];
      if sends == 0 { return; }
      front := [packet];
      if cfg.broadcast {
        if sends == 1 { return; }
        front := front + [packet];
      }
    }

    /** One publish: the front packet, then the rear packet. Only when every socket call
        succeeds does the sequence advance. */
    method Publish(timestampUs: u64, nowMs: u32, sends: nat)
      returns (front: seq<seq<byte>>, rear: seq<seq<byte>>)
      modifies this`sequence, this`alive, this`sentFront, this`sentRear, this`lastError
      ensures front == Copies(PackFront(commands, cfg.steerRad, old(sequence), old(alive), timestampUs, false),
                              Fewer(sends, PerPacket(cfg)))
      ensures rear == if sends > PerPacket(cfg) then [PackRear(commands, old(sequence), nowMs)] else []
      ensures lastError == (sends <= PerPacket(cfg))
      ensures lastError ==> unchanged(`sequence) && unchanged(`alive) && unchanged(`sentFront) && unchanged(`sentRear)
      ensures !lastError ==>
                && sequence == Wrap32(old(sequence) + 1) && alive == Wrap16(old(alive) + 1)
                && sentFront == old(sentFront) + 1 && sentRear == old(sentRear) + 1
    {
      hide PackFront, PackRear, Copies;
      rear := [];
      var packet := PackFront(commands, cfg.steerRad, sequence, alive, timestampUs, false);
      front := SendFrontPacket(packet, sends);
      if sends <= PerPacket(cfg) {
        lastError := true;
        return;
      }
      var buffer := FillRear(nowMs);
      rear := [buffer[..]];
      sentFront, sentRear := sentFront + 1, sentRear + 1;
      sequence := Wrap32(sequence + 1);
      alive := Wrap16(alive + 1);
      lastError := false;
    }

    /** Shutting down: a stop to REAR first, then a center to FRONT. No counter moves; `sends`
        socket calls succeed before one raises. */
    method SendStop(timestampUs: u64, nowMs: u32, sends: nat) returns (front: seq<seq<byte>>, rear: seq<seq<byte>>)
      modifies this`commands
      ensures commands == old(commands).(drive := DriveStop, steer := SteerStraight)
      ensures rear == if sends > 0 then [PackRear(commands, sequence, nowMs)] else []
      ensures front == if sends > 0 then Copies(PackFront(commands, cfg.steerRad, sequence, alive, timestampUs, true),
                                                Fewer(sends - 1, PerPacket(cfg)))
                       else []
    {
      hide PackFront, PackRear, Copies;
      front, rear := [], [];
      commands := commands.(drive := DriveStop, steer := SteerStraight);
      if sends == 0 { return; }
      var buffer := FillRear(nowMs);
      rear := [buffer[..]];
      front := SendFrontPacket(PackFront(commands, cfg.steerRad, sequence, alive, timestampUs, true), sends - 1);
    }

    /** The start-up burst: four straight-ahead packets a quarter of the number space apart.
        `sends` socket calls succeed before one raises; the operator's commands come back
        either way. */
    method ResyncFrontSequence(clock: nat -> u64, sends: nat) returns (front: seq<seq<byte>>)
      modifies this
      ensures commands == old(commands)
      ensures sends >= Datagrams(cfg, 4) ==>
                && |front| == Datagrams(cfg, 4)
                && InOrder(cfg, ResyncPackets(cfg, old(sequence), old(alive), clock), front)
                && sequence == Wrap32(ResyncSequence(old(sequence), 3) + 1)
                && alive == AliveAfter(old(alive), 4) && sentFront == old(sentFront) + 4
                && lastError == old(lastError)
      ensures sends < Datagrams(cfg, 4) ==>
                && lastError && |front| == sends
                && InOrder(cfg, ResyncPackets(cfg, old(sequence), old(alive), clock), front)
                && sequence == ResyncSequence(old(sequence), Whole(cfg, sends))
                && alive == AliveAfter(old(alive), Whole(cfg, sends)) && sentFront == old(sentFront) + Whole(cfg, sends)
    {
      hide ResyncSequence, InOrder, AliveAfter, ResyncPackets;
      var original := commands;
      commands := commands.(drive := DriveStop, steer := SteerStraight, emergency := false);
      var complete;
      front, complete := SendBurst(clock, sends);
      if complete { sequence := Wrap32(sequence + 1); }
      commands := original;
    }

    method SendBurst(clock: nat -> u64, sends: nat) returns (front: seq<seq<byte>>, complete: bool)
      requires commands.steer == SteerStraight && !commands.emergency
      modifies this`sequence, this`alive, this`sentFront, this`lastError
      ensures complete == (sends >= Datagrams(cfg, 4))
      ensures complete ==>
                && |front| == Datagrams(cfg, 4)
                && InOrder(cfg, ResyncPackets(cfg, old(sequence), old(alive), clock), front)
                && sequence == ResyncSequence(old(sequence), 3)
                && alive == AliveAfter(old(alive), 4) && sentFront == old(sentFront) + 4
                && lastError == old(lastError)
      ensures !complete ==>
                && lastError && |front| == sends
                && InOrder(cfg, ResyncPackets(cfg, old(sequence), old(alive), clock), front)
                && sequence == ResyncSequence(old(sequence), Whole(cfg, sends))
                && alive == AliveAfter(old(alive), Whole(cfg, sends)) && sentFront == old(sentFront) + Whole(cfg, sends)
    {
      hide ResyncSequence, Copies, AliveAfter, Wrap16, ResyncPacket;
      var firstSequence := sequence;
      ghost var packets := ResyncPackets(cfg, sequence, alive, clock);
      front := [];
      AliveNext(alive, 0);
      for index := 0 to 4
        invariant |front| == Datagrams(cfg, index) && InOrder(cfg, packets, front) && Whole(cfg, |front|) == index
        invariant |front| <= sends
        invariant alive == AliveAfter(old(alive), index) && sentFront == old(sentFront) + index
        invariant index > 0 ==> sequence == ResyncSequence(firstSequence, index - 1)
        invariant lastError == old(lastError)
      {
        AliveNext(old(alive), index);
        var sent := ResyncStep(firstSequence, old(alive), index, clock, sends - |front|);
        InOrderAppend(cfg, packets, front, index, |sent|);
        front := front + sent;
        if |sent| < PerPacket(cfg) {
          return front, false;
        }
      }
      complete := true;
    }

    /** One packet of the burst, and the counters once it is out. */
    method ResyncStep(firstSequence: u32, ghost firstAlive: u16, index: nat, clock: nat -> u64, sends: nat)
      returns (front: seq<seq<byte>>)
      requires commands.steer == SteerStraight && !commands.emergency && alive == AliveAfter(firstAlive, index)
      modifies this`sequence, this`alive, this`sentFront, this`lastError
      ensures sequence == ResyncSequence(firstSequence, index)
      ensures front == Copies(ResyncPackets(cfg, firstSequence, firstAlive, clock)(index),
                              Fewer(sends, PerPacket(cfg)))
      ensures sends < PerPacket(cfg) ==> lastError && alive == old(alive) && sentFront == old(sentFront)
      ensures sends >= PerPacket(cfg) ==>
                lastError == old(lastError) && alive == Wrap16(old(alive) + 1) && sentFront == old(sentFront) + 1
    {
      sequence := ResyncSequence(firstSequence, index);
      var packet := PackFront(commands, cfg.steerRad, sequence, alive, clock(index), false);
      assert packet == ResyncPacket(cfg.steerRad, firstSequence, firstAlive, index, clock);
      front := SendFrontPacket(packet, sends);
      if sends < PerPacket(cfg) {
        lastError := true;
      } else {
        alive := Wrap16(alive + 1);
        sentFront := sentFront + 1;
      }
    }
  }
}

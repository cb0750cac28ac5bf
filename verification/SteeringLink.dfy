/** The steering link as a protocol: the remote controller's numbering against the FRONT
    receiver's memory, at start-up and over every run of publishes and socket failures. */
module SteeringLink {
  import opened Words
  import opened Float32
  import opened Crc32
  import opened Hpsc
  import opened FrontState
  import opened FrontPackets
  import opened RemoteControl

  // ---------------------------------------------------------------- what FRONT makes of a packet

  /** A steering packet of the controller that asks for a turn the receiver allows. */
  predicate Turnable(c: Commands, steerRad: u32)
  {
    c.emergency || c.steer == SteerStraight || Drivable(steerRad, TWO)
  }

  lemma DrivableAngle(c: Commands, steerRad: u32)
    ensures Turnable(c, steerRad) && !c.emergency ==> Drivable(SteeringAngle(c, steerRad), TWO)
    ensures !Turnable(c, steerRad) ==> !Drivable(SteeringAngle(c, steerRad), TWO)
  {
    ValueOfZero(ZERO);
    ValueOfTwo(TWO, 128);
    NegateValue(steerRad);
    if Value(Negate(steerRad)).Fin? {
      NegateValue(Negate(steerRad));
      NegateTwice(steerRad);
    }
  }

  lemma NegateTwice(pattern: u32)
    ensures Negate(Negate(pattern)) == pattern
  {
  }

  lemma FrontFields(c: Commands, steerRad: u32, sequence: u32, alive: u16, timestampUs: u64)
    ensures var p := PackFront(c, steerRad, sequence, alive, timestampUs, false);
            && WellFormed(p) && U32Le(p, 8) == sequence
            && EmergencyCenter(p[6]) == c.emergency
            && (!c.emergency ==> (CommandValid(p) <==> Drivable(SteeringAngle(c, steerRad), TWO)))
            && (!c.emergency ==> p[5] == CONTROL_STEERING_ANGLE)
            && U32Le(p, 20) == SteeringAngle(c, steerRad) && U32Le(p, 24) == TWO
  {
    hide Value, IsFiniteFloat, Abs, Seal, Body, U32Le;
    var angle := SteeringAngle(c, steerRad);
    if c.emergency {
      SealedIsWellFormed(CONTROL_DISABLED, FLAG_UPSTREAM_VALID + FLAG_EMERGENCY_CENTER, sequence, timestampUs, angle,
                         TWO, alive);
    } else {
      SealedIsWellFormed(CONTROL_STEERING_ANGLE, FLAG_UPSTREAM_VALID + FLAG_STEERING_VALID, sequence, timestampUs,
                         angle, TWO, alive);
    }
  }

  /** The state of the receiver obeys command `c`: left is the positive angle, right the negative
      one, at two radians a second; an emergency stop centers. */
  predicate Obeys(s: State, c: Commands, steerRad: u32)
  {
    && s.linkValid
    && s.emergencyCenter == c.emergency && s.commandValid == !c.emergency
    && (c.emergency || c.steer == SteerStraight ==> s.target == 0.0)
    && (!c.emergency ==>
          && s.maxRate == 2.0
          && (c.steer == SteerLeft ==> Value(steerRad) == Fin(s.target))
          && (c.steer == SteerRight ==> Value(steerRad) == Fin(-s.target)))
  }

  /** What the packed angle means. */
  lemma AngleMeans(c: Commands, steerRad: u32)
    requires Turnable(c, steerRad) && !c.emergency
    ensures Value(SteeringAngle(c, steerRad)).Fin? && Value(TWO) == Fin(2.0)
    ensures var x := Value(SteeringAngle(c, steerRad)).v;
            && (c.steer == SteerStraight ==> x == 0.0)
            && (c.steer == SteerLeft ==> Value(steerRad) == Fin(x))
            && (c.steer == SteerRight ==> Value(steerRad) == Fin(-x))
  {
    hide Value;
    ValueOfZero(ZERO);
    ValueOfTwo(TWO, 128);
    NegateValue(steerRad);
  }

  /** From the operator's command to the receiver: a newer packet is obeyed exactly when the
      turn is allowed, and an emergency stop is always obeyed. */
  lemma FrontCommandRoundTrip(s: State, c: Commands, steerRad: u32, sequence: u32, alive: u16,
                              timestampUs: u64, nowMs: u32)
    requires s.initialized ==> SequenceNewer(sequence, s.lastSequence)
    ensures var (t, ok) := Accept(s, PackFront(c, steerRad, sequence, alive, timestampUs, false), nowMs);
            && (ok <==> Turnable(c, steerRad))
            && (ok ==> t.initialized && t.lastSequence == sequence && t.accepted == Wrap32(s.accepted + 1)
                       && t.lastPacketMs == nowMs && t.applied == s.applied && t.lastApplyMs == s.lastApplyMs
                       && Obeys(t, c, steerRad))
            && (!ok ==> t == Reject(s))
  {
    hide Value, PackFront, SteeringAngle;
    FrontFields(c, steerRad, sequence, alive, timestampUs);
    DrivableAngle(c, steerRad);
    if Turnable(c, steerRad) && !c.emergency { AngleMeans(c, steerRad); }
  }

  // ---------------------------------------------------------------- resynchronisation

  /** The receiver's whole memory of sequence numbers: none before the first packet. */
  function Memory(s: State): Option<u32> { if s.initialized then Some(s.lastSequence) else None }

  function Hear(memory: Option<u32>, sequence: u32): Option<u32>
  {
    if memory.None? || SequenceNewer(sequence, memory.value) then Some(sequence) else memory
  }

  /** Which of the four packets get through, once or more often each, in sending order. */
  datatype Delivered = Delivered(first: nat, second: nat, third: nat, fourth: nat)

  function Again(memory: Option<u32>, sequence: u32, copies: nat): Option<u32>
    decreases copies
  {
    if copies == 0 then memory else Again(Hear(memory, sequence), sequence, copies - 1)
  }

  function HearBurst(memory: Option<u32>, sequence: u32, d: Delivered): Option<u32>
  {
    var m1 := Again(memory, ResyncSequence(sequence, 0), d.first);
    var m2 := Again(m1, ResyncSequence(sequence, 1), d.second);
    var m3 := Again(m2, ResyncSequence(sequence, 2), d.third);
    Again(m3, ResyncSequence(sequence, 3), d.fourth)
  }

  /** Back-to-back copies make no difference beyond the first. */
  lemma {:induction false} AgainIsOnce(memory: Option<u32>, sequence: u32, copies: nat)
    ensures Again(memory, sequence, copies) == if copies == 0 then memory else Hear(memory, sequence)
    decreases copies
  {
    if copies <= 1 {
    } else {
      AgainIsOnce(Hear(memory, sequence), sequence, copies - 1);
    }
  }

  lemma HearBurstOnce(memory: Option<u32>, sequence: u32, d: Delivered)
    ensures HearBurst(memory, sequence, d)
         == HearBurst(memory, sequence, Delivered(if d.first > 0 then 1 else 0, if d.second > 0 then 1 else 0,
                                                  if d.third > 0 then 1 else 0, if d.fourth > 0 then 1 else 0))
  {
    var s0, s1 := ResyncSequence(sequence, 0), ResyncSequence(sequence, 1);
    var s2, s3 := ResyncSequence(sequence, 2), ResyncSequence(sequence, 3);
    AgainIsOnce(memory, s0, d.first);
    AgainIsOnce(memory, s0, if d.first > 0 then 1 else 0);
    var m1 := Again(memory, s0, d.first);
    AgainIsOnce(m1, s1, d.second);
    AgainIsOnce(m1, s1, if d.second > 0 then 1 else 0);
    var m2 := Again(m1, s1, d.second);
    AgainIsOnce(m2, s2, d.third);
    AgainIsOnce(m2, s2, if d.third > 0 then 1 else 0);
    var m3 := Again(m2, s2, d.third);
    AgainIsOnce(m3, s3, d.fourth);
    AgainIsOnce(m3, s3, if d.fourth > 0 then 1 else 0);
  }

  lemma ResyncSequences(sequence: u32) returns (base: u32)
    ensures base < RESYNC_STEP
    ensures ResyncSequence(sequence, 0) == base
    ensures ResyncSequence(sequence, 1) == base + RESYNC_STEP
    ensures ResyncSequence(sequence, 2) == base + 2 * RESYNC_STEP
    ensures ResyncSequence(sequence, 3) == base + 3 * RESYNC_STEP
  {
    base := sequence % RESYNC_STEP;
  }

  /** The burst captures every receiver, whatever it remembers, as soon as its last three
      packets arrive; the first one is not even needed. */
  lemma ResyncCaptures(memory: Option<u32>, sequence: u32, d: Delivered)
    requires d.second > 0 && d.third > 0 && d.fourth > 0
    ensures HearBurst(memory, sequence, d) == Some(ResyncSequence(sequence, 3))
  {
    var base := ResyncSequences(sequence);
    HearBurstOnce(memory, sequence, d);
    CaptureOnce(memory, sequence, base, d.first > 0);
  }

  lemma CaptureOnce(memory: Option<u32>, sequence: u32, base: u32, first: bool)
    requires base < RESYNC_STEP && ResyncSequence(sequence, 0) == base
    requires ResyncSequence(sequence, 1) == base + RESYNC_STEP
    requires ResyncSequence(sequence, 2) == base + 2 * RESYNC_STEP
    requires ResyncSequence(sequence, 3) == base + 3 * RESYNC_STEP
    ensures HearBurst(memory, sequence, Delivered(if first then 1 else 0, 1, 1, 1)) == Some(ResyncSequence(sequence, 3))
  {
    hide Hear, SequenceNewer, ResyncSequence;
    var s1, s2, s3 := base + RESYNC_STEP, base + 2 * RESYNC_STEP, base + 3 * RESYNC_STEP;
    var m1 := if first then Hear(memory, base) else memory;
    assert Again(memory, base, if first then 1 else 0) == m1;
    var ahead := HearFirst(m1, s1);
    var m2 := Hear(m1, s1);
    assert Again(m1, s1, 1) == m2;
    HearNext(s1, ahead);
    var m3 := Hear(m2, s2);
    assert Again(m2, s2, 1) == m3;
    HearNext(s2, if ahead < RESYNC_STEP then 0 else ahead - RESYNC_STEP);
    assert Again(m3, s3, 1) == Hear(m3, s3);
  }

  /** A receiver that has heard `s` remembers it or a number at most half the space ahead of it. */
  lemma HearFirst(memory: Option<u32>, s: u32) returns (ahead: nat)
    ensures ahead <= 2 * RESYNC_STEP && Hear(memory, s) == Some(Wrap32(s + ahead))
  {
    ahead := if Hear(memory, s) == Some(s) then 0 else Wrap32(memory.value - s);
  }

  /** Hearing the number a quarter of the space further on takes up a quarter of that lead. */
  lemma HearNext(s: u32, ahead: nat)
    requires ahead <= 2 * RESYNC_STEP && s + RESYNC_STEP < TWO32
    ensures Hear(Some(Wrap32(s + ahead)), s + RESYNC_STEP)
         == Some(Wrap32(s + RESYNC_STEP + if ahead < RESYNC_STEP then 0 else ahead - RESYNC_STEP))
  {
  }

  /** Each of the last three packets is needed: without it some receiver stays behind. */
  lemma LossDefeatsResync(sequence: u32, d: Delivered) returns (memory: Option<u32>)
    requires d.second == 0 || d.third == 0 || d.fourth == 0
    ensures HearBurst(memory, sequence, d) != Some(ResyncSequence(sequence, 3))
  {
    var base := ResyncSequences(sequence);
    var s0, s1, s2, s3 := base, base + RESYNC_STEP, base + 2 * RESYNC_STEP, base + 3 * RESYNC_STEP;
    memory := Some(if d.fourth == 0 then s2 else if d.third == 0 then s1 else s0);
    HearBurstOnce(memory, sequence, d);
    var d1 := Delivered(if d.first > 0 then 1 else 0, if d.second > 0 then 1 else 0,
                        if d.third > 0 then 1 else 0, if d.fourth > 0 then 1 else 0);
    assert !SequenceNewer(s0, memory.value);
    assert Again(memory, s0, d1.first) == memory;
    if d.fourth == 0 {
      assert Again(memory, s1, d1.second) == memory;
      assert Again(memory, s2, d1.third) == memory;
      assert Again(memory, s3, 0) == memory;
    } else if d.third == 0 {
      assert Again(memory, s1, d1.second) == memory;
      assert Again(memory, s2, 0) == memory;
      assert Again(memory, s3, d1.fourth) == memory;
    } else {
      assert Again(memory, s1, 0) == memory;
      assert Again(memory, s2, d1.third) == memory;
      assert Again(memory, s3, d1.fourth) == memory;
    }
  }

  /** In-order delivery is needed too: a first packet that arrives last takes the receiver back. */
  lemma LateFirstPacketUndoesResync(sequence: u32)
    ensures Hear(Some(ResyncSequence(sequence, 3)), ResyncSequence(sequence, 0)) == Some(ResyncSequence(sequence, 0))
  {
    var base := ResyncSequences(sequence);
  }

  /** The datagrams of the burst act on the full receiver as on its memory. */
  function Receive(s: State, packets: seq<seq<byte>>, nowMs: u32): State
    decreases |packets|
  {
    if packets == [] then s else Receive(Accept(s, packets[0], nowMs).0, packets[1..], nowMs)
  }

  /** How many of the datagrams are acted on. */
  function Acceptances(s: State, packets: seq<seq<byte>>, nowMs: u32): nat
    decreases |packets|
  {
    if packets == [] then 0
    else
      var (t, ok) := Accept(s, packets[0], nowMs);
      (if ok then 1 else 0) + Acceptances(t, packets[1..], nowMs)
  }

  lemma HearPacket(s: State, c: Commands, steerRad: u32, sequence: u32, alive: u16, timestampUs: u64, nowMs: u32)
    requires Turnable(c, steerRad)
    ensures Memory(Accept(s, PackFront(c, steerRad, sequence, alive, timestampUs, false), nowMs).0)
         == Hear(Memory(s), sequence)
  {
    var p := PackFront(c, steerRad, sequence, alive, timestampUs, false);
    FrontFields(c, steerRad, sequence, alive, timestampUs);
    if s.initialized && !SequenceNewer(sequence, s.lastSequence) {
      StaleIsIgnored(s, p, nowMs);
    } else {
      FrontCommandRoundTrip(s, c, steerRad, sequence, alive, timestampUs, nowMs);
    }
  }

  lemma {:induction false} HearCopies(s: State, c: Commands, steerRad: u32, sequence: u32, alive: u16,
                                      timestampUs: u64, copies: nat, nowMs: u32)
    requires Turnable(c, steerRad)
    ensures Memory(Receive(s, Copies(PackFront(c, steerRad, sequence, alive, timestampUs, false), copies), nowMs))
         == Again(Memory(s), sequence, copies)
    decreases copies
  {
    hide Accept, PackFront, Turnable, Hear;
    if copies == 0 {
    } else {
      var p := PackFront(c, steerRad, sequence, alive, timestampUs, false);
      HearPacket(s, c, steerRad, sequence, alive, timestampUs, nowMs);
      assert Copies(p, copies)[1..] == Copies(p, copies - 1);
      HearCopies(Accept(s, p, nowMs).0, c, steerRad, sequence, alive, timestampUs, copies - 1, nowMs);
    }
  }

  lemma {:induction false} ReceiveConcat(s: State, a: seq<seq<byte>>, b: seq<seq<byte>>, nowMs: u32)
    ensures Receive(s, a + b, nowMs) == Receive(Receive(s, a, nowMs), b, nowMs)
    decreases |a|
  {
    if a == [] {
      assert a + b == b;
    } else {
      assert (a + b)[1..] == a[1..] + b;
      ReceiveConcat(Accept(s, a[0], nowMs).0, a[1..], b, nowMs);
    }
  }

  /** The copies of one packet of the burst. */
  function Block(cfg: Config, packets: nat -> seq<byte>, index: nat): seq<seq<byte>>
  {
    Copies(packets(index), PerPacket(cfg))
  }

  lemma BurstIsBlocks(cfg: Config, packets: nat -> seq<byte>, front: seq<seq<byte>>)
    requires |front| == Datagrams(cfg, 4) && InOrder(cfg, packets, front)
    ensures front == Block(cfg, packets, 0) + Block(cfg, packets, 1) + Block(cfg, packets, 2) + Block(cfg, packets, 3)
  {
  }

  lemma HearBlock(s: State, cfg: Config, sequence: u32, alive: u16, clock: nat -> u64, index: nat, nowMs: u32)
    ensures Memory(Receive(s, Block(cfg, ResyncPackets(cfg, sequence, alive, clock), index), nowMs))
         == Again(Memory(s), ResyncSequence(sequence, index), PerPacket(cfg))
  {
    HearCopies(s, IDLE, cfg.steerRad, ResyncSequence(sequence, index), AliveAfter(alive, index), clock(index),
               PerPacket(cfg), nowMs);
  }

  /** Start-up in one statement: from any receiver state, delivering the controller's burst in
      order leaves the receiver waiting for exactly the controller's next number. */
  lemma StartUpSynchronises(s: State, cfg: Config, sequence: u32, alive: u16, clock: nat -> u64,
                            front: seq<seq<byte>>, nowMs: u32)
    requires |front| == Datagrams(cfg, 4) && InOrder(cfg, ResyncPackets(cfg, sequence, alive, clock), front)
    ensures InSync(Receive(s, front, nowMs), Wrap32(ResyncSequence(sequence, 3) + 1))
  {
    hide Receive, HearBurst, InOrder, ResyncPackets, ResyncSequence;
    BurstMemory(s, cfg, sequence, alive, clock, front, nowMs);
    ResyncCaptures(Memory(s), sequence, Delivered(PerPacket(cfg), PerPacket(cfg), PerPacket(cfg), PerPacket(cfg)));
    RememberedIsInSync(Receive(s, front, nowMs), ResyncSequence(sequence, 3));
  }

  lemma RememberedIsInSync(s: State, sequence: u32)
    requires Memory(s) == Some(sequence)
    ensures InSync(s, Wrap32(sequence + 1))
  {
  }

  lemma BurstMemory(s: State, cfg: Config, sequence: u32, alive: u16, clock: nat -> u64,
                    front: seq<seq<byte>>, nowMs: u32)
    requires |front| == Datagrams(cfg, 4) && InOrder(cfg, ResyncPackets(cfg, sequence, alive, clock), front)
    ensures var n := PerPacket(cfg);
            Memory(Receive(s, front, nowMs)) == HearBurst(Memory(s), sequence, Delivered(n, n, n, n))
  {
    hide InOrder, ResyncPackets, ResyncSequence, Block, Again;
    var packets := ResyncPackets(cfg, sequence, alive, clock);
    var b0, b1 := Block(cfg, packets, 0), Block(cfg, packets, 1);
    var b2, b3 := Block(cfg, packets, 2), Block(cfg, packets, 3);
    BurstIsBlocks(cfg, packets, front);
    HearNextBlock(s, [], cfg, sequence, alive, clock, 0, nowMs);
    assert [] + b0 == b0;
    HearNextBlock(s, b0, cfg, sequence, alive, clock, 1, nowMs);
    HearNextBlock(s, b0 + b1, cfg, sequence, alive, clock, 2, nowMs);
    HearNextBlock(s, b0 + b1 + b2, cfg, sequence, alive, clock, 3, nowMs);
  }

  lemma HearNextBlock(s: State, before: seq<seq<byte>>, cfg: Config, sequence: u32, alive: u16,
                      clock: nat -> u64, index: nat, nowMs: u32)
    ensures Memory(Receive(s, before + Block(cfg, ResyncPackets(cfg, sequence, alive, clock), index), nowMs))
         == Again(Memory(Receive(s, before, nowMs)), ResyncSequence(sequence, index), PerPacket(cfg))
  {
    ReceiveConcat(s, before, Block(cfg, ResyncPackets(cfg, sequence, alive, clock), index), nowMs);
    HearBlock(Receive(s, before, nowMs), cfg, sequence, alive, clock, index, nowMs);
  }

  // ---------------------------------------------------------------- publishing

  /** The receiver has seen everything up to the controller's next number. */
  predicate InSync(s: State, next: u32)
  {
    s.initialized && s.lastSequence == Wrap32(next - 1)
  }

  /** The receiver has already seen the controller's next number. */
  predicate Ahead(s: State, next: u32)
  {
    s.initialized && s.lastSequence == next
  }

  /** One publish: the operator's commands by then, how many socket calls succeed, and the
      clock readings of servo periods that run on FRONT before it. */
  datatype Op = Op(commands: Commands, alive: u16, timestampUs: u64, sends: nat, periods: seq<u32>, nowMs: u32)

  function RunPeriods(s: State, periods: seq<u32>): State
    decreases |periods|
  {
    if periods == [] then s else RunPeriods(RunOnce(s, periods[0]), periods[1..])
  }

  /** The receiver before, and after, the datagrams of a publish; and the controller's number. */
  function Before(s: State, op: Op): State { RunPeriods(s, op.periods) }

  function After(s: State, next: u32, cfg: Config, op: Op): State
  {
    var p := PackFront(op.commands, cfg.steerRad, next, op.alive, op.timestampUs, false);
    Receive(Before(s, op), Copies(p, Fewer(op.sends, PerPacket(cfg))), op.nowMs)
  }

  function AcceptedIn(s: State, next: u32, cfg: Config, op: Op): nat
  {
    var p := PackFront(op.commands, cfg.steerRad, next, op.alive, op.timestampUs, false);
    Acceptances(Before(s, op), Copies(p, Fewer(op.sends, PerPacket(cfg))), op.nowMs)
  }

  function Next(next: u32, cfg: Config, op: Op): u32
  {
    if op.sends > PerPacket(cfg) then Wrap32(next + 1) else next
  }

  lemma {:induction false} PeriodsKeepMemory(s: State, periods: seq<u32>)
    ensures Memory(RunPeriods(s, periods)) == Memory(s)
    decreases |periods|
  {
    if periods == [] {
    } else {
      PeriodsKeepMemory(RunOnce(s, periods[0]), periods[1..]);
    }
  }

  lemma NextIsNewer(next: u32)
    ensures SequenceNewer(next, Wrap32(next - 1)) && !SequenceNewer(next, next)
    ensures Wrap32(Wrap32(next + 1) - 1) == next
  {
  }

  /** One publish to a receiver in step: obeyed exactly once although it may arrive twice;
      and if only the later socket calls fail, the receiver gets ahead of the controller. */
  lemma PublishInSync(s: State, next: u32, cfg: Config, op: Op)
    requires InSync(s, next) && Turnable(op.commands, cfg.steerRad)
    ensures var t := After(s, next, cfg, op);
            if op.sends == 0 then
              t == Before(s, op) && AcceptedIn(s, next, cfg, op) == 0 && InSync(t, Next(next, cfg, op))
            else
              && Obeys(t, op.commands, cfg.steerRad) && AcceptedIn(s, next, cfg, op) == 1
              && t.lastPacketMs == op.nowMs && t.applied == Before(s, op).applied
              && t.lastApplyMs == Before(s, op).lastApplyMs
              && (if op.sends > PerPacket(cfg) then InSync(t, Next(next, cfg, op)) else Ahead(t, Next(next, cfg, op)))
  {
    hide PackFront, Turnable, Obeys;
    var b := Before(s, op);
    PeriodsKeepMemory(s, op.periods);
    NextIsNewer(next);
    if op.sends > 0 {
      FrontCommandRoundTrip(b, op.commands, cfg.steerRad, next, op.alive, op.timestampUs, op.nowMs);
      ReceiveCopies(b, Fewer(op.sends, PerPacket(cfg)), op.commands, cfg.steerRad, next, op.alive, op.timestampUs,
                    op.nowMs);
    }
  }

  /** Shutting down centers the steering of a receiver in step. */
  lemma ShutdownCenters(s: State, next: u32, c: Commands, steerRad: u32, alive: u16, timestampUs: u64, nowMs: u32)
    requires InSync(s, next)
    ensures var (t, ok) := Accept(s, PackFront(c, steerRad, next, alive, timestampUs, true), nowMs);
            && ok && t.emergencyCenter && !t.commandValid && t.target == 0.0 && t.lastSequence == next
  {
    hide Seal, Body, U32Le, Value;
    NextIsNewer(next);
    SealedIsWellFormed(CONTROL_DISABLED, FLAG_EMERGENCY_CENTER, next, timestampUs, ZERO, TWO, alive);
  }

  /** A publish to a receiver that is ahead is lost, whatever it carries, an emergency stop
      included. */
  lemma PublishAhead(s: State, next: u32, cfg: Config, op: Op)
    requires Ahead(s, next)
    ensures var t := After(s, next, cfg, op);
            && t == Before(s, op) && AcceptedIn(s, next, cfg, op) == 0
            && (if op.sends > PerPacket(cfg) then InSync(t, Next(next, cfg, op)) else Ahead(t, Next(next, cfg, op)))
  {
    hide PackFront, Accept, Receive, Acceptances;
    var b := Before(s, op);
    var p := PackFront(op.commands, cfg.steerRad, next, op.alive, op.timestampUs, false);
    PeriodsKeepMemory(s, op.periods);
    NextIsNewer(next);
    FrontFields(op.commands, cfg.steerRad, next, op.alive, op.timestampUs);
    ReceiveStale(b, p, Fewer(op.sends, PerPacket(cfg)), op.nowMs);
  }

  lemma {:induction false} ReceiveStale(s: State, p: seq<byte>, n: nat, nowMs: u32)
    requires WellFormed(p) && s.initialized && !SequenceNewer(U32Le(p, 8), s.lastSequence)
    ensures Receive(s, Copies(p, n), nowMs) == s && Acceptances(s, Copies(p, n), nowMs) == 0
  {
    if n == 0 {
    } else {
      StaleIsIgnored(s, p, nowMs);
      assert Copies(p, n)[1..] == Copies(p, n - 1);
      ReceiveStale(s, p, n - 1, nowMs);
    }
  }

  lemma ReceiveCopies(s: State, n: nat, c: Commands, steerRad: u32, sequence: u32, alive: u16,
                      timestampUs: u64, nowMs: u32)
    requires var (t, ok) := Accept(s, PackFront(c, steerRad, sequence, alive, timestampUs, false), nowMs);
             ok && t.initialized && t.lastSequence == sequence
    requires n > 0
    ensures var p := PackFront(c, steerRad, sequence, alive, timestampUs, false);
            && Receive(s, Copies(p, n), nowMs) == Accept(s, p, nowMs).0
            && Acceptances(s, Copies(p, n), nowMs) == 1
  {
    hide PackFront, Accept;
    var p := PackFront(c, steerRad, sequence, alive, timestampUs, false);
    FrontFields(c, steerRad, sequence, alive, timestampUs);
    NextIsNewer(sequence);
    assert Copies(p, n)[1..] == Copies(p, n - 1);
    ReceiveStale(Accept(s, p, nowMs).0, p, n - 1, nowMs);
  }

  // ---------------------------------------------------------------- runs of publishes

  function Exec(s: State, next: u32, cfg: Config, ops: seq<Op>): (State, u32)
    decreases |ops|
  {
    if ops == [] then (s, next)
    else Exec(After(s, next, cfg, ops[0]), Next(next, cfg, ops[0]), cfg, ops[1..])
  }

  /** The datagrams acted on over the whole run. */
  function TotalAccepted(s: State, next: u32, cfg: Config, ops: seq<Op>): nat
    decreases |ops|
  {
    if ops == [] then 0
    else AcceptedIn(s, next, cfg, ops[0])
         + TotalAccepted(After(s, next, cfg, ops[0]), Next(next, cfg, ops[0]), cfg, ops[1..])
  }

  /** Read off the socket results alone: is the receiver in step after one publish, */
  function StepInSync(inSync: bool, cfg: Config, op: Op): bool
  {
    op.sends > PerPacket(cfg) || (inSync && op.sends == 0)
  }

  /** is it in step after all of them, */
  function StaysInSync(inSync: bool, cfg: Config, ops: seq<Op>): bool
    decreases |ops|
  {
    if ops == [] then inSync else StaysInSync(StepInSync(inSync, cfg, ops[0]), cfg, ops[1..])
  }

  /** and how many of them does it obey? */
  function Obeyed(inSync: bool, cfg: Config, ops: seq<Op>): nat
    decreases |ops|
  {
    if ops == [] then 0
    else (if inSync && ops[0].sends > 0 then 1 else 0) + Obeyed(StepInSync(inSync, cfg, ops[0]), cfg, ops[1..])
  }

  predicate Coupled(s: State, next: u32, inSync: bool)
  {
    if inSync then InSync(s, next) else Ahead(s, next)
  }

  lemma PublishStep(s: State, next: u32, inSync: bool, cfg: Config, op: Op)
    requires Coupled(s, next, inSync) && Turnable(op.commands, cfg.steerRad)
    ensures Coupled(After(s, next, cfg, op), Next(next, cfg, op), StepInSync(inSync, cfg, op))
    ensures AcceptedIn(s, next, cfg, op) == if inSync && op.sends > 0 then 1 else 0
    ensures inSync && op.sends > 0 ==> Obeys(After(s, next, cfg, op), op.commands, cfg.steerRad)
  {
    if inSync { PublishInSync(s, next, cfg, op); } else { PublishAhead(s, next, cfg, op); }
  }

  /** Over every run of publishes, with any socket failures, across wraparound, and with servo
      periods in between: the receiver obeys exactly the publishes that find it in step. */
  lemma {:induction false} LinkObeysExactly(s: State, next: u32, inSync: bool, cfg: Config, ops: seq<Op>)
    requires Coupled(s, next, inSync) && forall op <- ops :: Turnable(op.commands, cfg.steerRad)
    ensures Coupled(Exec(s, next, cfg, ops).0, Exec(s, next, cfg, ops).1, StaysInSync(inSync, cfg, ops))
    ensures TotalAccepted(s, next, cfg, ops) == Obeyed(inSync, cfg, ops)
    decreases |ops|
  {
    hide After, AcceptedIn, Turnable;
    if ops == [] {
    } else {
      var op := ops[0];
      PublishStep(s, next, inSync, cfg, op);
      LinkObeysExactly(After(s, next, cfg, op), Next(next, cfg, op), StepInSync(inSync, cfg, op), cfg, ops[1..]);
    }
  }

  predicate Healthy(cfg: Config, ops: seq<Op>)
  {
    forall op <- ops :: Turnable(op.commands, cfg.steerRad) && op.sends > PerPacket(cfg)
  }

  lemma {:induction false} HealthyOpsObeyed(cfg: Config, ops: seq<Op>)
    requires Healthy(cfg, ops)
    ensures Obeyed(true, cfg, ops) == |ops| && StaysInSync(true, cfg, ops)
    decreases |ops|
  {
    if ops == [] {
    } else {
      assert ops[0] in ops;
      HealthyOpsObeyed(cfg, ops[1..]);
    }
  }

  lemma {:induction false} LastIsObeyed(s: State, next: u32, cfg: Config, ops: seq<Op>)
    requires InSync(s, next) && Healthy(cfg, ops) && ops != []
    ensures Obeys(Exec(s, next, cfg, ops).0, ops[|ops| - 1].commands, cfg.steerRad)
    decreases |ops|
  {
    hide After, Obeys, AcceptedIn;
    var op, rest := ops[0], ops[1..];
    assert op in ops;
    PublishStep(s, next, true, cfg, op);
    if rest == [] {
    } else {
      LastIsObeyed(After(s, next, cfg, op), Next(next, cfg, op), cfg, rest);
    }
  }

  /** Without socket failures every publish is obeyed exactly once, and the last one is in force. */
  lemma HealthyLinkObeysAll(s: State, next: u32, cfg: Config, ops: seq<Op>)
    requires InSync(s, next) && Healthy(cfg, ops)
    ensures InSync(Exec(s, next, cfg, ops).0, Exec(s, next, cfg, ops).1)
    ensures TotalAccepted(s, next, cfg, ops) == |ops|
    ensures ops != [] ==> Obeys(Exec(s, next, cfg, ops).0, ops[|ops| - 1].commands, cfg.steerRad)
  {
    HealthyOpsObeyed(cfg, ops);
    LinkObeysExactly(s, next, true, cfg, ops);
    if ops != [] { LastIsObeyed(s, next, cfg, ops); }
  }
}

/** What a start-up burst that fails on the way does to the steering link: which receivers lose
    which of the publishes that follow. */
module FailedBurst {
  import opened Words
  import opened FrontState
  import opened FrontPackets
  import opened RemoteControl
  import opened SteeringLink

  const HALF: int := 0x8000_0000

  // ---------------------------------------------------------------- what has been heard

  /** The memory after the first `j` packets of the burst. */
  function AfterPackets(memory: Option<u32>, sequence: u32, j: nat): Option<u32>
  {
    if j == 0 then memory else Hear(AfterPackets(memory, sequence, j - 1), ResyncSequence(sequence, j - 1))
  }

  /** How many packets are out at least once after so many datagrams. */
  function Begun(cfg: Config, datagrams: nat): nat { if cfg.broadcast then (datagrams + 1) / 2 else datagrams }

  lemma HearTwice(memory: Option<u32>, n: u32)
    ensures Hear(Hear(memory, n), n) == Hear(memory, n)
  {
  }

  /** Delivered in order, the datagrams that are out act on the receiver's memory as the packets
      begun, each once. */
  lemma {:induction false} PartialBurstMemory(s: State, cfg: Config, sequence: u32, alive: u16, clock: nat -> u64,
                                              front: seq<seq<byte>>, nowMs: u32)
    requires InOrder(cfg, ResyncPackets(cfg, sequence, alive, clock), front)
    ensures Memory(Receive(s, front, nowMs)) == AfterPackets(Memory(s), sequence, Begun(cfg, |front|))
    decreases |front|
  {
    hide Hear, ResyncSequence, Accept, Receive, InOrder, ResyncPackets, Memory;
    if front == [] {
      ReceiveNone(s, nowMs);
    } else {
      var n := |front| - 1;
      var before, last := front[..n], front[n];
      var index := if cfg.broadcast then n / 2 else n;
      InOrderLast(cfg, ResyncPackets(cfg, sequence, alive, clock), front, index);
      PartialBurstMemory(s, cfg, sequence, alive, clock, before, nowMs);
      assert front == before + [last];
      ReceiveConcat(s, before, [last], nowMs);
      HearResyncPacket(Receive(s, before, nowMs), cfg, sequence, alive, clock, index, nowMs);
      HearTwice(AfterPackets(Memory(s), sequence, index), ResyncSequence(sequence, index));
      assert Begun(cfg, n + 1) == index + 1 && (Begun(cfg, n) == index || Begun(cfg, n) == index + 1);
    }
  }

  lemma InOrderLast(cfg: Config, packets: nat -> seq<byte>, front: seq<seq<byte>>, index: nat)
    requires InOrder(cfg, packets, front) && front != []
    requires index == if cfg.broadcast then (|front| - 1) / 2 else |front| - 1
    ensures InOrder(cfg, packets, front[..|front| - 1]) && front[|front| - 1] == packets(index)
  {
  }

  lemma HearResyncPacket(s: State, cfg: Config, sequence: u32, alive: u16, clock: nat -> u64, index: nat, nowMs: u32)
    ensures Memory(Receive(s, [ResyncPackets(cfg, sequence, alive, clock)(index)], nowMs))
         == Hear(Memory(s), ResyncSequence(sequence, index))
  {
    hide Hear, ResyncSequence, Accept, PackFront;
    ReceiveOne(s, ResyncPackets(cfg, sequence, alive, clock)(index), nowMs);
    HearPacket(s, IDLE, cfg.steerRad, ResyncSequence(sequence, index), AliveAfter(alive, index), clock(index), nowMs);
  }

  lemma ReceiveNone(s: State, nowMs: u32)
    ensures Receive(s, [], nowMs) == s
  {
  }

  lemma ReceiveOne(s: State, p: seq<byte>, nowMs: u32)
    ensures Receive(s, [p], nowMs) == Accept(s, p, nowMs).0
  {
    assert [p][1..] == [];
  }

  // ---------------------------------------------------------------- who is ahead

  /** How far the remembered number is ahead of the next one to be sent, modulo 2^32. */
  function Lead(last: u32, next: u32): u32 { Wrap32(last - next) }

  /** The next publish is refused. */
  predicate Loses(memory: Option<u32>, next: u32) { memory.Some? && Lead(memory.value, next) <= HALF }

  lemma LosesIsNotNewer(memory: Option<u32>, next: u32)
    ensures Loses(memory, next) <==> memory.Some? && !SequenceNewer(next, memory.value)
  {
  }

  /** The receivers that a burst broken off after `i` whole packets leaves ahead: those that were
      ahead by at most half the number space less a quarter for each packet they ignored. */
  predicate StaysAhead(memory: Option<u32>, next: u32, i: nat)
  {
    memory.Some? && Lead(memory.value, next) + RESYNC_STEP * i <= HALF
  }

  /** After the first packets a receiver ahead of all of them is unchanged; any other one
      remembers the last of them or is ahead of it by what was left. */
  lemma {:induction false} WholePacketsHeard(memory: Option<u32>, sequence: u32, i: nat)
    requires i <= 3
    ensures var next, m := ResyncSequence(sequence, i), AfterPackets(memory, sequence, i);
            && (Loses(m, next) <==> StaysAhead(memory, next, i)) && (Loses(m, next) ==> m == memory)
    decreases i
  {
    hide Hear, Loses, StaysAhead, ResyncSequence;
    if i == 0 {
      NoneIgnored(memory, ResyncSequence(sequence, i), i);
    } else {
      var base := ResyncSequences(sequence);
      WholePacketsHeard(memory, sequence, i - 1);
      HearPrevious(AfterPackets(memory, sequence, i - 1), memory, base + RESYNC_STEP * (i - 1), i);
    }
  }

  lemma NoneIgnored(memory: Option<u32>, next: u32, i: nat)
    requires i == 0
    ensures Loses(memory, next) <==> StaysAhead(memory, next, i)
  {
  }

  lemma HearPrevious(m: Option<u32>, memory: Option<u32>, previous: u32, i: nat)
    requires 1 <= i <= 3 && previous + RESYNC_STEP < TWO32
    requires Loses(m, previous) <==> StaysAhead(memory, previous, i - 1)
    requires Loses(m, previous) ==> m == memory
    ensures var next, h := previous + RESYNC_STEP, Hear(m, previous);
            && (Loses(h, next) <==> StaysAhead(memory, next, i)) && (Loses(h, next) ==> h == memory)
  {
    LosesIsNotNewer(m, previous);
    if memory.Some? { LeadOfNext(memory.value, previous); }
    LeadOfNext(previous, previous);
  }

  /** The lead over a number a quarter further on is a quarter less, around the circle. */
  lemma LeadOfNext(last: u32, previous: u32)
    requires previous + RESYNC_STEP < TWO32
    ensures Lead(last, previous + RESYNC_STEP)
         == if Lead(last, previous) >= RESYNC_STEP then Lead(last, previous) - RESYNC_STEP
            else Lead(last, previous) + TWO32 - RESYNC_STEP
  {
  }

  /** A receiver that has heard the packet at which the burst broke off refuses the next publish,
      which carries the same number. */
  lemma HeardLosesIt(memory: Option<u32>, next: u32)
    ensures var h := Hear(memory, next);
            Loses(h, next) && h == if Loses(memory, next) then memory else Some(next)
  {
    LosesIsNotNewer(memory, next);
  }

  /** The burst breaks off after `datagrams` of its datagrams, all delivered in order. Exactly
      these receivers then refuse the next publish: those that got the unicast copy of the broken
      packet, and those that remember a number ahead of it by at most half the number space less
      a quarter for each whole packet. Receivers without a memory, and after three whole packets
      every receiver, lose nothing beyond that copy. */
  lemma BrokenBurstLeaves(s: State, cfg: Config, sequence: u32, alive: u16, clock: nat -> u64,
                          front: seq<seq<byte>>, nowMs: u32)
    requires |front| < Datagrams(cfg, 4) && InOrder(cfg, ResyncPackets(cfg, sequence, alive, clock), front)
    ensures var i := Whole(cfg, |front|);
            var next, m := ResyncSequence(sequence, i), Memory(Receive(s, front, nowMs));
            && (Loses(m, next) <==> |front| > Datagrams(cfg, i) || StaysAhead(Memory(s), next, i))
            && (Loses(m, next) ==> m == if StaysAhead(Memory(s), next, i) then Memory(s) else Some(next))
  {
    hide Hear, ResyncSequence, Accept, Loses, StaysAhead, InOrder, Receive;
    var i := Whole(cfg, |front|);
    PartialBurstMemory(s, cfg, sequence, alive, clock, front, nowMs);
    WholePacketsHeard(Memory(s), sequence, i);
    if |front| > Datagrams(cfg, i) {
      HeardLosesIt(AfterPackets(Memory(s), sequence, i), ResyncSequence(sequence, i));
    }
  }

  // ---------------------------------------------------------------- how many publishes are lost

  /** A publish to a receiver that is ahead is refused, however many of its socket calls fail. */
  lemma PublishBehind(s: State, next: u32, cfg: Config, op: Op)
    requires Loses(Memory(s), next)
    ensures var t := After(s, next, cfg, op);
            && t == Before(s, op) && AcceptedIn(s, next, cfg, op) == 0 && Memory(t) == Memory(s)
  {
    hide Accept, Receive, PackFront, Acceptances;
    var p := PackFront(op.commands, cfg.steerRad, next, op.alive, op.timestampUs, false);
    PeriodsKeepMemory(s, op.periods);
    LosesIsNotNewer(Memory(s), next);
    FrontFields(op.commands, cfg.steerRad, next, op.alive, op.timestampUs);
    ReceiveStale(Before(s, op), p, Fewer(op.sends, PerPacket(cfg)), op.nowMs);
  }

  lemma LeadShrinks(s: State, next: u32)
    requires Memory(s).Some?
    ensures var last := s.lastSequence;
            if Lead(last, next) > 0 then Lead(last, Wrap32(next + 1)) == Lead(last, next) - 1
            else forall t: State :: Memory(t) == Memory(s) ==> InSync(t, Wrap32(next + 1))
  {
  }

  /** How many publishes get all their datagrams out, and so move the controller's number on. */
  function Successes(cfg: Config, ops: seq<Op>): nat
  {
    if ops == [] then 0 else (if ops[0].sends > PerPacket(cfg) then 1 else 0) + Successes(cfg, ops[1..])
  }

  /** At most this many publishes before the last one get all their datagrams out. */
  predicate SucceedBeforeLast(cfg: Config, ops: seq<Op>, most: nat)
  {
    ops == [] || Successes(cfg, ops[..|ops| - 1]) <= most
  }

  lemma SucceedInRest(cfg: Config, ops: seq<Op>, most: nat)
    requires ops != [] && SucceedBeforeLast(cfg, ops, most)
    ensures ops[0].sends <= PerPacket(cfg) ==> SucceedBeforeLast(cfg, ops[1..], most)
    ensures ops[0].sends > PerPacket(cfg) && most > 0 ==> SucceedBeforeLast(cfg, ops[1..], most - 1)
    ensures ops[0].sends > PerPacket(cfg) && most == 0 ==> ops[1..] == []
  {
    if |ops| > 1 {
      assert ops[..|ops| - 1][1..] == ops[1..][..|ops[1..]| - 1];
    }
  }

  /** A receiver ahead by `lead` refuses every publish, whatever it carries, an emergency stop
      included, and whichever socket calls fail, as long as at most `lead` publishes before it
      got all their datagrams out. Each of those takes one off the lead, and with number
      `lead + 1` the link is in step again. */
  lemma {:induction false} ExactlyLeadPlusOneLost(s: State, next: u32, cfg: Config, ops: seq<Op>)
    requires Loses(Memory(s), next) && SucceedBeforeLast(cfg, ops, Lead(s.lastSequence, next))
    ensures TotalAccepted(s, next, cfg, ops) == 0
    ensures var (t, after) := Exec(s, next, cfg, ops);
            && Memory(t) == Memory(s)
            && if Successes(cfg, ops) <= Lead(s.lastSequence, next) then
                 && Loses(Memory(t), after)
                 && Lead(s.lastSequence, after) == Lead(s.lastSequence, next) - Successes(cfg, ops)
               else
                 Successes(cfg, ops) == Lead(s.lastSequence, next) + 1 && InSync(t, after)
    decreases |ops|
  {
    hide After, AcceptedIn, Lead, InSync, SucceedBeforeLast;
    if ops == [] {
    } else {
      var op, rest := ops[0], ops[1..];
      PublishBehind(s, next, cfg, op);
      LeadShrinks(s, next);
      SucceedInRest(cfg, ops, Lead(s.lastSequence, next));
      if rest == [] {
        OneLost(s, next, cfg, ops);
      } else {
        ExactlyLeadPlusOneLost(After(s, next, cfg, op), Next(next, cfg, op), cfg, rest);
      }
    }
  }

  lemma OneLost(s: State, next: u32, cfg: Config, ops: seq<Op>)
    requires |ops| == 1
    ensures Exec(s, next, cfg, ops) == (After(s, next, cfg, ops[0]), Next(next, cfg, ops[0]))
    ensures TotalAccepted(s, next, cfg, ops) == AcceptedIn(s, next, cfg, ops[0])
  {
    hide After, AcceptedIn;
    assert ops[1..] == [];
  }
}

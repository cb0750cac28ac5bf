/** The three-stage frame parser against a plain scan of the received bytes. */
module FrontFrames {
  import opened Words
  import opened Crc32
  import opened Float32
  import opened Hpsc
  import opened FrontState
  import opened FrontPackets
  import opened FrontSafety

  function PacketAt(f: seq<byte>, at: nat): seq<byte>
    requires at + SIZE <= |f|
  {
    f[at..at + SIZE]
  }

  /** The offsets of the buffer that hold a packet the receiver would act on. */
  ghost function Places(s: State, f: seq<byte>): iset<nat>
  {
    iset at: nat | at + SIZE <= |f| && Acceptable(s, PacketAt(f, at))
  }

  /** Such a packet lies within the received bytes. */
  ghost predicate HoldsAcceptable(s: State, f: seq<byte>, length: nat)
  {
    exists at: nat :: at + SIZE <= length && at in Places(s, f)
  }

  lemma PlaceHasMagic(s: State, f: seq<byte>, at: nat)
    requires at in Places(s, f)
    ensures f[at..at + 4] == MAGIC && f[at] == 0x48
  {
    assert PacketAt(f, at)[..4] == f[at..at + 4];
    assert f[at..at + 4][0] == MAGIC[0];
  }

  lemma AcceptAtPlace(s: State, f: seq<byte>, at: nat, nowMs: u32)
    requires at + SIZE <= |f|
    ensures var (t, ok) := Accept(s, PacketAt(f, at), nowMs);
            && (ok <==> at in Places(s, f))
            && (ok ==> t.accepted == Wrap32(s.accepted + 1))
            && (!ok ==> t == s.(rejected := t.rejected))
  {
    AcceptIffAcceptable(s, PacketAt(f, at), nowMs);
    if !Accept(s, PacketAt(f, at), nowMs).1 { RefusedChangesOnlyCounter(s, PacketAt(f, at), nowMs); }
  }

  /** Refusals move the reject counter only, and acceptability does not look at it. */
  lemma SameUpToRejected(s: State, t: State, f: seq<byte>, at: nat, nowMs: u32)
    requires t == s.(rejected := t.rejected) && at + SIZE <= |f|
    ensures at in Places(s, f) <==> at in Places(t, f)
    ensures at in Places(s, f) ==>
              Accept(t, PacketAt(f, at), nowMs).0 == Accept(s, PacketAt(f, at), nowMs).0.(rejected := t.rejected)
  {
    hide Accept, Acceptable;
    SameMemory(s, t, PacketAt(f, at));
    if at in Places(s, f) { SameAcceptance(s, t, PacketAt(f, at), nowMs); }
  }

  lemma SameMemory(s: State, t: State, p: seq<byte>)
    requires s.initialized == t.initialized && s.lastSequence == t.lastSequence
    ensures Acceptable(s, p) == Acceptable(t, p)
  {
    hide Value, Passes, U16Le, U32Le;
  }

  lemma SameAcceptance(s: State, t: State, p: seq<byte>, nowMs: u32)
    requires t == s.(rejected := t.rejected) && Acceptable(s, p)
    ensures Accept(t, p, nowMs).0 == Accept(s, p, nowMs).0.(rejected := t.rejected)
  {
    hide Value, Acceptable, WellFormed, CommandValid, U32Le;
    AcceptableMeans(s, p);
  }

  // ---------------------------------------------------------------- which frames are accepted

  ghost predicate Hits(offsets: seq<nat>, places: iset<nat>)
  {
    exists o <- offsets :: o in places
  }

  lemma {:induction false} TryAllIff(s: State, f: seq<byte>, offsets: seq<nat>, nowMs: u32)
    requires InBuffer(f, offsets)
    ensures TryAll(s, f, offsets, nowMs).1 <==> Hits(offsets, Places(s, f))
    decreases |offsets|
  {
    if offsets == [] {
    } else {
      var rest := offsets[1..];
      InBufferTail(f, offsets);
      var (t, ok) := Accept(s, PacketAt(f, offsets[0]), nowMs);
      AcceptAtPlace(s, f, offsets[0], nowMs);
      assert offsets == [offsets[0]] + rest;
      if !ok {
        TryAllIff(t, f, rest, nowMs);
        forall o | o in rest
          ensures o in Places(s, f) <==> o in Places(t, f)
        {
          SameUpToRejected(s, t, f, o, nowMs);
        }
      }
    }
  }

  lemma {:induction false} ScanFindsMagic(f: seq<byte>, from: nat, length: nat, at: nat)
    requires |f| == RX_BUFFER_SIZE && length <= RX_BUFFER_SIZE
    requires from <= at && at + SIZE <= length && f[at..at + 4] == MAGIC
    ensures at in ScanOffsets(f, from, length)
    decreases length - from
  {
    ScanFirst(f, from, length);
    if from == at {
    } else {
      ScanFindsMagic(f, from + 1, length, at);
    }
  }

  lemma ScanIff(s: State, f: seq<byte>, length: nat)
    requires |f| == RX_BUFFER_SIZE && length <= RX_BUFFER_SIZE
    ensures Hits(ScanOffsets(f, 0, length), Places(s, f)) <==> HoldsAcceptable(s, f, length)
  {
    if HoldsAcceptable(s, f, length) {
      var at: nat :| at + SIZE <= length && at in Places(s, f);
      PlaceHasMagic(s, f, at);
      ScanFindsMagic(f, 0, length, at);
    }
  }

  /** Where the headers of a raw IPv4 frame say the packet is. */
  function RawPlace(f: seq<byte>): nat
    requires |f| == RX_BUFFER_SIZE
  {
    f[0] % 16 * 4 + 8
  }

  /** A frame of at least 82 bytes that starts with an IPv4 header, carries UDP to port 5100 and
      claims at least 40 bytes of payload. */
  predicate RawIpFrame(f: seq<byte>, length: nat)
    requires |f| == RX_BUFFER_SIZE
  {
    && length >= 82 && f[0] / 16 == 4 && f[0] % 16 >= 5 && f[9] == 17
    && U16Be(f, RawPlace(f) - 6) == 5100 && U16Be(f, RawPlace(f) - 4) >= 48
  }

  /** The same behind an Ethernet header, with the total length of the datagram checked as well. */
  predicate EthernetFrame(f: seq<byte>, length: nat)
    requires |f| == RX_BUFFER_SIZE
  {
    && length >= 82 && f[12] == 8 && f[13] == 0 && f[14] / 16 == 4 && f[14] % 16 >= 5 && f[23] == 17
    && f[14] % 16 * 4 + 48 <= U16Be(f, 16) <= length - 14
    && U16Be(f, EthernetPlace(f) - 6) == 5100 && U16Be(f, EthernetPlace(f) - 4) >= 48
  }

  function EthernetPlace(f: seq<byte>): nat
    requires |f| == RX_BUFFER_SIZE
  {
    22 + f[14] % 16 * 4
  }

  lemma HeadersMean(f: seq<byte>, length: nat)
    requires |f| == RX_BUFFER_SIZE && length <= RX_BUFFER_SIZE
    ensures RawIpCandidate(f, length) == if RawIpFrame(f, length) then Some(RawPlace(f)) else None
    ensures EthernetCandidate(f, length) == if EthernetFrame(f, length) then Some(EthernetPlace(f)) else None
  {
  }

  /** Stage two reaches past the bytes that were received. */
  predicate Overruns(f: seq<byte>, length: nat)
    requires |f| == RX_BUFFER_SIZE
  {
    RawIpFrame(f, length) && RawPlace(f) + 40 > length
  }

  /** The parser in full: it accepts exactly when the received bytes hold an acceptable
      packet, or stage two overruns them and finds one in the stale bytes behind. */
  lemma ParserAcceptsIff(s: State, f: seq<byte>, length: nat, nowMs: u32)
    requires |f| == RX_BUFFER_SIZE && length <= RX_BUFFER_SIZE
    ensures AcceptFrame(s, f, length, nowMs).1 <==>
              || HoldsAcceptable(s, f, length)
              || (Overruns(f, length) && RawPlace(f) in Places(s, f))
  {
    hide RawIpCandidate, EthernetCandidate, RawPlace, EthernetPlace, EthernetFrame;
    HeadersMean(f, length);
    TryAllIff(s, f, Attempts(f, length), nowMs);
    ScanIff(s, f, length);
    AttemptsHitIff(f, length, Places(s, f));
  }

  lemma AttemptsHitIff(f: seq<byte>, length: nat, places: iset<nat>)
    requires |f| == RX_BUFFER_SIZE && length <= RX_BUFFER_SIZE
    ensures var ethernet, raw := EthernetCandidate(f, length), RawIpCandidate(f, length);
            Hits(Attempts(f, length), places) <==>
              || Hits(ScanOffsets(f, 0, length), places)
              || (ethernet.Some? && ethernet.value in places)
              || (raw.Some? && raw.value in places)
  {
    var ethernet, raw := EthernetCandidate(f, length), RawIpCandidate(f, length);
    HitsConcat(OptionSeq(ethernet), OptionSeq(raw), places);
    HitsConcat(OptionSeq(ethernet) + OptionSeq(raw), ScanOffsets(f, 0, length), places);
    HitsOption(ethernet, places);
    HitsOption(raw, places);
  }

  lemma HitsConcat(a: seq<nat>, b: seq<nat>, places: iset<nat>)
    ensures Hits(a + b, places) <==> Hits(a, places) || Hits(b, places)
  {
  }

  lemma HitsOption(o: Option<nat>, places: iset<nat>)
    ensures Hits(OptionSeq(o), places) <==> o.Some? && o.value in places
  {
    if o.Some? { assert o.value in [o.value]; }
  }

  /** So the parser is a plain scan of the received bytes whenever stage two stays inside them. */
  lemma ParserIsPlainScan(s: State, f: seq<byte>, length: nat, nowMs: u32)
    requires |f| == RX_BUFFER_SIZE && length <= RX_BUFFER_SIZE && !Overruns(f, length)
    ensures AcceptFrame(s, f, length, nowMs).1 <==> HoldsAcceptable(s, f, length)
  {
    ParserAcceptsIff(s, f, length, nowMs);
  }

  // ---------------------------------------------------------------- what a frame changes

  /** `t` is the outcome of acting on the packet at `at`, up to the reject counter. */
  ghost predicate ActedOn(s: State, t: State, f: seq<byte>, at: nat, nowMs: u32)
  {
    at in Places(s, f) && t == Accept(s, PacketAt(f, at), nowMs).0.(rejected := t.rejected)
  }

  lemma ActedOnUpToRejected(s: State, s1: State, t: State, f: seq<byte>, at: nat, nowMs: u32)
    requires s1 == s.(rejected := s1.rejected) && ActedOn(s1, t, f, at, nowMs)
    ensures ActedOn(s, t, f, at, nowMs)
  {
    SameUpToRejected(s, s1, f, at, nowMs);
  }

  lemma {:induction false} FrameEffect(s: State, f: seq<byte>, offsets: seq<nat>, nowMs: u32) returns (at: nat)
    requires InBuffer(f, offsets)
    ensures var (t, ok) := TryAll(s, f, offsets, nowMs);
            if ok then ActedOn(s, t, f, at, nowMs) else t == s.(rejected := t.rejected)
    decreases |offsets|
  {
    at := 0;
    if offsets == [] {
    } else {
      InBufferTail(f, offsets);
      at := offsets[0];
      AcceptAtPlace(s, f, at, nowMs);
      var (s1, first) := Accept(s, PacketAt(f, at), nowMs);
      if !first {
        at := FrameEffect(s1, f, offsets[1..], nowMs);
        var (t, ok) := TryAll(s1, f, offsets[1..], nowMs);
        if ok { ActedOnUpToRejected(s, s1, t, f, at, nowMs); }
      }
    }
  }

  /** A refused frame moves only the reject counter; an accepted one has the effect of exactly
      one packet of the buffer; and an acceptable packet anywhere in the received bytes is
      never lost to the header stages. */
  lemma AcceptedFrameCountsOnce(s: State, f: seq<byte>, length: nat, nowMs: u32)
    requires |f| == RX_BUFFER_SIZE && length <= RX_BUFFER_SIZE
    ensures var (t, ok) := AcceptFrame(s, f, length, nowMs);
            && (ok ==> t.accepted == Wrap32(s.accepted + 1) && exists at :: ActedOn(s, t, f, at, nowMs))
            && (!ok ==> t == s.(rejected := t.rejected))
            && (HoldsAcceptable(s, f, length) ==> ok)
  {
    var at := FrameEffect(s, f, Attempts(f, length), nowMs);
    ParserAcceptsIff(s, f, length, nowMs);
    if AcceptFrame(s, f, length, nowMs).1 { AcceptAtPlace(s, f, at, nowMs); }
  }

  // ---------------------------------------------------------------- which packet is acted on

  lemma TryAllOfFirst(s: State, f: seq<byte>, offsets: seq<nat>, nowMs: u32)
    requires InBuffer(f, offsets) && offsets != [] && offsets[0] in Places(s, f)
    ensures TryAll(s, f, offsets, nowMs) == (Accept(s, PacketAt(f, offsets[0]), nowMs).0, true)
  {
    hide Accept;
    AcceptAtPlace(s, f, offsets[0], nowMs);
  }

  /** An acceptable packet at the place the headers name is the one acted on, whatever else the
      frame holds; behind an Ethernet header first, then behind a bare IPv4 header. */
  lemma HeaderPlaceWins(s: State, f: seq<byte>, length: nat, nowMs: u32)
    requires |f| == RX_BUFFER_SIZE && length <= RX_BUFFER_SIZE
    ensures EthernetFrame(f, length) && EthernetPlace(f) in Places(s, f) ==>
              AcceptFrame(s, f, length, nowMs) == (Accept(s, PacketAt(f, EthernetPlace(f)), nowMs).0, true)
    ensures !EthernetFrame(f, length) && RawIpFrame(f, length) && RawPlace(f) in Places(s, f) ==>
              AcceptFrame(s, f, length, nowMs) == (Accept(s, PacketAt(f, RawPlace(f)), nowMs).0, true)
  {
    hide Accept, RawIpCandidate, EthernetCandidate, RawPlace, EthernetPlace, TryAll, EthernetFrame, RawIpFrame;
    HeadersMean(f, length);
    var offsets := Attempts(f, length);
    if offsets != [] && offsets[0] in Places(s, f) { TryAllOfFirst(s, f, offsets, nowMs); }
  }

  lemma {:induction false} ScanActsOnFirst(s: State, f: seq<byte>, from: nat, length: nat, at: nat, nowMs: u32)
    requires |f| == RX_BUFFER_SIZE && length <= RX_BUFFER_SIZE && from <= at && at + SIZE <= length
    requires at in Places(s, f) && forall o :: from <= o < at ==> o !in Places(s, f)
    ensures InBuffer(f, ScanOffsets(f, from, length))
    ensures var (t, ok) := TryAll(s, f, ScanOffsets(f, from, length), nowMs); ok && ActedOn(s, t, f, at, nowMs)
    decreases at - from
  {
    hide Accept, Acceptable;
    var rest := ScanOffsets(f, from + 1, length);
    ScanFirst(f, from, length);
    if from == at {
      PlaceHasMagic(s, f, at);
      TryAllOfFirst(s, f, [at] + rest, nowMs);
    } else if f[from..from + 4] == MAGIC {
      var (s1, ok) := Accept(s, PacketAt(f, from), nowMs);
      AcceptAtPlace(s, f, from, nowMs);
      assert s1 == s.(rejected := s1.rejected) && !ok;
      forall o: nat | o + SIZE <= |f| ensures o in Places(s, f) <==> o in Places(s1, f) {
        SameUpToRejected(s, s1, f, o, nowMs);
      }
      ScanActsOnFirst(s1, f, from + 1, length, at, nowMs);
      TryFirst(s, f, from, rest, nowMs, s1, ok);
      var t := TryAll(s1, f, rest, nowMs).0;
      ActedOnUpToRejected(s, s1, t, f, at, nowMs);
    } else {
      ScanActsOnFirst(s, f, from + 1, length, at, nowMs);
    }
  }

  /** Without headers that name a place the first acceptable packet of the received bytes is the
      one acted on. */
  lemma FirstOfScanWins(s: State, f: seq<byte>, length: nat, at: nat, nowMs: u32)
    requires |f| == RX_BUFFER_SIZE && length <= RX_BUFFER_SIZE && at + SIZE <= length
    requires !EthernetFrame(f, length) && !RawIpFrame(f, length)
    requires at in Places(s, f) && forall o :: 0 <= o < at ==> o !in Places(s, f)
    ensures var (t, ok) := AcceptFrame(s, f, length, nowMs); ok && ActedOn(s, t, f, at, nowMs)
  {
    hide Accept, RawIpCandidate, EthernetCandidate, EthernetFrame, RawIpFrame, TryAll, Acceptable;
    HeadersMean(f, length);
    ScanActsOnFirst(s, f, 0, length, at, nowMs);
    assert Attempts(f, length) == ScanOffsets(f, 0, length);
  }

  // ---------------------------------------------------------------- the overrun is real

  /** 82 received bytes with a raw IPv4 header of maximal length, and a packet left in the
      buffer behind them. */
  function OverrunBuffer(p: seq<byte>): (f: seq<byte>)
    requires |p| == SIZE
    ensures |f| == RX_BUFFER_SIZE
    ensures f[0] == 0x4F && f[9] == 17
    ensures f[62] == 0x13 && f[63] == 0xEC && f[64] == 0 && f[65] == 48
    ensures f[68..108] == p
    ensures forall i :: 0 <= i < 46 ==> f[i] != 0x48
  {
    var header: seq<byte> :=
      [0x4F] + seq(8, i => 0) + [17] + seq(52, i => 0) + [0x13, 0xEC, 0, 48] + [0, 0];
    header + p + seq(RX_BUFFER_SIZE - 108, i => 0)
  }

  lemma OverrunCandidate(f: seq<byte>)
    requires |f| == RX_BUFFER_SIZE && f[0] == 0x4F && f[9] == 17
    requires f[62] == 0x13 && f[63] == 0xEC && f[64] == 0 && f[65] == 48
    ensures RawIpCandidate(f, 82) == Some(68)
  {
  }

  lemma OverrunAcceptsStalePacket(s: State, p: seq<byte>, nowMs: u32)
    requires Acceptable(s, p)
    ensures var f := OverrunBuffer(p);
            && Overruns(f, 82)
            && AcceptFrame(s, f, 82, nowMs).1
            && !HoldsAcceptable(s, f, 82)
  {
    hide AcceptFrame, EthernetCandidate;
    var f := OverrunBuffer(p);
    OverrunCandidate(f);
    assert PacketAt(f, 68) == p;
    ParserAcceptsIff(s, f, 82, nowMs);
    forall at: nat | at + SIZE <= 82 && at in Places(s, f)
      ensures false
    {
      PlaceHasMagic(s, f, at);
    }
  }
}

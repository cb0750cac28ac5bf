/** The Ethernet frame in which FRONT broadcasts its ranges (FRONT/AebSensorNode.c), and how
    the HPVC reads them back (HPVC/hpvc_aeb.py). */
module SensorPacket {
  import opened Words
  import opened Float32
  import opened InternetChecksum
  import opened PacketBuffer
  import opened AebFusion
  import opened AebSafety
  import opened Rounding
  import DT = DefaultThresholds

  /** Ranges in tenths of a centimetre; the slot of an invalid ultrasonic sensor carries its
      diagnostic code instead. */
  datatype Frame = Frame(sequence: u32, timestampMs: u32, tof: u16, left: u16, right: u16, tofDiag: u16,
                         validMask: byte)

  const TX_BUFFER_SIZE: nat := 256
  const IP_AT: nat := 14
  const PAYLOAD_AT: nat := 42
  const PAYLOAD_SIZE: nat := 22
  const IP_TOTAL_LENGTH: u16 := 50
  const UDP_PORT: u16 := 5011
  const MIN_FRAME_SIZE: u16 := 60
  const DST_MAC: seq<byte> := [0xFF, 0xFF, 0xFF, 0xFF, 0xFF, 0xFF]
  const SRC_MAC: seq<byte> := [0x02, 0x37, 0x50, 0xAE, 0xB0, 0x01]
  const SRC_IP: seq<byte> := [192, 168, 10, 11]
  const DST_IP: seq<byte> := [192, 168, 10, 1]
  const MAGIC: seq<byte> := [0x41, 0x45, 0x42, 0x31]

  // ---------------------------------------------------------------- layout

  function EthernetHeader(): (h: seq<byte>)
    ensures |h| == IP_AT
  {
    DST_MAC + SRC_MAC + [0x08, 0x00]
  }

  /** With the checksum field still zero. */
  function IpHeader(f: Frame): (h: seq<byte>)
    ensures |h| == 20
  {
    [0x45, 0x00] + BE16(IP_TOTAL_LENGTH) + BE16(f.sequence % 0x1_0000) + BE16(0) + [64, 17] + [0, 0] + SRC_IP + DST_IP
  }

  function SealedIpHeader(f: Frame): (h: seq<byte>)
    ensures |h| == 20
  {
    WithWord(IpHeader(f), 10, Checksum(IpHeader(f)))
  }

  function UdpHeader(): (h: seq<byte>)
    ensures |h| == 8
  {
    BE16(UDP_PORT) + BE16(UDP_PORT) + BE16(30) + BE16(0)
  }

  function Payload(f: Frame): (p: seq<byte>)
    ensures |p| == PAYLOAD_SIZE
  {
    MAGIC + [1, f.validMask] + LE16(f.tofDiag) + LE32(f.sequence) + LE32(f.timestampMs) + LE16(f.tof) + LE16(f.left)
    + LE16(f.right)
  }

  function Image(f: Frame): (s: seq<byte>)
    ensures |s| == TX_BUFFER_SIZE
  {
    EthernetHeader() + SealedIpHeader(f) + UdpHeader() + Payload(f) + Zeros(TX_BUFFER_SIZE - PAYLOAD_AT - PAYLOAD_SIZE)
  }

  // ---------------------------------------------------------------- building it in place

  method PutEthernetHeader(tx: array<byte>)
    requires tx.Length == TX_BUFFER_SIZE && tx[..] == [] + Zeros(tx.Length)
    modifies tx
    ensures tx[..] == EthernetHeader() + Zeros(tx.Length - IP_AT)
  {
    Append(tx, [], 0, DST_MAC);
    assert [] + DST_MAC == DST_MAC;
    Append(tx, DST_MAC, 6, SRC_MAC);
    Append(tx, DST_MAC + SRC_MAC, 12, [0x08, 0x00]);
  }

  method PutIpFields(tx: array<byte>, ghost done: seq<byte>, f: Frame)
    requires tx.Length == TX_BUFFER_SIZE && |done| == IP_AT && tx[..] == done + Zeros(tx.Length - IP_AT)
    modifies tx
    ensures tx[..] == done + IpHeader(f) + Zeros(tx.Length - IP_AT - 20)
  {
    Append(tx, done, 14, [0x45, 0x00]);
    ghost var d2 := done + [0x45, 0x00];
    Append(tx, d2, 16, BE16(IP_TOTAL_LENGTH));
    ghost var d4 := d2 + BE16(IP_TOTAL_LENGTH);
    Append(tx, d4, 18, BE16(f.sequence % 0x1_0000));
    ghost var d6 := d4 + BE16(f.sequence % 0x1_0000);
    Append(tx, d6, 20, BE16(0));
    ghost var d8 := d6 + BE16(0);
    Append(tx, d8, 22, [64, 17]);
    ghost var d12 := d8 + [64, 17] + [0, 0];
    assert tx[..] == d12 + Zeros(tx.Length - 26);
    Append(tx, d12, 26, SRC_IP);
    Append(tx, d12 + SRC_IP, 30, DST_IP);
    assert d12 + SRC_IP + DST_IP == done + IpHeader(f);
  }

  method PutIpHeader(tx: array<byte>, ghost done: seq<byte>, f: Frame)
    requires tx.Length == TX_BUFFER_SIZE && |done| == IP_AT && tx[..] == done + Zeros(tx.Length - IP_AT)
    modifies tx
    ensures tx[..] == done + SealedIpHeader(f) + Zeros(tx.Length - IP_AT - 20)
  {
    PutIpFields(tx, done, f);
    ghost var ip := IpHeader(f);
    assert tx[IP_AT..IP_AT + 20] == ip;
    var checksum := Checksum16(tx[IP_AT..IP_AT + 20]);
    ghost var before := tx[..];
    Put(tx, IP_AT + 10, BE16(checksum));
    assert before == done + ip + Zeros(tx.Length - IP_AT - 20);
    assert tx[..] == done + WithWord(ip, 10, checksum) + Zeros(tx.Length - IP_AT - 20);
  }

  method PutUdpHeader(tx: array<byte>, ghost done: seq<byte>)
    requires tx.Length == TX_BUFFER_SIZE && |done| == 34 && tx[..] == done + Zeros(tx.Length - 34)
    modifies tx
    ensures tx[..] == done + UdpHeader() + Zeros(tx.Length - PAYLOAD_AT)
  {
    Append(tx, done, 34, BE16(UDP_PORT));
    ghost var d2 := done + BE16(UDP_PORT);
    Append(tx, d2, 36, BE16(UDP_PORT));
    ghost var d4 := d2 + BE16(UDP_PORT);
    Append(tx, d4, 38, BE16(30));
    Append(tx, d4 + BE16(30), 40, BE16(0));
    assert d4 + BE16(30) + BE16(0) == done + UdpHeader();
  }

  method PutPayload(tx: array<byte>, ghost done: seq<byte>, f: Frame)
    requires tx.Length == TX_BUFFER_SIZE && |done| == PAYLOAD_AT && tx[..] == done + Zeros(tx.Length - PAYLOAD_AT)
    modifies tx
    ensures tx[..] == done + Payload(f) + Zeros(tx.Length - PAYLOAD_AT - PAYLOAD_SIZE)
  {
    Append(tx, done, 42, MAGIC + [1, f.validMask]);
    ghost var d6 := done + (MAGIC + [1, f.validMask]);
    Append(tx, d6, 48, LE16(f.tofDiag));
    ghost var d8 := d6 + LE16(f.tofDiag);
    Append(tx, d8, 50, LE32(f.sequence));
    ghost var d12 := d8 + LE32(f.sequence);
    Append(tx, d12, 54, LE32(f.timestampMs));
    ghost var d16 := d12 + LE32(f.timestampMs);
    Append(tx, d16, 58, LE16(f.tof));
    ghost var d18 := d16 + LE16(f.tof);
    Append(tx, d18, 60, LE16(f.left));
    ghost var d20 := d18 + LE16(f.left);
    Append(tx, d20, 62, LE16(f.right));
    assert d20 + LE16(f.right) == done + Payload(f);
  }

  function Padded(frameLength: u16): u16
  {
    if frameLength < MIN_FRAME_SIZE then MIN_FRAME_SIZE else frameLength
  }

  /** Whatever the transmit buffer held. The IP checksum is taken while its field is zero. */
  method BuildPacket(tx: array<byte>, f: Frame) returns (length: u16)
    requires tx.Length == TX_BUFFER_SIZE
    modifies tx
    ensures tx[..] == Image(f) && length == 64
  {
    hide SealedIpHeader, Payload, UdpHeader, EthernetHeader, Zeros;
    Clear(tx);
    assert tx[..] == [] + Zeros(tx.Length);
    PutEthernetHeader(tx);
    PutIpHeader(tx, EthernetHeader(), f);
    PutUdpHeader(tx, EthernetHeader() + SealedIpHeader(f));
    PutPayload(tx, EthernetHeader() + SealedIpHeader(f) + UdpHeader(), f);
    length := Padded(IP_AT + IP_TOTAL_LENGTH);
  }

  lemma IpBytes(f: Frame)
    ensures var h := SealedIpHeader(f);
            && h[..4] == [0x45, 0, 0, 50] && U16Be(h, 4) == f.sequence % 0x1_0000 && h[6..10] == [0, 0, 64, 17]
            && h[12..20] == [192, 168, 10, 11, 192, 168, 10, 1]
  {
    hide Checksum;
    var g, h := IpHeader(f), SealedIpHeader(f);
    assert h[..10] == g[..10] && h[12..] == g[12..];
    assert g[..4] == [0x45, 0, 0, 50] && g[6..10] == [0, 0, 64, 17];
    assert h[12..20] == h[12..] && g[12..] == SRC_IP + DST_IP;
    assert h[..4] == h[..10][..4] && h[6..10] == h[..10][6..10];
    assert h[4] == g[4] && h[5] == g[5];
  }

  /** The frame on the wire, byte by byte: a broadcast from the board, UDP from 192.168.10.11 to
      192.168.10.1, port 5011 both ways, without UDP checksum, the payload behind it, and zeros. */
  lemma ImageBytes(f: Frame)
    ensures var s := Image(f);
            && s[..14] == [0xFF, 0xFF, 0xFF, 0xFF, 0xFF, 0xFF, 0x02, 0x37, 0x50, 0xAE, 0xB0, 0x01, 0x08, 0x00]
            && s[14..18] == [0x45, 0, 0, 50] && U16Be(s, 18) == f.sequence % 0x1_0000
            && s[20..24] == [0, 0, 64, 17] && s[26..34] == [192, 168, 10, 11, 192, 168, 10, 1]
            && U16Be(s, 34) == 5011 && U16Be(s, 36) == 5011 && U16Be(s, 38) == 30 && U16Be(s, 40) == 0
            && s[42..47] == [0x41, 0x45, 0x42, 0x31, 1] && s[47] == f.validMask && U16Le(s, 48) == f.tofDiag
            && U32Le(s, 50) == f.sequence && U32Le(s, 54) == f.timestampMs
            && U16Le(s, 58) == f.tof && U16Le(s, 60) == f.left && U16Le(s, 62) == f.right
            && forall i :: 64 <= i < |s| ==> s[i] == 0
  {
    hide SealedIpHeader;
    var s, h := Image(f), SealedIpHeader(f);
    IpBytes(f);
    assert s[14..34] == h;
    assert s[14..18] == h[..4] && s[20..24] == h[6..10] && s[26..34] == h[12..20];
    assert s[18] == h[4] && s[19] == h[5];
    PayloadFields(f);
    assert s[42..64] == Payload(f);
    assert s[50..54] == LE32(f.sequence) && s[54..58] == LE32(f.timestampMs);
    U32LeAt(s, 50, f.sequence);
    U32LeAt(s, 54, f.timestampMs);
  }

  /** The header on the wire passes the checksum. */
  lemma SentHeaderPasses(f: Frame)
    ensures Image(f)[IP_AT..IP_AT + 20] == SealedIpHeader(f) && Checksum(SealedIpHeader(f)) == 0
  {
    ChecksumVerifiesItself(IpHeader(f), 10);
  }

  // ---------------------------------------------------------------- reading it back

  datatype DecodeError = ShortPacket | BadVersion

  datatype Decoded = Ok(front: Front) | Err(error: DecodeError)

  function Metres(cmX10: u16): Float { Fin(DT.Metres(cmX10)) }

  function DecodeAeb1(data: seq<byte>, arrival: real): Decoded
    requires |data| >= 4 && data[..4] == MAGIC
  {
    if |data| < PAYLOAD_SIZE then Err(ShortPacket)
    else if data[4] != 1 then Err(BadVersion)
    else Ok(Front(U32Le(data, 8), U32Le(data, 12), arrival, data[5], U16Le(data, 6),
                  Metres(U16Le(data, 16)), Metres(U16Le(data, 18)), Metres(U16Le(data, 20))))
  }

  /** Two older layouts without a magic: ranges as float32, then single bytes. */
  function DecodeLegacy(data: seq<byte>, arrival: real): Decoded
  {
    if |data| < 15 then Err(ShortPacket)
    else
      var left, right, tof := Value(U32Le(data, 0)), Value(U32Le(data, 4)), Value(U32Le(data, 8));
      var at := if |data| >= 24 then 21 else 12;
      Ok(Front(data[at + 2], 0, arrival, data[at], data[at + 1], tof, left, right))
  }

  function Decode(data: seq<byte>, arrival: real): Decoded
  {
    if |data| >= 4 && data[..4] == MAGIC then DecodeAeb1(data, arrival) else DecodeLegacy(data, arrival)
  }

  function Received(f: Frame, arrival: real): Front
  {
    Front(f.sequence, f.timestampMs, arrival, f.validMask, f.tofDiag, Metres(f.tof), Metres(f.left), Metres(f.right))
  }

  lemma PayloadFields(f: Frame)
    ensures var p := Payload(f);
            && p[..4] == MAGIC && p[4] == 1 && p[5] == f.validMask && U16Le(p, 6) == f.tofDiag
            && p[8..12] == LE32(f.sequence) && p[12..16] == LE32(f.timestampMs)
            && U16Le(p, 16) == f.tof && U16Le(p, 18) == f.left && U16Le(p, 20) == f.right
  {
  }

  /** What FRONT puts into the UDP payload is what the HPVC gets out, in metres. */
  lemma SensorRoundTrip(f: Frame, arrival: real)
    ensures Image(f)[PAYLOAD_AT..PAYLOAD_AT + PAYLOAD_SIZE] == Payload(f)
    ensures Decode(Payload(f), arrival) == Ok(Received(f, arrival))
  {
    hide Payload;
    PayloadFields(f);
    U32LeAt(Payload(f), 8, f.sequence);
    U32LeAt(Payload(f), 12, f.timestampMs);
  }

  /** The older layouts: three ranges in metres, then mask, diagnostic and sequence number, which
      nine other bytes may precede. */
  lemma LegacyRoundTrip(left: u32, right: u32, tof: u32, between: seq<byte>, mask: byte, diag: byte, sequence: byte,
                        rest: seq<byte>, arrival: real)
    requires |between| == 9 || (between == [] && |rest| < 9)
    requires LE32(left) != [0x41, 0x45, 0x42, 0x31]
    ensures Decode(LE32(left) + LE32(right) + LE32(tof) + between + [mask, diag, sequence] + rest, arrival)
         == Ok(Front(sequence, 0, arrival, mask, diag, Value(tof), Value(left), Value(right)))
  {
    hide Value, LE32, U32Le;
    var data := LE32(left) + LE32(right) + LE32(tof) + between + [mask, diag, sequence] + rest;
    assert data[..4] == data[0..4] == LE32(left) && data[4..8] == LE32(right) && data[8..12] == LE32(tof);
    U32LeAt(data, 0, left);
    U32LeAt(data, 4, right);
    U32LeAt(data, 8, tof);
  }

  /** What is refused: with the magic fewer than 22 bytes and other versions than 1, without it fewer
      than 15 bytes. */
  lemma RefusedPayloads(data: seq<byte>, arrival: real)
    ensures var magic := |data| >= 4 && data[..4] == [0x41, 0x45, 0x42, 0x31];
            && (Decode(data, arrival) == Err(ShortPacket) <==> |data| < if magic then 22 else 15)
            && (Decode(data, arrival) == Err(BadVersion) <==> magic && |data| >= 22 && data[4] != 1)
  {
    hide Value, U32Le;
  }

  // ---------------------------------------------------------------- from the range to the brake

  predicate Has(mask: byte, bit: nat)
    requires bit > 0
  {
    mask / bit % 2 == 1
  }

  predicate Near(mask: byte, bit: nat, range: u16, limit: nat)
    requires bit > 0
  {
    Has(mask, bit) && 0 < range <= limit
  }

  lemma MetresPositive(cmX10: u16)
    ensures FinitePositive(Metres(cmX10)) <==> cmX10 > 0
  {
    if cmX10 > 0 { PositiveIsPositive(cmX10 as real / 1000.0, 53); }
  }

  /** The limits of the full brake as shipped, in firmware units. */
  lemma FullLimits(cmX10: u16)
    ensures Within(ThresholdsFor(DEFAULT, true, false), FULL_BRAKE, DT.Metres(cmX10)) <==> cmX10 <= 180
    ensures Within(ThresholdsFor(DEFAULT, true, true), FULL_BRAKE, DT.Metres(cmX10)) <==> cmX10 <= 224
    ensures Within(DEFAULT.side, FULL_BRAKE, DT.Metres(cmX10)) <==> cmX10 <= 100
  {
    hide Round, DT.Metres;
    DT.LimitInMillimetres(cmX10, 180);
    DT.LimitInMillimetres(cmX10, 100);
    DT.PersonLimit(cmX10);
    RoundIdempotent(0.18, 53);
    assert Double(0.18) * 1.0 == Double(0.18);
  }

  /** End to end in firmware units, for the configuration as shipped and in the controller's
      double arithmetic: a frame not older than 0.5 s brakes fully exactly when a valid side range
      is at most 10 cm, or the valid range ahead at most 18 cm (with a person in path below
      22.5 cm), or an earlier stop is still held. A slot that carries a diagnostic code instead of
      a range has its bit clear and never brakes. An older frame adds nothing: then there is a
      full brake exactly when a stop is held and a fresh MIDDLE reports nobody in path. */
  lemma FullBrakeInFirmwareUnits(m: Memory, f: Frame, arrival: real, middle: Option<Middle>, now: real)
    ensures var person := PersonInPath(DEFAULT, middle, now);
            var brake := Decide(DEFAULT, m, Some(Received(f, arrival)), middle, now).1.brake;
            if Double(now - arrival) <= 0.5 then
              brake == 100
              <==> || Near(f.validMask, 1, f.left, 100) || Near(f.validMask, 2, f.right, 100)
                   || Near(f.validMask, 4, f.tof, if person then 224 else 180)
                   || now < m.holdUntil
            else
              brake == 100
              <==> now < m.holdUntil && middle.Some? && Double(now - middle.value.arrival) <= 0.5 && !person
  {
    hide PersonInPath, PersonConfidence, SensedThreat, FrameLevel, ThresholdsFor, Within, Round, Metres, ClampUnit;
    var g, person := Received(f, arrival), PersonInPath(DEFAULT, middle, now);
    if Double(now - arrival) <= 0.5 {
      var c := PersonConfidence(DEFAULT, middle, now);
      ThreatIsFrameLevel(DEFAULT, g, person, c);
      FrameLevelIsNearestThreshold(DEFAULT, g, person, FULL_BRAKE);
      RangesInFirmwareUnits(f, arrival, person);
    } else {
      StaleFrontNeverFullBrakes(DEFAULT, m, Some(g), middle, now);
    }
  }

  // ---------------------------------------------------------------- every level in firmware units

  /** The limits of a sensor: full brake, partial brake, warning. */
  datatype Limits = Limits(full: nat, partial: nat, fcw: nat)

  const SIDE_LIMITS: Limits := Limits(100, 180, 300)

  function AheadLimits(person: bool): Limits { if person then Limits(224, 375, 625) else Limits(180, 300, 500) }

  function LimitFor(l: Limits, level: Level): nat
  {
    if level == 3 then l.full else if level == 2 then l.partial else l.fcw
  }

  lemma LowerLimits(cmX10: u16)
    ensures DT.Metres(cmX10) <= ThresholdsFor(DEFAULT, true, false).partial <==> cmX10 <= 300
    ensures DT.Metres(cmX10) <= ThresholdsFor(DEFAULT, true, true).partial <==> cmX10 <= 375
    ensures DT.Metres(cmX10) <= ThresholdsFor(DEFAULT, true, false).fcw <==> cmX10 <= 500
    ensures DT.Metres(cmX10) <= ThresholdsFor(DEFAULT, true, true).fcw <==> cmX10 <= 625
    ensures DT.Metres(cmX10) <= DEFAULT.side.partial <==> cmX10 <= 180
    ensures DT.Metres(cmX10) <= DEFAULT.side.fcw <==> cmX10 <= 300
  {
    hide Round, DT.Metres;
    DT.LimitInMillimetres(cmX10, 300);
    DT.PartialLimit(cmX10);
    DT.LimitInMillimetres(cmX10, 500);
    DT.LimitInMillimetres(cmX10, 625);
    DT.LimitInMillimetres(cmX10, 180);
    RoundIdempotent(0.3, 53);
    assert Double(0.3) * 1.0 == Double(0.3);
    assert 0.5 * 1.0 == 500.0 / 1000.0 && 0.5 * 1.25 == 625.0 / 1000.0;
  }

  lemma WithinLimits(cmX10: u16, level: Level, person: bool)
    requires 1 <= level <= 3
    ensures Within(ThresholdsFor(DEFAULT, true, person), level, DT.Metres(cmX10))
       <==> cmX10 <= LimitFor(AheadLimits(person), level)
    ensures Within(DEFAULT.side, level, DT.Metres(cmX10)) <==> cmX10 <= LimitFor(SIDE_LIMITS, level)
  {
    hide ThresholdsFor, DT.Metres;
    FullLimits(cmX10);
    LowerLimits(cmX10);
    WithinMeans(ThresholdsFor(DEFAULT, true, person), level, DT.Metres(cmX10));
    WithinMeans(DEFAULT.side, level, DT.Metres(cmX10));
    WithinMeans(ThresholdsFor(DEFAULT, true, person), 3, DT.Metres(cmX10));
    WithinMeans(DEFAULT.side, 3, DT.Metres(cmX10));
  }

  lemma WithinMeans(t: Thresholds, level: Level, distance: real)
    requires 1 <= level <= 3
    ensures Within(t, level, distance)
       <==> distance <= t.full || (level <= 2 && distance <= t.partial) || (level == 1 && distance <= t.fcw)
  {
  }

  /** Some valid range of the frame is within its limit for a level. */
  predicate Threatens(f: Frame, person: bool, level: Level)
  {
    || Near(f.validMask, 1, f.left, LimitFor(SIDE_LIMITS, level))
    || Near(f.validMask, 2, f.right, LimitFor(SIDE_LIMITS, level))
    || Near(f.validMask, 4, f.tof, LimitFor(AheadLimits(person), level))
  }

  lemma LevelInFirmwareUnits(f: Frame, arrival: real, person: bool, level: Level)
    requires 1 <= level <= 3
    ensures FrameLevel(DEFAULT, Received(f, arrival), person) >= level <==> Threatens(f, person, level)
  {
    hide ThresholdsFor, Within, DT.Metres, FrameLevel, LimitFor, AheadLimits;
    var g := Received(f, arrival);
    FrameLevelIsNearestThreshold(DEFAULT, g, person, level);
    MetresPositive(f.tof);
    MetresPositive(f.left);
    MetresPositive(f.right);
    WithinLimits(f.tof, level, person);
    WithinLimits(f.left, level, person);
    WithinLimits(f.right, level, person);
  }

  /** Every state of the decision in firmware units, while no stop is held: the highest level that a
      valid range reaches, braking fully, with 65 percent or not at all, and a warning at least
      when a person is in path. */
  lemma DecisionInFirmwareUnits(m: Memory, f: Frame, arrival: real, middle: Option<Middle>, now: real)
    requires Double(now - arrival) <= 0.5 && now >= m.holdUntil
    ensures var person := PersonInPath(DEFAULT, middle, now);
            var d := Decide(DEFAULT, m, Some(Received(f, arrival)), middle, now).1;
            && d.state == (if Threatens(f, person, 3) then 3 else if Threatens(f, person, 2) then 2
                           else if person || Threatens(f, person, 1) then 1 else 0)
            && d.brake == if d.state == 3 then 100 else if d.state == 2 then 65 else 0
  {
    hide PersonInPath, PersonConfidence, SensedThreat, FrameLevel, Threatens, Round, Metres, ClampUnit;
    var g, person := Received(f, arrival), PersonInPath(DEFAULT, middle, now);
    var c := PersonConfidence(DEFAULT, middle, now);
    ThreatIsFrameLevel(DEFAULT, g, person, c);
    LevelInFirmwareUnits(f, arrival, person, 3);
    LevelInFirmwareUnits(f, arrival, person, 2);
    LevelInFirmwareUnits(f, arrival, person, 1);
  }

  lemma RangesInFirmwareUnits(f: Frame, arrival: real, person: bool)
    ensures var g := Received(f, arrival);
            && (TofValid(g) && Within(ThresholdsFor(DEFAULT, true, person), FULL_BRAKE, g.tof.v)
                <==> Near(f.validMask, 4, f.tof, if person then 224 else 180))
            && (LeftValid(g) && Within(DEFAULT.side, FULL_BRAKE, g.left.v) <==> Near(f.validMask, 1, f.left, 100))
            && (RightValid(g) && Within(DEFAULT.side, FULL_BRAKE, g.right.v) <==> Near(f.validMask, 2, f.right, 100))
  {
    hide ThresholdsFor, Within, DT.Metres;
    MetresPositive(f.tof);
    MetresPositive(f.left);
    MetresPositive(f.right);
    FullLimits(f.tof);
    FullLimits(f.left);
    FullLimits(f.right);
  }
}

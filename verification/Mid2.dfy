/** The perception packet MIDDLE sends to the HPVC (MIDDLE/protocol.py): version 2 with persons,
    and the older version 1 that is still read. Floats are carried as float32 patterns. */
module Mid2 {
  import opened Words
  import opened Float32
  import opened Crc32

  datatype Lane = Lane(curvature: u32, derivative: u32, heading: u32, offset: u32, strength: u32)

  datatype Person = Person(valid: u32, confidence: u32, centerX: u32, centerY: u32, width: u32, height: u32)

  const NOBODY: Person := Person(ZERO, ZERO, ZERO, ZERO, ZERO, ZERO)

  datatype Packet = Packet(sequence: int, frameTs: int, ultrasonicTs: int, flags: int, left: Lane, right: Lane,
                           sideLeft: u32, sideRight: u32, personCount: int, persons: seq<Person>)

  datatype Error = BadLength | CrcMismatch | BadMagic | BadVersion | BadSize | BadCount | CountIsNan | CountIsInfinite

  datatype Result = Ok(packet: Packet) | Err(error: Error)

  const MAGIC: seq<byte> := [0x4D, 0x49, 0x44, 0x32]
  const LEGACY_VERSION: byte := 1
  const VERSION: byte := 2
  const MAX_PERSONS: nat := 3
  const HEADER_SIZE: nat := 28
  const BASE_FLOATS: nat := 12
  const PERSON_FLOATS: nat := 6
  const FLOATS: nat := 31
  const PACKET_SIZE: nat := 156
  const LEGACY_PACKET_SIZE: nat := 80

  // ---------------------------------------------------------------- sanitising persons

  /** `_finite_clamp` to the range from 0 to 1. */
  function FiniteClamp(pattern: u32): u32
  {
    match Value(pattern)
    case Fin(v) => if v < 1.0 then if v > 0.0 then pattern else ZERO else ONE
    case _ => ZERO
  }

  predicate IsValid(p: Person) { AtLeast(Value(p.valid), 0.5) }

  function Sanitise(p: Person): Person
  {
    Person(if IsValid(p) then ONE else ZERO, FiniteClamp(p.confidence), FiniteClamp(p.centerX), FiniteClamp(p.centerY),
           FiniteClamp(p.width), FiniteClamp(p.height))
  }

  predicate UnitRange(pattern: u32) { Value(pattern).Fin? && 0.0 <= Value(pattern).v <= 1.0 }

  lemma FiniteClampInRange(pattern: u32)
    ensures UnitRange(FiniteClamp(pattern))
    ensures FiniteClamp(FiniteClamp(pattern)) == FiniteClamp(pattern)
    ensures UnitRange(pattern) && Value(pattern).v > 0.0 ==> Value(FiniteClamp(pattern)) == Value(pattern)
    ensures !Value(pattern).Fin? || !Greater(Value(pattern), 0.0) ==> FiniteClamp(pattern) == 0
    ensures Value(pattern).Fin? && AtLeast(Value(pattern), 1.0) ==> FiniteClamp(pattern) == 0x3F80_0000
  {
    ValueOfZero(ZERO);
    ValueOfOne(ONE, 127);
  }

  lemma SanitiseIdempotent(p: Person)
    ensures Sanitise(Sanitise(p)) == Sanitise(p) && IsValid(Sanitise(p)) == IsValid(p)
    ensures Sanitise(NOBODY) == NOBODY && !IsValid(NOBODY)
  {
    ValueOfZero(ZERO);
    ValueOfOne(ONE, 127);
    FiniteClampInRange(p.confidence);
    FiniteClampInRange(p.centerX);
    FiniteClampInRange(p.centerY);
    FiniteClampInRange(p.width);
    FiniteClampInRange(p.height);
  }

  // ---------------------------------------------------------------- packing

  function Sent(persons: seq<Person>): seq<Person>
  {
    if |persons| > MAX_PERSONS then persons[..MAX_PERSONS] else persons
  }

  function Detected(persons: seq<Person>): nat
  {
    if persons == [] then 0 else (if IsValid(persons[0]) then 1 else 0) + Detected(persons[1..])
  }

  function ClampCount(n: int): nat { if n < 0 then 0 else if n > MAX_PERSONS then MAX_PERSONS else n }

  /** The count sent: the packet's own, or the number of valid persons when that is zero. */
  function Count(p: Packet): (n: nat)
    ensures n <= MAX_PERSONS
  {
    ClampCount(if p.personCount != 0 then p.personCount else Detected(Sent(p.persons)))
  }

  function CountPattern(n: nat): u32
  {
    if n == 0 then ZERO else if n == 1 then ONE else if n == 2 then TWO else THREE
  }

  function PersonSlot(persons: seq<Person>, k: nat): Person
  {
    if k < |persons| && k < MAX_PERSONS then Sanitise(persons[k]) else NOBODY
  }

  function Slots(persons: seq<Person>): seq<Person>
  {
    [PersonSlot(persons, 0), PersonSlot(persons, 1), PersonSlot(persons, 2)]
  }

  function LaneValues(l: Lane): (v: seq<u32>)
    ensures |v| == 5
  {
    [l.curvature, l.derivative, l.heading, l.offset, l.strength]
  }

  function PersonValues(p: Person): (v: seq<u32>)
    ensures |v| == PERSON_FLOATS
  {
    [p.valid, p.confidence, p.centerX, p.centerY, p.width, p.height]
  }

  function PayloadValues(p: Packet): (v: seq<u32>)
    ensures |v| == FLOATS
  {
    LaneValues(p.left) + LaneValues(p.right) + [p.sideLeft, p.sideRight] + [CountPattern(Count(p))]
    + PersonValues(PersonSlot(p.persons, 0)) + PersonValues(PersonSlot(p.persons, 1))
    + PersonValues(PersonSlot(p.persons, 2))
  }

  function Floats(v: seq<u32>): (s: seq<byte>)
    ensures |s| == 4 * |v|
  {
    if v == [] then [] else LE32(v[0]) + Floats(v[1..])
  }

  function Wrap64(x: int): u64 { x % TWO64 }

  function Header(version: byte, flags: int, count: u16, sequence: int, frameTs: int, ultrasonicTs: int): (h: seq<byte>)
    ensures |h| == HEADER_SIZE
  {
    MAGIC + [version, flags % 0x100] + LE16(count) + LE32(Wrap32(sequence)) + LE64(Wrap64(frameTs))
    + LE64(Wrap64(ultrasonicTs))
  }

  function PackBody(p: Packet): (b: seq<byte>)
    ensures |b| == PACKET_SIZE - 4
  {
    Header(VERSION, p.flags, FLOATS, p.sequence, p.frameTs, p.ultrasonicTs) + Floats(PayloadValues(p))
  }

  function Pack(p: Packet): (data: seq<byte>)
    ensures |data| == PACKET_SIZE
  {
    Seal(PackBody(p))
  }

  // ---------------------------------------------------------------- unpacking

  function Patterns(s: seq<byte>): (v: seq<u32>)
    requires |s| % 4 == 0
    ensures 4 * |v| == |s|
  {
    if s == [] then [] else [U32Le(s, 0)] + Patterns(s[4..])
  }

  function LaneAt(v: seq<u32>, at: nat): Lane
    requires at + 5 <= |v|
  {
    Lane(v[at], v[at + 1], v[at + 2], v[at + 3], v[at + 4])
  }

  function PersonAt(v: seq<u32>, at: nat): Person
    requires at + PERSON_FLOATS <= |v|
  {
    Person(v[at], v[at + 1], v[at + 2], v[at + 3], v[at + 4], v[at + 5])
  }

  /** Python's `int` of a finite float. */
  function Truncate(v: real): int { if v >= 0.0 then v.Floor else -(-v).Floor }

  function Build(data: seq<byte>, v: seq<u32>, personCount: int, persons: seq<Person>): Packet
    requires |data| >= HEADER_SIZE && |v| >= BASE_FLOATS
  {
    Packet(U32Le(data, 8), U64Le(data, 12), U64Le(data, 20), data[5], LaneAt(v, 0), LaneAt(v, 5), v[10], v[11],
           personCount, persons)
  }

  function UnpackValues(data: seq<byte>, v: seq<u32>): Result
    requires |data| >= HEADER_SIZE && |v| == FLOATS
  {
    match Value(v[BASE_FLOATS])
    case NaN => Err(CountIsNan)
    case Inf(_) => Err(CountIsInfinite)
    case Fin(n) => Ok(Build(data, v, ClampCount(Truncate(n)), [PersonAt(v, 13), PersonAt(v, 19), PersonAt(v, 25)]))
  }

  function Unpack(data: seq<byte>): Result
  {
    if |data| != PACKET_SIZE && |data| != LEGACY_PACKET_SIZE then Err(BadLength)
    else if !Passes(data) then Err(CrcMismatch)
    else if data[..4] != MAGIC then Err(BadMagic)
    else if data[4] != VERSION && data[4] != LEGACY_VERSION then Err(BadVersion)
    else if |data| != (if data[4] == VERSION then PACKET_SIZE else LEGACY_PACKET_SIZE) then Err(BadSize)
    else if U16Le(data, 6) != (if data[4] == VERSION then FLOATS else BASE_FLOATS) then Err(BadCount)
    else
      var v := Patterns(data[HEADER_SIZE..|data| - 4]);
      if data[4] == VERSION then UnpackValues(data, v) else Ok(Build(data, v, 0, []))
  }

  // ---------------------------------------------------------------- round trip

  lemma {:induction false} PatternsOfFloats(v: seq<u32>)
    ensures Patterns(Floats(v)) == v
  {
    if v == [] {
    } else {
      var s := Floats(v);
      assert s[4..] == Floats(v[1..]);
      LE32RoundTrip(v[0]);
      PatternsOfFloats(v[1..]);
    }
  }

  lemma HeaderFields(version: byte, flags: int, count: u16, sequence: int, frameTs: int, ultrasonicTs: int)
    ensures var h := Header(version, flags, count, sequence, frameTs, ultrasonicTs);
            && h[..4] == MAGIC && h[4] == version && h[5] == flags % 0x100 && U16Le(h, 6) == count
            && h[8..12] == LE32(Wrap32(sequence)) && h[12..20] == LE64(Wrap64(frameTs))
            && h[20..28] == LE64(Wrap64(ultrasonicTs))
  {
  }

  lemma CountRoundTrip(n: nat)
    requires n <= MAX_PERSONS
    ensures Value(CountPattern(n)) == Fin(n as real) && ClampCount(Truncate(n as real)) == n
  {
    hide Value;
    ValueOfZero(ZERO);
    ValueOfOne(ONE, 127);
    ValueOfTwo(TWO, 128);
    ValueOfThree(THREE, 128, 0x40_0000);
  }

  /** What comes back of a packed packet. */
  function Returned(p: Packet): Packet
  {
    Packet(Wrap32(p.sequence), Wrap64(p.frameTs), Wrap64(p.ultrasonicTs), p.flags % 0x100, p.left, p.right, p.sideLeft,
           p.sideRight, Count(p), Slots(p.persons))
  }

  /** Unpacking a packed packet always succeeds: the header fields survive modulo their widths,
      the lanes and side ranges exactly, the persons sanitised and padded to three. */
  lemma UnpackOfPack(p: Packet)
    ensures Unpack(Pack(p)) == Ok(Returned(p))
  {
    var data, v := Pack(p), PayloadValues(p);
    var h := Header(VERSION, p.flags, FLOATS, p.sequence, p.frameTs, p.ultrasonicTs);
    SealedParts(h, Floats(v));
    PatternsOfFloats(v);
    CountRoundTrip(Count(p));
    HeaderOf(data, VERSION, p.flags, FLOATS, p.sequence, p.frameTs, p.ultrasonicTs);
    UnpackPayload(data, p);
  }

  lemma HeaderOf(data: seq<byte>, version: byte, flags: int, count: u16, sequence: int, frameTs: int, ultrasonicTs: int)
    requires |data| >= HEADER_SIZE
    requires data[..HEADER_SIZE] == Header(version, flags, count, sequence, frameTs, ultrasonicTs)
    ensures data[..4] == MAGIC && data[4] == version && data[5] == flags % 0x100 && U16Le(data, 6) == count
    ensures U32Le(data, 8) == Wrap32(sequence) && U64Le(data, 12) == Wrap64(frameTs)
    ensures U64Le(data, 20) == Wrap64(ultrasonicTs)
  {
    hide Header, Wrap32, Wrap64;
    var h := data[..HEADER_SIZE];
    HeaderFields(version, flags, count, sequence, frameTs, ultrasonicTs);
    assert data[..4] == h[..4];
    assert data[4] == h[4] && data[5] == h[5] && data[6] == h[6] && data[7] == h[7];
    assert data[8..12] == h[8..12] && data[12..20] == h[12..20] && data[20..28] == h[20..28];
    U32LeAt(data, 8, Wrap32(sequence));
    U64LeAt(data, 12, Wrap64(frameTs));
    U64LeAt(data, 20, Wrap64(ultrasonicTs));
  }

  lemma PackedValue(p: Packet, k: nat)
    requires k < FLOATS
    ensures U32Le(Pack(p), 28 + 4 * k) == PayloadValues(p)[k]
  {
    hide PayloadValues, Header, Passes, Seal, Patterns;
    var data := Pack(p);
    SealedParts(Header(VERSION, p.flags, FLOATS, p.sequence, p.frameTs, p.ultrasonicTs), Floats(PayloadValues(p)));
    PatternsOfFloats(PayloadValues(p));
    PatternAt(Floats(PayloadValues(p)), k);
    FloatsAt(data, PayloadValues(p), k);
  }

  lemma FloatsAt(data: seq<byte>, v: seq<u32>, k: nat)
    requires k < |v| == FLOATS && |data| == PACKET_SIZE && data[HEADER_SIZE..PACKET_SIZE - 4] == Floats(v)
    ensures U32Le(Floats(v), 4 * k) == U32Le(data, 28 + 4 * k)
  {
    hide Floats;
    var f := data[HEADER_SIZE..PACKET_SIZE - 4];
    assert f[4 * k] == data[28 + 4 * k] && f[4 * k + 1] == data[28 + 4 * k + 1];
    assert f[4 * k + 2] == data[28 + 4 * k + 2] && f[4 * k + 3] == data[28 + 4 * k + 3];
  }

  /** A packed packet byte by byte: "MID2", version 2, 31 floats, the two lanes, the side ranges, the
      person count, and three persons of six floats each. */
  lemma PackedBytes(p: Packet, k: nat)
    requires k < 3
    ensures var d := Pack(p);
            && d[..4] == [0x4D, 0x49, 0x44, 0x32] && d[4] == 2 && d[5] == p.flags % 0x100 && U16Le(d, 6) == 31
            && U32Le(d, 8) == Wrap32(p.sequence) && U64Le(d, 12) == Wrap64(p.frameTs)
            && U64Le(d, 20) == Wrap64(p.ultrasonicTs)
            && Lane(U32Le(d, 28), U32Le(d, 32), U32Le(d, 36), U32Le(d, 40), U32Le(d, 44)) == p.left
            && Lane(U32Le(d, 48), U32Le(d, 52), U32Le(d, 56), U32Le(d, 60), U32Le(d, 64)) == p.right
            && U32Le(d, 68) == p.sideLeft && U32Le(d, 72) == p.sideRight && U32Le(d, 76) == CountPattern(Count(p))
            && Person(U32Le(d, 80 + 24 * k), U32Le(d, 84 + 24 * k), U32Le(d, 88 + 24 * k), U32Le(d, 92 + 24 * k),
                      U32Le(d, 96 + 24 * k), U32Le(d, 100 + 24 * k)) == PersonSlot(p.persons, k)
  {
    hide Pack, PersonSlot, Count, U32Le, U16Le, U64Le;
    PackedHeader(p);
    forall i | 0 <= i < FLOATS ensures U32Le(Pack(p), 28 + 4 * i) == PayloadValues(p)[i] {
      PackedValue(p, i);
    }
    PackedLanes(p);
    PackedPerson(p, k);
  }

  lemma PackedHeader(p: Packet)
    ensures var d := Pack(p);
            && d[..4] == [0x4D, 0x49, 0x44, 0x32] && d[4] == 2 && d[5] == p.flags % 0x100 && U16Le(d, 6) == 31
            && U32Le(d, 8) == Wrap32(p.sequence) && U64Le(d, 12) == Wrap64(p.frameTs)
            && U64Le(d, 20) == Wrap64(p.ultrasonicTs)
  {
    hide Header, Floats, PayloadValues, Seal;
    SealedParts(Header(VERSION, p.flags, FLOATS, p.sequence, p.frameTs, p.ultrasonicTs), Floats(PayloadValues(p)));
    HeaderOf(Pack(p), VERSION, p.flags, FLOATS, p.sequence, p.frameTs, p.ultrasonicTs);
  }

  lemma PackedLanes(p: Packet)
    requires forall i :: 0 <= i < FLOATS ==> U32Le(Pack(p), 28 + 4 * i) == PayloadValues(p)[i]
    ensures var d := Pack(p);
            && Lane(U32Le(d, 28), U32Le(d, 32), U32Le(d, 36), U32Le(d, 40), U32Le(d, 44)) == p.left
            && Lane(U32Le(d, 48), U32Le(d, 52), U32Le(d, 56), U32Le(d, 60), U32Le(d, 64)) == p.right
            && U32Le(d, 68) == p.sideLeft && U32Le(d, 72) == p.sideRight && U32Le(d, 76) == CountPattern(Count(p))
  {
    hide Pack, PersonSlot, Count, U32Le;
    var d, v := Pack(p), PayloadValues(p);
    assert U32Le(d, 28 + 4 * 0) == v[0] && U32Le(d, 28 + 4 * 1) == v[1] && U32Le(d, 28 + 4 * 2) == v[2];
    assert U32Le(d, 28 + 4 * 3) == v[3] && U32Le(d, 28 + 4 * 4) == v[4] && U32Le(d, 28 + 4 * 5) == v[5];
    assert U32Le(d, 28 + 4 * 6) == v[6] && U32Le(d, 28 + 4 * 7) == v[7] && U32Le(d, 28 + 4 * 8) == v[8];
    assert U32Le(d, 28 + 4 * 9) == v[9] && U32Le(d, 28 + 4 * 10) == v[10] && U32Le(d, 28 + 4 * 11) == v[11];
    assert U32Le(d, 28 + 4 * 12) == v[12];
  }

  lemma PackedPerson(p: Packet, k: nat)
    requires k < 3 && forall i :: 0 <= i < FLOATS ==> U32Le(Pack(p), 28 + 4 * i) == PayloadValues(p)[i]
    ensures var d := Pack(p);
            Person(U32Le(d, 80 + 24 * k), U32Le(d, 84 + 24 * k), U32Le(d, 88 + 24 * k), U32Le(d, 92 + 24 * k),
                   U32Le(d, 96 + 24 * k), U32Le(d, 100 + 24 * k)) == PersonSlot(p.persons, k)
  {
    hide Pack, PersonSlot, Count, U32Le;
    var d, v, i := Pack(p), PayloadValues(p), 13 + 6 * k;
    assert v[i..i + 6] == PersonValues(PersonSlot(p.persons, k));
    assert U32Le(d, 28 + 4 * i) == v[i] && U32Le(d, 28 + 4 * (i + 1)) == v[i + 1];
    assert U32Le(d, 28 + 4 * (i + 2)) == v[i + 2] && U32Le(d, 28 + 4 * (i + 3)) == v[i + 3];
    assert U32Le(d, 28 + 4 * (i + 4)) == v[i + 4] && U32Le(d, 28 + 4 * (i + 5)) == v[i + 5];
  }

  lemma UnpackPayload(data: seq<byte>, p: Packet)
    requires |data| >= HEADER_SIZE
    requires Value(CountPattern(Count(p))) == Fin(Count(p) as real)
    requires ClampCount(Truncate(Count(p) as real)) == Count(p)
    ensures UnpackValues(data, PayloadValues(p))
         == Ok(Packet(U32Le(data, 8), U64Le(data, 12), U64Le(data, 20), data[5], p.left, p.right, p.sideLeft,
                      p.sideRight, Count(p), Slots(p.persons)))
  {
    hide Value, Truncate, ClampCount, Count, PersonSlot, CountPattern, U32Le, U64Le;
  }

  lemma SlotsAgain(persons: seq<Person>)
    ensures Slots(Slots(persons)) == Slots(persons)
  {
    forall k | 0 <= k < 3 ensures Sanitise(PersonSlot(persons, k)) == PersonSlot(persons, k) {
      SanitiseIdempotent(if k < |persons| then persons[k] else NOBODY);
    }
  }

  lemma DetectedThree(a: Person, b: Person, c: Person)
    ensures Detected([a, b, c])
         == (if IsValid(a) then 1 else 0) + (if IsValid(b) then 1 else 0) + (if IsValid(c) then 1 else 0)
  {
    assert [a, b, c][1..] == [b, c] && [b, c][1..] == [c] && [c][1..] == [];
    assert Detected([c]) == if IsValid(c) then 1 else 0;
  }

  function Bump(persons: seq<Person>, k: nat): nat { if k < |persons| && IsValid(persons[k]) then 1 else 0 }

  lemma DetectedBySlot(persons: seq<Person>)
    ensures Detected(Sent(persons)) == Bump(persons, 0) + Bump(persons, 1) + Bump(persons, 2)
  {
    var s := Sent(persons);
    if |s| == 3 {
      assert s == [s[0], s[1], s[2]];
      DetectedThree(s[0], s[1], s[2]);
    } else if |s| == 2 {
      assert s[1..] == [s[1]] && [s[1]][1..] == [];
      assert Detected([s[1]]) == if IsValid(s[1]) then 1 else 0;
    } else if |s| == 1 {
      assert s[1..] == [];
    }
  }

  lemma DetectedSurvives(persons: seq<Person>)
    ensures Detected(Sent(Slots(persons))) == Detected(Sent(persons))
  {
    DetectedBySlot(persons);
    DetectedBySlot(Slots(persons));
    forall k | 0 <= k < 3 ensures Bump(Slots(persons), k) == Bump(persons, k) {
      SanitiseIdempotent(if k < |persons| then persons[k] else NOBODY);
    }
  }

  /** The inputs on which the count survives: a negative count is sent as zero, which the
      other side then replaces by the number of valid persons. */
  predicate Canonical(p: Packet) { p.personCount >= 0 || Detected(Sent(p.persons)) == 0 }

  lemma CountSurvives(p: Packet)
    ensures Count(Returned(p)) == Count(p) <==> Canonical(p)
  {
    DetectedSurvives(p.persons);
    DetectedBySlot(p.persons);
  }

  lemma PayloadCount(p: Packet)
    ensures PayloadValues(p)[BASE_FLOATS] == CountPattern(Count(p))
  {
  }

  /** Packets with the same lanes, side ranges and person slots differ at most in the count. */
  lemma SamePayload(p: Packet, q: Packet)
    requires p.left == q.left && p.right == q.right && p.sideLeft == q.sideLeft && p.sideRight == q.sideRight
    requires forall k :: 0 <= k < 3 ==> PersonSlot(p.persons, k) == PersonSlot(q.persons, k)
    ensures PayloadValues(p) == PayloadValues(q) <==> Count(p) == Count(q)
  {
    hide PersonSlot, Count, PersonValues, LaneValues;
    PayloadCount(p);
    PayloadCount(q);
  }

  /** The payload survives the trip exactly on canonical packets. */
  lemma PayloadRoundTrip(p: Packet)
    ensures Unpack(Pack(p)).Ok?
    ensures PayloadValues(Unpack(Pack(p)).packet) == PayloadValues(p) <==> Canonical(p)
  {
    hide Unpack, Pack, PayloadValues, Count, Canonical, Sanitise, Detected, Wrap32, Wrap64;
    UnpackOfPack(p);
    CountSurvives(p);
    SlotsAgain(p.persons);
    var q := Returned(p);
    forall k | 0 <= k < 3 ensures PersonSlot(p.persons, k) == PersonSlot(q.persons, k) {
      assert Slots(q.persons)[k] == PersonSlot(q.persons, k) && Slots(p.persons)[k] == PersonSlot(p.persons, k);
    }
    SamePayload(p, q);
  }

  lemma WrapTwice(x: int)
    ensures Wrap32(Wrap32(x)) == Wrap32(x) && Wrap64(Wrap64(x)) == Wrap64(x) && x % 0x100 % 0x100 == x % 0x100
  {
  }

  /** And so does the whole packet: packing what was unpacked is the identity on the packed
      form of exactly the canonical packets. */
  lemma PackOfUnpack(p: Packet)
    ensures Unpack(Pack(p)).Ok?
    ensures Pack(Unpack(Pack(p)).packet) == Pack(p) <==> Canonical(p)
  {
    UnpackOfPack(p);
    PayloadRoundTrip(p);
    var q := Returned(p);
    WrapTwice(p.sequence);
    WrapTwice(p.frameTs);
    WrapTwice(p.ultrasonicTs);
    WrapTwice(p.flags);
    if Pack(q) == Pack(p) {
      assert Floats(PayloadValues(q)) == Pack(q)[HEADER_SIZE..PACKET_SIZE - 4];
      assert Floats(PayloadValues(p)) == Pack(p)[HEADER_SIZE..PACKET_SIZE - 4];
      PatternsOfFloats(PayloadValues(q));
      PatternsOfFloats(PayloadValues(p));
    }
  }

  predicate InUnitRange(p: Person)
  {
    && UnitRange(p.valid) && UnitRange(p.confidence) && UnitRange(p.centerX) && UnitRange(p.centerY)
    && UnitRange(p.width) && UnitRange(p.height)
  }

  lemma SlotInUnitRange(persons: seq<Person>, k: nat)
    ensures InUnitRange(PersonSlot(persons, k))
  {
    ValueOfZero(ZERO);
    ValueOfOne(ONE, 127);
    if k < |persons| && k < MAX_PERSONS {
      FiniteClampInRange(persons[k].confidence);
      FiniteClampInRange(persons[k].centerX);
      FiniteClampInRange(persons[k].centerY);
      FiniteClampInRange(persons[k].width);
      FiniteClampInRange(persons[k].height);
    }
  }

  /** Whatever was packed, every float of every received person is in the range from 0 to 1. */
  lemma ReceivedPersonsInRange(p: Packet, k: nat)
    requires k < MAX_PERSONS
    ensures Unpack(Pack(p)).Ok? && |Unpack(Pack(p)).packet.persons| == MAX_PERSONS
    ensures InUnitRange(Unpack(Pack(p)).packet.persons[k])
  {
    hide Unpack, Pack, InUnitRange;
    UnpackOfPack(p);
    SlotInUnitRange(p.persons, k);
  }

  /** A packet with the right CRC, of either version, hit by an error burst of at most 32 bits is
      never taken for another one. */
  lemma DamagedPacketIsRefused(sent: seq<byte>, received: seq<byte>, at: nat)
    requires |sent| == PACKET_SIZE || |sent| == LEGACY_PACKET_SIZE
    requires Passes(sent) && DifferInBurst(Bits(sent), Bits(received), at)
    ensures Unpack(received) == Err(CrcMismatch)
  {
    BurstDetected(sent, received, at);
    assert |received| == |sent|;
  }

  // ---------------------------------------------------------------- an infinite count

  lemma {:induction false} PatternAt(s: seq<byte>, k: nat)
    requires |s| % 4 == 0 && 4 * k < |s|
    ensures Patterns(s)[k] == U32Le(s, 4 * k)
  {
    if k == 0 {
    } else {
      PatternAt(s[4..], k - 1);
    }
  }

  lemma PayloadAt(data: seq<byte>, k: nat)
    requires |data| >= HEADER_SIZE + 4 && |data| % 4 == 0 && 4 * k < |data| - HEADER_SIZE - 4
    ensures Patterns(data[HEADER_SIZE..|data| - 4])[k] == U32Le(data, HEADER_SIZE + 4 * k)
  {
    PatternAt(data[HEADER_SIZE..|data| - 4], k);
  }

  /** Which bytes are a packet: "MID2" with the right CRC, and either version 2 in 156 bytes with 31
      floats and a finite person count, or version 1 in 80 bytes with 12 floats. */
  lemma AcceptedPackets(data: seq<byte>)
    ensures Unpack(data).Ok?
       <==> && Passes(data) && data[..4] == [0x4D, 0x49, 0x44, 0x32]
            && (|| (|data| == 156 && data[4] == 2 && U16Le(data, 6) == 31 && Value(U32Le(data, 76)).Fin?)
                || (|data| == 80 && data[4] == 1 && U16Le(data, 6) == 12))
  {
    hide Passes, Value, Build, U16Le, U32Le;
    if |data| == PACKET_SIZE { PayloadAt(data, BASE_FLOATS); }
    PassesNeedsFour(data);
  }

  lemma PassesNeedsFour(data: seq<byte>)
    ensures Passes(data) ==> |data| >= 4
  {
  }

  /** The bytes of the packets that pass every check and carry an infinite person count. */
  predicate CarriesInfiniteCount(data: seq<byte>)
  {
    && |data| == PACKET_SIZE && Passes(data) && data[..4] == MAGIC && data[4] == VERSION && U16Le(data, 6) == FLOATS
    && (U32Le(data, 76) == INFINITY || U32Le(data, 76) == MINUS_INFINITY)
  }

  lemma CountIsInfiniteIff(data: seq<byte>)
    ensures Unpack(data) == Err(CountIsInfinite) <==> CarriesInfiniteCount(data)
  {
    hide Passes, Value, Build;
    if |data| == PACKET_SIZE {
      PayloadAt(data, BASE_FLOATS);
      InfinitePatterns(U32Le(data, 76));
    }
  }

  /** Sealing any header of version 2 and any floats with an infinite count gives one. */
  lemma ValuesCount(data: seq<byte>, v: seq<u32>)
    requires |data| >= HEADER_SIZE && |v| == FLOATS && UnpackValues(data, v).Ok?
    ensures Value(v[BASE_FLOATS]).Fin?
    ensures UnpackValues(data, v).packet.personCount == WholeCount(Value(v[BASE_FLOATS]).v)
  {
    hide Value;
  }

  function WholeCount(n: real): int { if n < 1.0 then 0 else if n >= 3.0 then 3 else n.Floor }

  /** What is read as the person count of a version 2 packet, whatever float it carries: the whole
      persons, none if negative and at most three. */
  lemma CountRead(data: seq<byte>)
    requires Unpack(data).Ok? && data[4] == 2
    ensures Value(U32Le(data, 76)).Fin?
    ensures Unpack(data).packet.personCount == WholeCount(Value(U32Le(data, 76)).v)
  {
    hide Passes, Value, UnpackValues, U32Le, U16Le;
    PayloadAt(data, BASE_FLOATS);
    ValuesCount(data, Patterns(data[HEADER_SIZE..|data| - 4]));
  }

  lemma InfiniteCountSealed(flags: byte, sequence: u32, frameTs: u64, ultrasonicTs: u64, v: seq<u32>)
    requires |v| == FLOATS && (v[BASE_FLOATS] == INFINITY || v[BASE_FLOATS] == MINUS_INFINITY)
    ensures CarriesInfiniteCount(Seal(Header(VERSION, flags, FLOATS, sequence, frameTs, ultrasonicTs) + Floats(v)))
  {
    hide Header, Passes, Seal, Floats, Patterns, U32Le;
    var h := Header(VERSION, flags, FLOATS, sequence, frameTs, ultrasonicTs);
    var data := Seal(h + Floats(v));
    SealedParts(h, Floats(v));
    HeaderOf(data, VERSION, flags, FLOATS, sequence, frameTs, ultrasonicTs);
    PatternsOfFloats(v);
    PayloadAt(data, BASE_FLOATS);
  }

  // ---------------------------------------------------------------- version 1

  function LegacyPacket(flags: byte, sequence: u32, frameTs: u64, ultrasonicTs: u64, v: seq<u32>): (data: seq<byte>)
    requires |v| == BASE_FLOATS
    ensures |data| == LEGACY_PACKET_SIZE
  {
    Seal(Header(LEGACY_VERSION, flags, BASE_FLOATS, sequence, frameTs, ultrasonicTs) + Floats(v))
  }

  /** A version 1 packet is read with nobody in it, and packing it again keeps its floats and
      fills up with zeros. */
  lemma LegacyIsUpgraded(flags: byte, sequence: u32, frameTs: u64, ultrasonicTs: u64, v: seq<u32>)
    requires |v| == BASE_FLOATS
    ensures var r := Unpack(LegacyPacket(flags, sequence, frameTs, ultrasonicTs, v));
            && r.Ok? && r.packet.personCount == 0 && r.packet.persons == []
            && r.packet.sequence == sequence && r.packet.flags == flags
            && PayloadValues(r.packet) == v + seq(FLOATS - BASE_FLOATS, i => ZERO)
  {
    var data := LegacyPacket(flags, sequence, frameTs, ultrasonicTs, v);
    LegacyHeader(flags, sequence, frameTs, ultrasonicTs, v);
    assert Unpack(data) == Ok(Build(data, v, 0, [])) by { hide Build; }
    LegacyPayload(data, v);
  }

  lemma LegacyHeader(flags: byte, sequence: u32, frameTs: u64, ultrasonicTs: u64, v: seq<u32>)
    requires |v| == BASE_FLOATS
    ensures var data := LegacyPacket(flags, sequence, frameTs, ultrasonicTs, v);
            && Passes(data) && data[..4] == MAGIC && data[4] == LEGACY_VERSION
            && data[5] == flags && U16Le(data, 6) == BASE_FLOATS && U32Le(data, 8) == sequence
            && Patterns(data[HEADER_SIZE..|data| - 4]) == v
  {
    hide Header, Passes, Seal, Floats, Patterns;
    var h := Header(LEGACY_VERSION, flags, BASE_FLOATS, sequence, frameTs, ultrasonicTs);
    SealedParts(h, Floats(v));
    HeaderOf(LegacyPacket(flags, sequence, frameTs, ultrasonicTs, v), LEGACY_VERSION, flags, BASE_FLOATS, sequence,
             frameTs, ultrasonicTs);
    PatternsOfFloats(v);
  }

  lemma LegacyPayload(data: seq<byte>, v: seq<u32>)
    requires |data| >= HEADER_SIZE && |v| == BASE_FLOATS
    ensures PayloadValues(Build(data, v, 0, [])) == v + seq(FLOATS - BASE_FLOATS, i => ZERO)
  {
    assert Count(Build(data, v, 0, [])) == 0;
  }
}

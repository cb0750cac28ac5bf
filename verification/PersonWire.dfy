/** From MIDDLE to the decision: what the HPVC makes of a packed perception packet
    (MIDDLE/protocol.py, HPVC/hpvc_aeb.py). */
module PersonWire {
  import opened Words
  import opened Float32
  import opened Rounding
  import opened Crc32
  import opened AebFusion
  import Mid2

  function Seen(p: Mid2.Person): Person { Person(Value(p.valid), Value(p.confidence), Value(p.centerX)) }

  function SeenAll(persons: seq<Mid2.Person>): (s: seq<Person>)
    ensures |s| == |persons|
  {
    seq(|persons|, i requires 0 <= i < |persons| => Seen(persons[i]))
  }

  function MiddleOf(p: Mid2.Packet, arrival: real): Middle
    requires 0 <= p.flags < 0x100 && 0 <= p.sequence < TWO32
  {
    Middle(p.sequence, arrival, p.flags, SeenAll(p.persons))
  }

  // ---------------------------------------------------------------- the packet kept

  /** The latest frame after a datagram, or the loop ended by an error it does not catch: an
      infinite person count raises another exception than the other refusals. */
  datatype Kept = Kept(latest: Option<Middle>) | LoopEnds

  function Keep(latest: Option<Middle>, data: seq<byte>, now: real): Kept
  {
    match Mid2.Unpack(data)
    case Ok(p) =>
      FieldsInRange(data);
      Kept(Some(MiddleOf(p, now)))
    case Err(error) => if error.CountIsInfinite? then LoopEnds else Kept(latest)
  }

  lemma FieldsInRange(data: seq<byte>)
    requires Mid2.Unpack(data).Ok?
    ensures 0 <= Mid2.Unpack(data).packet.flags < 0x100 && 0 <= Mid2.Unpack(data).packet.sequence < TWO32
  {
  }

  /** The sequence number is not looked at: whatever number the frame kept so far carries, a
      packed packet with any other number, newer, equal or older, replaces it, and the link
      counts as fresh from its arrival on. */
  lemma AnyNumberReplaces(cfg: Config, latest: Option<Middle>, p: Mid2.Packet, now: real, later: real)
    ensures var kept := Keep(latest, Mid2.Pack(p), now);
            && kept.Kept? && kept.latest.Some? && kept.latest.value.sequence == Wrap32(p.sequence)
            && kept.latest.value.arrival == now
            && (MiddleFresh(cfg, kept.latest, later) <==> Double(later - now) <= cfg.middleTimeout)
            && (cfg.middleTimeout >= 0.0 ==> MiddleFresh(cfg, kept.latest, now))
  {
    hide Mid2.Unpack, Mid2.Pack;
    Mid2.UnpackOfPack(p);
  }

  /** One datagram ends the loop exactly when it passes every check and carries an infinite
      person count. */
  lemma LoopEndsExactly(latest: Option<Middle>, data: seq<byte>, now: real)
    ensures Keep(latest, data, now) == LoopEnds
       <==> && |data| == 156 && Passes(data) && data[..4] == [0x4D, 0x49, 0x44, 0x32] && data[4] == 2
            && U16Le(data, 6) == 31
            && (U32Le(data, 76) == 0x7F80_0000 || U32Le(data, 76) == 0xFF80_0000)
  {
    hide Mid2.Unpack, Passes;
    Mid2.CountIsInfiniteIff(data);
  }

  /** Such datagrams exist: a sealed packet with any header fields, any other floats and the
      person count infinite. */
  lemma InfiniteCountEndsLoop(latest: Option<Middle>, flags: byte, sequence: u32, frameTs: u64, ultrasonicTs: u64,
                              v: seq<u32>, now: real)
    requires |v| == Mid2.FLOATS && v[Mid2.BASE_FLOATS] == 0x7F80_0000
    ensures Keep(latest, Seal(Mid2.Header(2, flags, 31, sequence, frameTs, ultrasonicTs) + Mid2.Floats(v)), now)
         == LoopEnds
  {
    hide Mid2.Unpack, Mid2.Header, Mid2.Floats, Seal, Passes;
    var data := Seal(Mid2.Header(2, flags, 31, sequence, frameTs, ultrasonicTs) + Mid2.Floats(v));
    Mid2.InfiniteCountSealed(flags, sequence, frameTs, ultrasonicTs, v);
    Mid2.CountIsInfiniteIff(data);
  }

  /** A refused datagram keeps the frame there is, but for those that end the loop. */
  lemma RefusedKeepsLatest(latest: Option<Middle>, data: seq<byte>, now: real)
    requires Mid2.Unpack(data).Err?
    ensures Keep(latest, data, now) == Kept(latest) <==> !Mid2.CarriesInfiniteCount(data)
    ensures Keep(latest, data, now) == LoopEnds <==> Mid2.CarriesInfiniteCount(data)
  {
    hide Mid2.Unpack, Mid2.CarriesInfiniteCount;
    Mid2.CountIsInfiniteIff(data);
  }

  // ---------------------------------------------------------------- persons

  /** A sender's person that will count at the HPVC. */
  predicate Reported(cfg: Config, p: Mid2.Person)
  {
    && AtLeast(Value(p.valid), 0.5)
    && AtLeast(Value(Mid2.FiniteClamp(p.confidence)), cfg.personConfidenceMin)
    && Greater(Value(Mid2.FiniteClamp(p.confidence)), 0.0)
    && AtLeast(Value(Mid2.FiniteClamp(p.centerX)), cfg.gateMin)
    && AtMost(Value(Mid2.FiniteClamp(p.centerX)), cfg.gateMax)
  }

  lemma SlotCounts(cfg: Config, persons: seq<Mid2.Person>, k: nat)
    ensures PersonCounts(cfg, Seen(Mid2.PersonSlot(persons, k)))
       <==> k < |persons| && k < Mid2.MAX_PERSONS && Reported(cfg, persons[k])
  {
    ValueOfZero(ZERO);
    ValueOfOne(ONE, 127);
    if k < |persons| && k < Mid2.MAX_PERSONS {
      Mid2.FiniteClampInRange(persons[k].confidence);
      Mid2.FiniteClampInRange(persons[k].centerX);
    }
  }

  lemma SomeSlotCounts(cfg: Config, persons: seq<Mid2.Person>)
    ensures (exists x <- SeenAll(Mid2.Slots(persons)) :: PersonCounts(cfg, x))
       <==> exists q <- Mid2.Sent(persons) :: Reported(cfg, q)
  {
    hide PersonCounts, Reported, Mid2.PersonSlot;
    var s, t := SeenAll(Mid2.Slots(persons)), Mid2.Sent(persons);
    SlotCounts(cfg, persons, 0);
    SlotCounts(cfg, persons, 1);
    SlotCounts(cfg, persons, 2);
    if x :| x in s && PersonCounts(cfg, x) {
      var k :| 0 <= k < 3 && s[k] == x;
      assert persons[k] == t[k];
    }
    if q :| q in t && Reported(cfg, q) {
      var k :| 0 <= k < |t| && t[k] == q;
      assert s[k] in s;
    }
  }

  /** A packed packet puts a person in the path exactly when it is fresh, its detection flag is
      set and one of its first three persons is valid, confident and inside the gate after
      sanitising; NaN anywhere and the padding never count. */
  lemma PersonInPathOverWire(cfg: Config, p: Mid2.Packet, arrival: real, now: real)
    ensures var r := Mid2.Unpack(Mid2.Pack(p));
            && r.Ok? && 0 <= r.packet.flags < 0x100 && 0 <= r.packet.sequence < TWO32
            && (PersonInPath(cfg, Some(MiddleOf(r.packet, arrival)), now)
                <==> && Double(now - arrival) <= cfg.middleTimeout && p.flags % 0x100 / 16 % 2 == 1
                     && exists q <- Mid2.Sent(p.persons) :: Reported(cfg, q))
  {
    hide Mid2.Unpack, Mid2.Pack, PersonCounts, Reported, SeenAll, Mid2.Slots, Mid2.Sent;
    Mid2.UnpackOfPack(p);
    SomeSlotCounts(cfg, p.persons);
  }
}

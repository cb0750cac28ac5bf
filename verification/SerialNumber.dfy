/** Wrapping sequence numbers: the firmware's comparison, the one of section 3.2 of RFC 1982,
    and the unbounded counter both stand for. */
module SerialNumber {
  import opened Words
  import opened Hpsc
  import opened FrontState
  import opened FrontPackets

  const HALF: int := 0x8000_0000

  /** `i1 < i2` as RFC 1982 defines it for 32-bit serial numbers. */
  predicate Rfc1982Less(i1: u32, i2: u32)
  {
    (i1 < i2 && i2 - i1 < HALF) || (i1 > i2 && i1 - i2 > HALF)
  }

  lemma SequenceNewerIsRfc1982(candidate: u32, reference: u32)
    ensures SequenceNewer(candidate, reference) <==> Rfc1982Less(reference, candidate)
  {
  }

  lemma WrappedDifference(n: int, last: int)
    ensures Wrap32(Wrap32(n) - Wrap32(last)) == (n - last) % TWO32
  {
    var k := n / TWO32 - last / TWO32;
    assert n - last == Wrap32(n) - Wrap32(last) + TWO32 * k;
  }

  lemma NewerOfWrapped(n: int, last: int)
    ensures SequenceNewer(Wrap32(n), Wrap32(last)) <==> 0 < (n - last) % TWO32 < HALF
  {
    hide Wrap32;
    WrappedDifference(n, last);
  }

  /** Inside the window the truncated comparison is the true one. */
  lemma NewerIffLater(n: int, last: int)
    requires -HALF < n - last < HALF
    ensures SequenceNewer(Wrap32(n), Wrap32(last)) <==> n > last
  {
    NewerOfWrapped(n, last);
  }

  /** The window is the largest possible: one step outside it a later packet looks old, and one
      more a far older packet looks new. */
  lemma WindowIsMaximal(last: int)
    ensures !SequenceNewer(Wrap32(last + HALF), Wrap32(last))
    ensures SequenceNewer(Wrap32(last - HALF - 1), Wrap32(last))
  {
    NewerOfWrapped(last + HALF, last);
    NewerOfWrapped(last - HALF - 1, last);
  }

  // ---------------------------------------------------------------- runs

  /** A packet arriving at FRONT, with the number of its transmission. */
  datatype Arrival = Arrival(number: int, packet: seq<byte>, nowMs: u32)

  /** The packet carries its number truncated, and is one a receiver may act on. */
  predicate Genuine(a: Arrival)
  {
    && WellFormed(a.packet)
    && U32Le(a.packet, 8) == Wrap32(a.number)
    && (EmergencyCenter(a.packet[6]) || a.packet[5] == CONTROL_DISABLED || CommandValid(a.packet))
  }

  function AcceptedNumbers(s: State, arrivals: seq<Arrival>): seq<int>
    decreases |arrivals|
  {
    if arrivals == [] then []
    else
      var (t, ok) := Accept(s, arrivals[0].packet, arrivals[0].nowMs);
      (if ok then [arrivals[0].number] else []) + AcceptedNumbers(t, arrivals[1..])
  }

  /** What a receiver with an unbounded counter would accept: each number larger than all before. */
  function Records(last: int, arrivals: seq<Arrival>): (r: seq<int>)
    decreases |arrivals|
  {
    if arrivals == [] then []
    else if arrivals[0].number > last then [arrivals[0].number] + Records(arrivals[0].number, arrivals[1..])
    else Records(last, arrivals[1..])
  }

  /** No arrival is half the number space or more away from the latest number before it. */
  predicate InWindow(last: int, arrivals: seq<Arrival>)
    decreases |arrivals|
  {
    arrivals == [] || (
      && -HALF < arrivals[0].number - last < HALF
      && InWindow(if arrivals[0].number > last then arrivals[0].number else last, arrivals[1..]))
  }

  /** The 32-bit receiver refines the unbounded one, under any loss, duplication and reordering
      that stays inside the window, across any number of wraparounds. */
  lemma {:induction false} ReceiverRefinesUnboundedCounter(s: State, last: int, arrivals: seq<Arrival>)
    requires s.initialized && s.lastSequence == Wrap32(last)
    requires InWindow(last, arrivals) && forall a <- arrivals :: Genuine(a)
    ensures AcceptedNumbers(s, arrivals) == Records(last, arrivals)
    decreases |arrivals|
  {
    if arrivals == [] {
    } else {
      var a, rest := arrivals[0], arrivals[1..];
      assert Genuine(a);
      NewerIffLater(a.number, last);
      AcceptIffAcceptable(s, a.packet, a.nowMs);
      if a.number > last {
        ReceiverRefinesUnboundedCounter(Accept(s, a.packet, a.nowMs).0, a.number, rest);
      } else {
        StaleIsIgnored(s, a.packet, a.nowMs);
        ReceiverRefinesUnboundedCounter(s, last, rest);
      }
    }
  }

  predicate Increasing(last: int, numbers: seq<int>)
    decreases |numbers|
  {
    numbers == [] || (last < numbers[0] && Increasing(numbers[0], numbers[1..]))
  }

  lemma {:induction false} RecordsIncrease(last: int, arrivals: seq<Arrival>)
    ensures Increasing(last, Records(last, arrivals))
    decreases |arrivals|
  {
    if arrivals == [] {
    } else {
      var n := arrivals[0].number;
      if n > last {
        RecordsIncrease(n, arrivals[1..]);
        assert Records(last, arrivals)[1..] == Records(n, arrivals[1..]);
      } else {
        RecordsIncrease(last, arrivals[1..]);
      }
    }
  }

  /** So no transmission is acted on twice, or after a later one. */
  lemma AcceptedNumbersIncrease(s: State, last: int, arrivals: seq<Arrival>)
    requires s.initialized && s.lastSequence == Wrap32(last)
    requires InWindow(last, arrivals) && forall a <- arrivals :: Genuine(a)
    ensures Increasing(last, AcceptedNumbers(s, arrivals))
  {
    ReceiverRefinesUnboundedCounter(s, last, arrivals);
    RecordsIncrease(last, arrivals);
  }
}

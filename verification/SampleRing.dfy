/** The ultrasonic filter of the FRONT and REAR sensor nodes (FRONT/AebSensorNode.c,
    REAR/AebSensorNode.c): a ring of three samples and their median. */
module SampleRing {
  import opened Words

  const MIN_CM_X10: int := 20
  const MAX_CM_X10: int := 5000

  const DIAG_OK: u16 := 0
  const DIAG_NO_ECHO_RISE: u16 := 0xF001
  const DIAG_NO_ECHO_FALL: u16 := 0xF002
  const DIAG_OUT_OF_LIMIT: u16 := 0xF003

  /** What one measurement sees: no rising edge, no falling edge, or an echo of so many
      microseconds. */
  datatype Echo = NoRise | NoFall | Pulse(us: u32)

  // ---------------------------------------------------------------- one measurement

  /** Half the way at 343 m/s, rounded, in tenths of a centimetre; 32-bit arithmetic. */
  function Distance(us: u32): u32 { Wrap32(Wrap32(us * 1715) + 5000) / 10000 }

  function Measured(e: Echo): Option<u16>
  {
    if e.Pulse? && MIN_CM_X10 <= Distance(e.us) <= MAX_CM_X10 then Some(Distance(e.us)) else None
  }

  function Diagnosis(e: Echo): u16
  {
    match e
    case NoRise => DIAG_NO_ECHO_RISE
    case NoFall => DIAG_NO_ECHO_FALL
    case Pulse(us) => if Measured(e).Some? then DIAG_OK else DIAG_OUT_OF_LIMIT
  }

  /** Up to the longest echo whose product fits in 32 bits the distance is the nearest tenth of
      a centimetre; the range test accepts exactly the echoes from 114 us to 29157 us, and the
      diagnostic codes tell the three failures apart. */
  lemma DistanceIsRounded(us: u32)
    requires us * 1715 + 5000 < TWO32
    ensures Distance(us) * 10000 - 5000 <= us * 1715 < Distance(us) * 10000 + 5000
    ensures Measured(Pulse(us)).Some? <==> 114 <= us <= 29157
    ensures Diagnosis(Pulse(us)) == if 114 <= us <= 29157 then 0 else 0xF003
    ensures Diagnosis(NoRise) == 0xF001 && Diagnosis(NoFall) == 0xF002
  {
    assert Distance(us) == (us * 1715 + 5000) / 10000;
  }

  // ---------------------------------------------------------------- the median

  function Lower(a: u16, b: u16): u16 { if b < a then b else a }

  function Upper(a: u16, b: u16): u16 { if a < b then b else a }

  /** Rounded down; the sum is taken in `int`. */
  function Mean(a: u16, b: u16): u16 { (a as int + b as int) / 2 }

  function Median(a: u16, b: u16, c: u16): u16 { Upper(Lower(a, b), Lower(Upper(a, b), c)) }

  /** At least two of the three are not above it, at least two are not below it, and it does
      not depend on their order. */
  lemma MedianIsMiddle(a: u16, b: u16, c: u16)
    ensures var m := Median(a, b, c);
            && m in {a, b, c}
            && (if a <= m then 1 else 0) + (if b <= m then 1 else 0) + (if c <= m then 1 else 0) >= 2
            && (if a >= m then 1 else 0) + (if b >= m then 1 else 0) + (if c >= m then 1 else 0) >= 2
    ensures Median(a, b, c) == Median(b, c, a) == Median(c, a, b) == Median(b, a, c)
  {
  }

  /** The filtered value of a history of valid samples, oldest first. */
  function Filtered(h: seq<u16>): u16
  {
    var n := |h|;
    if n == 0 then 0
    else if n == 1 then h[0]
    else if n == 2 then Mean(h[0], h[1])
    else Median(h[n - 3], h[n - 2], h[n - 1])
  }

  // ---------------------------------------------------------------- one sensor over time

  /** One update: the echo, the counter when a sample was taken, and at the freshness test. */
  datatype Reading = Reading(echo: Echo, measuredAt: u32, now: u32)

  /** The valid samples so far, oldest first, and what is kept beside the ring. */
  datatype Sensor = Sensor(history: seq<u16>, lastValidTick: u32, lastDiag: u16)

  const NEW_SENSOR: Sensor := Sensor([], 0, DIAG_OK)

  function Next(s: Sensor, r: Reading): Sensor
  {
    var sample := Measured(r.echo);
    if sample.Some? then Sensor(s.history + [sample.value], r.measuredAt, DIAG_OK)
    else s.(lastDiag := Diagnosis(r.echo))
  }

  function After(readings: seq<Reading>): Sensor
    decreases |readings|
  {
    if readings == [] then NEW_SENSOR else Next(After(readings[..|readings| - 1]), readings[|readings| - 1])
  }

  // ---------------------------------------------------------------- the ring as it runs

  class UltrasonicSensor {
    const samples: array<u16>
    var sampleCount: nat
    var sampleIndex: nat
    var filtered: u16
    var lastValidTick: u32
    var lastDiag: u16

    /** The ring holds the last three samples of `h`, each at its number modulo three. */
    ghost predicate Holds(h: seq<u16>)
      reads this, samples
    {
      && samples.Length == 3
      && sampleIndex == |h| % 3
      && sampleCount == (if |h| < 3 then |h| else 3)
      && (forall i :: 0 <= i < |h| && |h| - i <= 3 ==> samples[i % 3] == h[i])
      && filtered == Filtered(h)
    }

    /** The object stands for `s`. */
    ghost predicate Is(s: Sensor)
      reads this, samples
    {
      Holds(s.history) && lastValidTick == s.lastValidTick && lastDiag == s.lastDiag
    }

    constructor ()
      ensures Is(NEW_SENSOR) && fresh(samples)
    {
      samples := new u16[3](i => 0);
      sampleCount, sampleIndex, filtered, lastValidTick, lastDiag := 0, 0, 0, 0, DIAG_OK;
    }

    /** Three compare-and-swap steps. */
    method Median3() returns (m: u16)
      requires samples.Length == 3 && sampleCount <= 3
      ensures sampleCount == 0 ==> m == 0
      ensures sampleCount == 1 ==> m == samples[0]
      ensures sampleCount == 2 ==> m == Mean(samples[0], samples[1])
      ensures sampleCount == 3 ==> m == Median(samples[0], samples[1], samples[2])
    {
      if sampleCount == 0 { return 0; }
      if sampleCount == 1 { return samples[0]; }
      if sampleCount == 2 { return Mean(samples[0], samples[1]); }
      var a, b, c := samples[0], samples[1], samples[2];
      if a > b { a, b := b, a; }
      if b > c { b, c := c, b; }
      if a > b { a, b := b, a; }
      m := b;
    }

    method Store(ghost h: seq<u16>, raw: u16)
      requires Holds(h)
      modifies this`sampleCount, this`sampleIndex, this`filtered, samples
      ensures Holds(h + [raw])
    {
      hide Filtered, Median, Mean;
      samples[sampleIndex] := raw;
      sampleIndex := (sampleIndex + 1) % 3;
      if sampleCount < 3 { sampleCount := sampleCount + 1; }
      ghost var g := h + [raw];
      RingSlots(samples[..], h, raw);
      filtered := Median3();
      FilteredFromSlots(samples[..], g);
    }

    method ReadCmX10(e: Echo) returns (raw: Option<u16>)
      modifies this`lastDiag
      ensures raw == Measured(e) && lastDiag == Diagnosis(e)
    {
      lastDiag := DIAG_OK;
      if e.NoRise? {
        lastDiag := DIAG_NO_ECHO_RISE;
        return None;
      }
      if e.NoFall? {
        lastDiag := DIAG_NO_ECHO_FALL;
        return None;
      }
      var distance := Distance(e.us);
      if distance < MIN_CM_X10 || distance > MAX_CM_X10 {
        lastDiag := DIAG_OUT_OF_LIMIT;
        return None;
      }
      raw := Some(distance);
    }

    method Update(ghost s: Sensor, r: Reading, staleTicks: u32) returns (valid: bool)
      requires Is(s)
      modifies this`sampleCount, this`sampleIndex, this`filtered, this`lastValidTick, this`lastDiag, samples
      ensures Is(Next(s, r)) && valid == Fresh(Next(s, r).lastValidTick, r.now, staleTicks)
    {
      hide Filtered;
      var raw := ReadCmX10(r.echo);
      if raw.Some? {
        Store(s.history, raw.value);
        lastValidTick := r.measuredAt;
      }
      if lastValidTick == 0 { return false; }
      valid := Wrap32(r.now - lastValidTick) <= staleTicks;
    }
  }

  /** The slots of the ring hold the last three samples. */
  ghost predicate InSlots(s: seq<u16>, h: seq<u16>)
  {
    |s| == 3 && forall i :: 0 <= i < |h| && |h| - i <= 3 ==> s[i % 3] == h[i]
  }

  lemma RingSlots(s: seq<u16>, h: seq<u16>, raw: u16)
    requires |s| == 3 && s[|h| % 3] == raw
    requires forall i :: 0 <= i < |h| && |h| - i < 3 ==> s[i % 3] == h[i]
    ensures InSlots(s, h + [raw])
  {
    var g := h + [raw];
    forall i | 0 <= i < |g| && |g| - i <= 3 ensures s[i % 3] == g[i] {
      if i < |h| { assert g[i] == h[i]; }
    }
  }

  lemma FilteredFromSlots(s: seq<u16>, h: seq<u16>)
    requires InSlots(s, h) && |h| > 0
    ensures |h| == 1 ==> Filtered(h) == s[0]
    ensures |h| == 2 ==> Filtered(h) == Mean(s[0], s[1])
    ensures |h| >= 3 ==> Filtered(h) == Median(s[0], s[1], s[2])
  {
    hide Median, Mean;
    var n := |h|;
    if n == 1 {
      assert s[0 % 3] == h[0];
    } else if n == 2 {
      assert s[0 % 3] == h[0] && s[1 % 3] == h[1];
    } else {
      assert s[(n - 3) % 3] == h[n - 3] && s[(n - 2) % 3] == h[n - 2] && s[(n - 1) % 3] == h[n - 1];
      MedianIsMiddle(h[n - 3], h[n - 2], h[n - 1]);
    }
  }

  // ---------------------------------------------------------------- freshness

  predicate Fresh(lastValidTick: u32, now: u32, staleTicks: u32)
  {
    lastValidTick != 0 && Wrap32(now - lastValidTick) <= staleTicks
  }

  /** In terms of an unbounded clock: the age counts modulo the range of the counter, and a
      sample taken while the counter reads zero is never fresh. */
  lemma FreshnessOnUnboundedClock(taken: nat, now: nat, staleTicks: u32)
    requires taken <= now
    ensures Fresh(Wrap32(taken), Wrap32(now), staleTicks)
       <==> taken % TWO32 != 0 && (now - taken) % TWO32 <= staleTicks
    ensures now - taken < TWO32 ==>
            (Fresh(Wrap32(taken), Wrap32(now), staleTicks) <==> taken % TWO32 != 0 && now - taken <= staleTicks)
  {
    WrapDifference(now, taken);
  }

  lemma WrapDifference(x: int, y: int)
    ensures Wrap32(Wrap32(x) - Wrap32(y)) == Wrap32(x - y)
  {
    var j, k := x / TWO32, y / TWO32;
    assert Wrap32(x) - Wrap32(y) == x - y + (k - j) * TWO32;
    Wrap32Shift(x - y, k - j);
  }

  lemma Wrap32Shift(x: int, k: int)
    ensures Wrap32(x + k * TWO32) == Wrap32(x)
  {
  }

  // ---------------------------------------------------------------- over whole histories

  /** What is kept is the last valid reading: its distance ends the history and its tick is the
      one freshness counts from; the diagnostic is that of the last reading of all. */
  lemma {:induction false} LastValidReading(readings: seq<Reading>, k: nat)
    requires k < |readings| && Measured(readings[k].echo).Some?
    requires forall i :: k < i < |readings| ==> Measured(readings[i].echo).None?
    ensures var s := After(readings);
            && s.history == After(readings[..k]).history + [Measured(readings[k].echo).value]
            && s.lastValidTick == readings[k].measuredAt
            && s.lastDiag == Diagnosis(readings[|readings| - 1].echo)
    decreases |readings|
  {
    var n := |readings| - 1;
    if k < n {
      LastValidReading(readings[..n], k);
      assert readings[..n][..k] == readings[..k];
    }
  }

  predicate InRange(x: u16) { MIN_CM_X10 <= x <= MAX_CM_X10 }

  lemma {:induction false} SamplesInRange(readings: seq<Reading>)
    ensures forall x <- After(readings).history :: InRange(x)
    decreases |readings|
  {
    if readings == [] {
    } else {
      SamplesInRange(readings[..|readings| - 1]);
    }
  }

  /** A sensor that has never had a valid sample is never fresh. */
  lemma {:induction false} FreshNeedsSample(readings: seq<Reading>, now: u32, staleTicks: u32)
    requires Fresh(After(readings).lastValidTick, now, staleTicks)
    ensures After(readings).history != []
    decreases |readings|
  {
    if readings == [] {
    } else {
      var rest := readings[..|readings| - 1];
      if Measured(readings[|readings| - 1].echo).None? { FreshNeedsSample(rest, now, staleTicks); }
    }
  }

  lemma FilteredBetween(h: seq<u16>)
    requires forall x <- h :: InRange(x)
    ensures h != [] ==> InRange(Filtered(h))
  {
    var n := |h|;
    if n == 1 {
      assert h[0] in h;
    } else if n == 2 {
      assert h[0] in h && h[1] in h;
    } else if n >= 3 {
      assert h[n - 3] in h && h[n - 2] in h && h[n - 1] in h;
    }
  }

  lemma MedianBetween(a: u16, b: u16, c: u16)
    ensures Lower(a, b) <= Median(a, b, c) <= Upper(a, b)
    ensures Lower(a, c) <= Median(a, b, c) <= Upper(a, c)
    ensures Lower(b, c) <= Median(a, b, c) <= Upper(b, c)
  {
  }

  /** After any sequence of valid and failed measurements the filtered value lies in the valid
      range as soon as there has been one valid sample: that sample, then the mean of the first
      two, rounded down, and from the third sample on between
      any two of the last three: one outlier never takes it out of the range of the others. */
  lemma FilteredIsRobust(readings: seq<Reading>, i: nat, j: nat)
    ensures var h := After(readings).history; h != [] ==> InRange(Filtered(h))
    ensures var h := After(readings).history;
            3 <= |h| <= i + 3 && i < j < |h| ==> Lower(h[i], h[j]) <= Filtered(h) <= Upper(h[i], h[j])
    ensures var h := After(readings).history;
            && (|h| == 1 ==> Filtered(h) == h[0])
            && (|h| == 2 ==> 2 * Filtered(h) as int <= h[0] as int + h[1] as int <= 2 * Filtered(h) as int + 1)
  {
    hide After, Median, Lower, Upper, InRange;
    var h := After(readings).history;
    SamplesInRange(readings);
    FilteredBetween(h);
    if |h| >= 3 { MedianBetween(h[|h| - 3], h[|h| - 2], h[|h| - 1]); }
  }
}

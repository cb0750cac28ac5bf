/** The bound of FrontSingle on the periods that center the servo is sharp: a run from boot that
    is not centered one period earlier. */
module FrontSharp {
  import opened Words
  import opened Float32
  import opened Rounding
  import opened Hpsc
  import opened FrontState
  import opened FrontPackets
  import opened FrontSafety
  import opened FrontSingle

  // ---------------------------------------------------------------- float32 in units

  /** `n` units of one in `p`. */
  function At(n: int, p: nat): real
    requires p > 0
  {
    n as real / p as real
  }

  /** A number counted in such units. */
  function Units(x: real, p: nat): real { x * p as real }

  lemma AtUnits(n: int, p: nat)
    requires p > 0
    ensures Units(At(n, p), p) == n as real
  {
  }

  lemma AtFiner(n: int, p: nat, f: nat)
    requires p > 0 && f > 0
    ensures p * f > 0 && At(n * f, p * f) == At(n, p)
  {
    var a := At(n, p);
    assert a * p as real == n as real;
    assert a * (p * f) as real == (n * f) as real;
  }

  lemma UnitIs(p: nat, k: nat)
    requires p == Pow2(k)
    ensures Times(p, Scale(0 - k)) == 1.0
  {
    hide Scale, Pow2, Times;
    ScaleAdd(0 - k, k);
    ScaleOfZero(0);
  }

  lemma QuotientIsUnits(x: real, p: nat, u: real)
    requires p > 0 && u > 0.0 && Times(p, u) == 1.0
    ensures x / u == Units(x, p) && x == Units(x, p) * u
  {
    assert x * p as real * u == x * (p as real * u);
  }

  lemma InUnits(x: real, p: nat, u: real)
    requires p > 0 && u > 0.0 && Times(p, u) == 1.0 && 8388608.0 <= Units(x, p) < 16777216.0
    ensures Times(8388608, u) <= x < Times(16777216, u)
  {
    hide Units, Times;
    QuotientIsUnits(x, p, u);
    TimesBelow(8388608, Units(x, p), u);
    TimesAbove(16777216, Units(x, p), u);
  }

  lemma TimesBelow(n: nat, y: real, u: real)
    requires u > 0.0 && n as real <= y
    ensures Times(n, u) <= y * u
  {
  }

  lemma TimesAbove(n: nat, y: real, u: real)
    requires u > 0.0 && y < n as real
    ensures y * u < Times(n, u)
  {
  }

  lemma TimesIsAt(n: int, p: nat, u: real)
    requires p > 0 && Times(p, u) == 1.0
    ensures Times(n, u) == At(n, p)
  {
    assert p as real * u == 1.0;
  }

  lemma PowOf23And24(n: nat)
    requires n == 23
    ensures Pow2(n) == 8388608 && Pow2(n + 1) == 16777216
  {
    hide Pow2;
    PowOf12();
    PowOf11(11);
    PowAdd(12, 11);
    PowAdd(12, 12);
  }

  lemma PowOf11(n: nat)
    requires n == 11
    ensures Pow2(n) == 2048
  {
  }

  /** A float32 between 2^23 and 2^24 units is rounded to a whole number of them. */
  lemma SingleIs(x: real, n: int, p: nat, k: nat)
    requires p == Pow2(k) && 8388608.0 <= Units(x, p) < 16777216.0 && Nearest(n, Units(x, p))
    ensures x > 0.0 && Single(x) == At(n, p)
  {
    hide Scale, Pow2, Times, Units, Nearest, Round, At;
    var u := Scale(0 - k);
    UnitIs(p, k);
    InUnits(x, p, u);
    QuotientIsUnits(x, p, u);
    PowOf23And24(23);
    UnitDivides(23 - k, 24);
    RoundNear(x, n, 23 - k, 24);
    TimesIsAt(n, p, u);
  }

  lemma PowOf28(n: nat)
    requires n == 28
    ensures Pow2(n) == 268435456
  {
    hide Pow2;
    PowOf12();
    PowOf4(4);
    PowAdd(12, 12);
    PowAdd(24, 4);
  }

  lemma PowOf4(n: nat)
    requires n == 4
    ensures Pow2(n) == 16
  {
  }

  lemma PowOf33(n: nat)
    requires n == 33
    ensures Pow2(n) == 8589934592
  {
    hide Pow2;
    PowOf28(28);
    PowOf5(5);
    PowAdd(28, 5);
  }

  lemma PowOf5(n: nat)
    requires n == 5
    ensures Pow2(n) == 32
  {
  }

  /** The two literals of the firmware. */
  lemma LiteralsAreSingle()
    ensures Single(0.05) == MIN_RATE && Single(0.001) == MIN_STEP
  {
    hide Pow2, Round;
    PowOf28(28);
    PowOf33(33);
    SingleIs(0.05, 13421773, 268435456, 28);
    SingleIs(0.001, 8589935, 8589934592, 33);
  }

  // ---------------------------------------------------------------- the slowest centering

  /** So many periods at the smallest step, towards the center. */
  function Descend(a: real, count: nat): real
    decreases count
  {
    if count == 0 then a else Descend(Slowest(a), count - 1)
  }

  function Slowest(a: real): real { AdvanceSingle(a, 0.0, MIN_STEP) }

  lemma {:induction false} DescendMore(a: real, i: nat, j: nat)
    ensures Descend(a, i + j) == Descend(Descend(a, i), j)
    decreases i
  {
    hide Slowest;
    if i == 0 {
    } else {
      DescendMore(Slowest(a), i - 1, j);
    }
  }

  lemma SmallStep(a: real)
    requires MIN_STEP < a <= MAX_ABS_RAD && Single(a) == a
    ensures Slowest(a) == Single(a - MIN_STEP)
  {
    hide Round;
    HalfIsExact();
    RoundOdd(a, 24);
    assert Single(0.0 - a) == -a;
    RoundMonotone(0.0, a - MIN_STEP, 24);
    RoundMonotone(a - MIN_STEP, MAX_ABS_RAD, 24);
  }

  lemma UnitsMinus(a: real, b: real, p: nat)
    ensures Units(a - b, p) == Units(a, p) - Units(b, p)
  {
  }

  lemma StepInUnits(n: int, n': int, p: nat, k: nat)
    requires p == Pow2(k) && 8388608.0 <= n as real - Units(MIN_STEP, p) < 16777216.0
    requires Nearest(n', n as real - Units(MIN_STEP, p))
    requires At(n, p) <= MAX_ABS_RAD && Single(At(n, p)) == At(n, p)
    ensures Slowest(At(n, p)) == At(n', p) && Single(At(n', p)) == At(n', p)
    ensures At(n', p) <= MAX_ABS_RAD
  {
    hide Round, Slowest, Nearest, Pow2, At, Units;
    var a := At(n, p);
    AtUnits(n, p);
    UnitsMinus(a, MIN_STEP, p);
    SingleIs(a - MIN_STEP, n', p, k);
    SmallStep(a);
    HalfIsExact();
    RoundMonotone(a - MIN_STEP, MAX_ABS_RAD, 24);
    RoundIdempotent(a - MIN_STEP, 24);
  }

  /** While the results stay between 2^23 and 2^24 units, every period takes off the same whole
      number `c` of them. */
  lemma {:induction false} Phase(n: int, c: int, count: nat, p: nat, k: nat)
    requires p == Pow2(k) && At(n, p) <= MAX_ABS_RAD && Single(At(n, p)) == At(n, p)
    requires Abs(c as real - Units(MIN_STEP, p)) < 0.5
             || (Abs(c as real - Units(MIN_STEP, p)) == 0.5 && n % 2 == 0 && c % 2 == 0)
    requires n as real - Units(MIN_STEP, p) < 16777216.0 && c > 0
    requires (n - Drop(c, count - 1)) as real - Units(MIN_STEP, p) >= 8388608.0
    ensures Descend(At(n, p), count) == At(n - Drop(c, count), p)
    ensures Single(At(n - Drop(c, count), p)) == At(n - Drop(c, count), p)
    ensures At(n - Drop(c, count), p) <= MAX_ABS_RAD
    decreases count
  {
    hide Round, Slowest, Pow2, At, Units, Drop;
    DropNone(c);
    if count == 0 {
    } else {
      DropStep(c, count);
      StepInUnits(n, n - c, p, k);
      Phase(n - c, c, count - 1, p, k);
    }
  }

  lemma DropNone(c: int)
    ensures Drop(c, 0) == 0
  {
  }

  function Drop(c: int, count: int): int { count * c }

  lemma DropStep(c: int, count: nat)
    requires count > 0 && c > 0
    ensures Drop(c, count) == c + Drop(c, count - 1) && Drop(c, count - 1) == c + Drop(c, count - 2)
    ensures Drop(c, count - 1) >= 0
  {
  }

  /** After `i` periods the angle is `n` units of two to the minus `k`, which is a float32. */
  predicate Reached(i: nat, n: int, p: nat, k: nat)
  {
    && p == Pow2(k) && Descend(MAX_ABS_RAD, i) == At(n, p)
    && At(n, p) <= MAX_ABS_RAD && Single(At(n, p)) == At(n, p)
  }

  /** One phase; the result is counted in half units. */
  lemma Go(i: nat, n: int, c: int, count: nat, p: nat, k: nat)
    requires Reached(i, n, p, k)
    requires Abs(c as real - Units(MIN_STEP, p)) < 0.5
             || (Abs(c as real - Units(MIN_STEP, p)) == 0.5 && n % 2 == 0 && c % 2 == 0)
    requires n as real - Units(MIN_STEP, p) < 16777216.0 && c > 0
    requires (n - Drop(c, count - 1)) as real - Units(MIN_STEP, p) >= 8388608.0
    ensures Reached(i + count, 2 * (n - Drop(c, count)), 2 * p, k + 1)
  {
    hide Round, Descend, At, Units, Drop;
    DescendMore(MAX_ABS_RAD, i, count);
    Phase(n, c, count, p, k);
    AtFiner(n - Drop(c, count), p, 2);
  }

  lemma Starts(p: nat, k: nat)
    requires k == 25 && p == 33554432
    ensures Reached(0, 16777216, p, k)
  {
    hide Pow2, Round;
    PowOf23And24(23);
    PowAdd(23, 2);
    PowOf2(2);
    HalfIsExact();
  }

  lemma PowOf2(n: nat)
    requires n == 2
    ensures Pow2(n) == 4
  {
  }

  lemma SlowDescent()
    ensures Reached(499, 17229474, 17179869184, 34)
  {
    hide Reached;
    Starts(33554432, 25);
    Go(0, 16777216, 33554, 250, 33554432, 25);
    Go(250, 16777432, 67109, 125, 67108864, 26);
    Go(375, 16777614, 134218, 62, 134217728, 27);
    Go(437, 16912196, 268435, 31, 268435456, 28);
    Go(468, 17181422, 536871, 16, 536870912, 29);
    Go(484, 17182972, 1073742, 8, 1073741824, 30);
    Go(492, 17186072, 2147484, 4, 2147483648, 31);
    Go(496, 17192272, 4294968, 2, 4294967296, 32);
    Go(498, 17204672, 8589935, 1, 8589934592, 33);
  }

  lemma Finer(i: nat, n: int, p: nat, k: nat)
    requires Reached(i, n, p, k)
    ensures Reached(i, n * 256, p * 256, k + 8)
  {
    hide Descend, At, Round, Pow2;
    AtFiner(n, p, 256);
    PowOf8(8);
    PowAdd(k, 8);
  }

  lemma OneMore(i: nat, n: int, n': int, p: nat, k: nat)
    requires Reached(i, n, p, k) && 8388608.0 <= n as real - Units(MIN_STEP, p) < 16777216.0
    requires Nearest(n', n as real - Units(MIN_STEP, p)) && n' > 0
    ensures Descend(MAX_ABS_RAD, i + 1) > 0.0
  {
    hide At, Round, Pow2, Units, Nearest, Slowest;
    StepInUnits(n, n', p, k);
    DescendMore(MAX_ABS_RAD, i, 1);
    assert Descend(Slowest(At(n, p)), 0) == Slowest(At(n, p));
    AtPositive(n', p);
  }

  lemma AtPositive(n: int, p: nat)
    requires n > 0 && p > 0
    ensures At(n, p) > 0.0
  {
  }

  lemma PowOf8(n: nat)
    requires n == 8
    ensures Pow2(n) == 256
  {
  }

  /** In float32, 500 periods at the smallest step do not center the wheel from the limit. */
  lemma NotCenteredAfter500()
    ensures Descend(MAX_ABS_RAD, 500) > 0.0
  {
    hide Reached, Descend, Pow2;
    SlowDescent();
    Finer(499, 17229474, 17179869184, 34);
    OneMore(499, 4410745344, 12698624, 4398046511104, 42);
  }

  // ---------------------------------------------------------------- such a run

  /** Periods at a clock that advances by one millisecond each. */
  function EveryMs(from: u32, count: nat): (es: seq<Event>)
    requires from + count < TWO32
    ensures Periods(es) == count
    decreases count
  {
    if count == 0 then [] else
      var rest := EveryMs(from + 1, count - 1);
      assert ([Period(from + 1)] + rest)[1..] == rest;
      [Period(from + 1)] + rest
  }

  lemma OneMsIsSmallest(s: State, nowMs: u32)
    requires s.maxRate == 1.0 && Wrap32(nowMs - s.lastApplyMs) == 1
    ensures MaxStepSingle(s, nowMs) == MIN_STEP
  {
    hide Round;
    OneIsExact(0);
    LiteralsAreSingle();
    RoundIdempotent(0.001, 24);
    assert s.maxRate * MIN_STEP == MIN_STEP;
    assert Single(1 as real) / 1000.0 == 0.001;
  }

  lemma OneIsExact(e: int)
    requires e == 0
    ensures Single(1.0) == 1.0
  {
    hide Round;
    PowerIsExact(e, 24);
  }

  lemma {:induction false} LatchedDescends(s: State, from: u32, count: nat)
    requires Latched(s) && s.maxRate == 1.0 && s.lastApplyMs == from && from + count < TWO32
    ensures QuietSingle(s, EveryMs(from, count))
    ensures ExecSingle(s, EveryMs(from, count)).applied == Descend(s.applied, count)
    decreases count
  {
    hide MaxStepSingle, AdvanceSingle, WatchdogFires;
    if count == 0 {
    } else {
      OneMsIsSmallest(s, from + 1);
      var rest := EveryMs(from + 1, count - 1);
      assert EveryMs(from, count)[1..] == rest;
      LatchedDescends(RunOnceSingle(s, from + 1), from + 1, count - 1);
    }
  }

  const HALF: u32 := 0x3F00_0000

  lemma ValueOfHalf(p: u32, exponent: nat)
    requires p == HALF && exponent == 126
    ensures Value(p) == Fin(0.5)
  {
    ValueOfFields(p, exponent, p - exponent * 0x80_0000);
    assert Scale(exponent - 127) == 0.5;
  }

  /** Half a radian, at a rate of one radian a second. */
  function HardLeft(): seq<byte> { PackSteering(0, 0, HALF, ONE, 0, true, false) }

  /** The command arrives and is carried out, then nothing arrives any more. */
  function LostLink(): seq<Event> { [Packet(HardLeft(), 1024), Period(1024), Period(1224)] }

  lemma AcceptKeepsClock(s: State, p: seq<byte>, nowMs: u32)
    ensures Accept(s, p, nowMs).0.lastApplyMs == s.lastApplyMs && Accept(s, p, nowMs).0.applied == s.applied
  {
    hide WellFormed, CommandValid;
  }

  lemma HardLeftAccepted(s: State)
    requires s == Boot(0)
    ensures var t := Accept(s, HardLeft(), 1024).0;
            && t.initialized && t.lastPacketMs == 1024 && t.lastApplyMs == 0
            && t.target == MAX_ABS_RAD && t.maxRate == 1.0 && t.applied == 0.0
  {
    hide Accept, PackSteering, Value;
    ValueOfHalf(HALF, 126);
    ValueOfOne(ONE, 127);
    AcceptKeepsClock(s, HardLeft(), 1024);
    HpscRoundTrip(s, 0, 0, HALF, ONE, 0, true, false, 1024);
  }

  lemma LongPeriodArrives(s: State)
    requires s.initialized && s.lastPacketMs == 1024 && s.lastApplyMs == 0
    requires s.target == MAX_ABS_RAD && s.maxRate == 1.0 && s.applied == 0.0
    ensures RunOnceSingle(s, 1024) == s.(lastApplyMs := 1024, applied := MAX_ABS_RAD)
  {
    hide Round;
    var step := MaxStepSingle(s, 1024);
    LongStep(s, 10);
    HalfIsExact();
  }

  lemma LongStep(s: State, e: int)
    requires s.lastApplyMs == 0 && s.maxRate == 1.0 && e == 10
    ensures MaxStepSingle(s, 1024) >= 1.0
  {
    hide Round;
    PowOf10(10);
    ScaleOf10(e);
    PowerIsExact(e, 24);
    OneIsExact(0);
    RoundMonotone(1.0, 1.024, 24);
    RoundMonotone(1.0, s.maxRate * Single(1.024), 24);
    assert Single(1024 as real) / 1000.0 == 1.024;
  }

  lemma PowOf10(n: nat)
    requires n == 10
    ensures Pow2(n) == 1024
  {
  }

  lemma ScaleOf10(e: int)
    requires e == 10
    ensures Scale(e) == 1024.0
  {
    hide Scale;
    ScaleAdd(0, e);
    PowOf10(10);
    ScaleOfZero(0);
  }

  lemma Holds(s: State)
    requires s.initialized && s.lastPacketMs == 1024 && s.target == MAX_ABS_RAD && s.applied == MAX_ABS_RAD
    ensures RunOnceSingle(s, 1224) == s.(lastApplyMs := 1224)
  {
    hide Round, MaxStepSingle;
    HalfIsExact();
    assert MaxStepSingle(s, 1224) >= MIN_STEP;
  }

  lemma LostLinkLeaves()
    ensures var b := ExecSingle(Boot(0), LostLink());
            && b.lastPacketMs == 1024 && b.lastApplyMs == 1224 && b.initialized
            && b.maxRate == 1.0 && b.applied == MAX_ABS_RAD
  {
    hide Accept, RunOnceSingle;
    var es := LostLink();
    var s1 := StepSingle(Boot(0), es[0]);
    HardLeftAccepted(Boot(0));
    LongPeriodArrives(s1);
    var s2 := RunOnceSingle(s1, 1024);
    Holds(s2);
    assert es[1..] == [Period(1024), Period(1224)] && es[1..][1..] == [Period(1224)] && es[1..][1..][1..] == [];
  }

  /** A run from boot in which 500 periods, the one in which the watchdog fires included, do not
      center the wheel. */
  lemma FiveHundredPeriodsAreNotEnough()
    ensures var b := ExecSingle(Boot(0), LostLink());
            var s := RunOnceSingle(b, 1225);
            && WatchdogFires(b, 1225) && QuietSingle(s, EveryMs(1225, 499))
            && 1 + Periods(EveryMs(1225, 499)) == 500
            && ExecSingle(s, EveryMs(1225, 499)).applied > 0.0
  {
    hide ExecSingle, QuietSingle, MaxStepSingle, AdvanceSingle, EveryMs, Descend;
    LostLinkLeaves();
    var b := ExecSingle(Boot(0), LostLink());
    OneMsIsSmallest(b, 1225);
    LatchedDescends(RunOnceSingle(b, 1225), 1225, 499);
    FirstStep(500);
    NotCenteredAfter500();
  }

  lemma FirstStep(count: nat)
    requires count > 0
    ensures Descend(MAX_ABS_RAD, count) == Descend(Slowest(MAX_ABS_RAD), count - 1)
  {
    hide Slowest;
  }
}

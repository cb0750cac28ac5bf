/** IEEE 754 rounding to nearest, ties to even, to a number of significant bits: 53 for the
    doubles of Python, 24 for `float32`. The exponent range is unbounded. */
module Rounding {
  import opened Words
  import opened Float32

  // ---------------------------------------------------------------- powers of two

  lemma ScaleNext(e: int)
    ensures Scale(e + 1) == 2.0 * Scale(e)
  {
    if e >= 0 {
      assert Scale(e + 1) == 2.0 * Scale(e + 1 - 1);
    } else {
      assert Scale(e) == Scale(e + 1) / 2.0;
    }
  }

  lemma ScaleOfZero(e: int)
    requires e == 0
    ensures Scale(e) == 1.0
  {
  }

  lemma {:induction false} ScaleMonotone(e: int, f: int)
    requires e <= f
    ensures Scale(e) <= Scale(f)
    decreases f - e
  {
    if e == f {
    } else {
      ScaleNext(f - 1);
      ScaleMonotone(e, f - 1);
    }
  }

  function Times(n: int, u: real): real { n as real * u }

  lemma {:induction false} ScaleAdd(e: int, n: nat)
    ensures Scale(e + n) == Times(Pow2(n), Scale(e))
  {
    if n == 0 {
    } else {
      ScaleAdd(e, n - 1);
      ScaleNext(e + n - 1);
      TimesTwice(Pow2(n - 1), Scale(e));
    }
  }

  lemma TimesTwice(n: int, u: real)
    ensures Times(2 * n, u) == 2.0 * Times(n, u)
  {
  }

  /** The power of two below `x`. */
  function Exponent(x: real): (e: int)
    requires x > 0.0
    ensures Scale(e) <= x < Scale(e + 1)
    decreases if x >= 2.0 then x.Floor else if x < 1.0 then (1.0 / x).Floor else 0
  {
    if x >= 2.0 then
      var e := Exponent(x / 2.0);
      ScaleNext(e);
      ScaleNext(e + 1);
      e + 1
    else if x < 1.0 then
      InverseHalves(x);
      var e := Exponent(2.0 * x);
      ScaleNext(e - 1);
      ScaleNext(e);
      e - 1
    else
      ScaleNext(0);
      0
  }

  lemma InverseHalves(x: real)
    requires 0.0 < x < 1.0
    ensures (1.0 / x).Floor >= 1
    ensures 2.0 * x < 1.0 ==> 0 <= (1.0 / (2.0 * x)).Floor < (1.0 / x).Floor
  {
    var y := 1.0 / x;
    assert y * x == 1.0;
    assert y > 1.0;
    if 2.0 * x < 1.0 {
      assert 1.0 / (2.0 * x) == y / 2.0;
      assert y > 2.0;
    }
  }

  lemma ExponentIs(x: real, e: int)
    requires x > 0.0 && Scale(e) <= x < Scale(e + 1)
    ensures Exponent(x) == e
  {
    var f := Exponent(x);
    if f < e { ScaleMonotone(f + 1, e); }
    if e < f { ScaleMonotone(e + 1, f); }
  }

  // ---------------------------------------------------------------- nearest multiple

  function NearestEven(q: real): (n: int)
    ensures Abs(n as real - q) <= 0.5
  {
    var f := q.Floor;
    var r := q - f as real;
    if r < 0.5 then f else if r > 0.5 then f + 1 else if f % 2 == 0 then f else f + 1
  }

  lemma NearestEvenMonotone(p: real, q: real)
    requires p <= q
    ensures NearestEven(p) <= NearestEven(q)
  {
    if p.Floor < q.Floor {
      assert p.Floor + 1 <= q.Floor;
    }
  }

  lemma NearestEvenOfInteger(n: int)
    ensures NearestEven(n as real) == n
  {
  }

  /** The unit in the last place of numbers of the size of `x`. */
  function Unit(x: real, bits: nat): (u: real)
    requires x > 0.0
    ensures u > 0.0
  {
    Scale(Exponent(x) + 1 - bits)
  }

  function Positive(x: real, bits: nat): real
    requires x > 0.0
  {
    Times(NearestEven(x / Unit(x, bits)), Unit(x, bits))
  }

  function Round(x: real, bits: nat): real
  {
    if x == 0.0 then 0.0 else if x > 0.0 then Positive(x, bits) else -Positive(-x, bits)
  }

  function Double(x: real): real { Round(x, 53) }

  function Single(x: real): real { Round(x, 24) }

  lemma RoundOdd(x: real, bits: nat)
    ensures Round(-x, bits) == -Round(x, bits)
  {
  }

  // ---------------------------------------------------------------- what rounding keeps

  lemma TimesMonotone(n: int, m: int, u: real)
    requires n <= m && u >= 0.0
    ensures Times(n, u) <= Times(m, u)
  {
    assert (m - n) as real * u >= 0.0;
  }

  lemma TimesStrict(n: int, m: int, u: real)
    requires n < m && u > 0.0
    ensures Times(n, u) < Times(m, u)
  {
    assert (m - n) as real * u > 0.0;
  }

  lemma QuotientMonotone(x: real, y: real, u: real)
    requires x <= y && u > 0.0
    ensures x / u <= y / u
  {
    assert (y - x) / u >= 0.0;
    assert (y - x) / u == y / u - x / u;
  }

  lemma QuotientOfTimes(n: int, u: real)
    requires u > 0.0
    ensures Times(n, u) / u == n as real
  {
  }

  /** A power of two is a whole multiple of every smaller one. */
  lemma UnitDivides(e: int, bits: nat)
    requires bits >= 1
    ensures Scale(e) == Times(Pow2(bits - 1), Scale(e + 1 - bits))
    ensures Scale(e + 1) == Times(Pow2(bits), Scale(e + 1 - bits))
  {
    hide Scale, Pow2, Times;
    ScaleAdd(e + 1 - bits, bits - 1);
    ScaleAdd(e + 1 - bits, bits);
  }

  lemma PositiveInBinade(x: real, bits: nat)
    requires x > 0.0 && bits >= 1
    ensures Pow2(bits - 1) <= NearestEven(x / Unit(x, bits)) <= Pow2(bits)
    ensures Scale(Exponent(x)) <= Positive(x, bits) <= Scale(Exponent(x) + 1)
  {
    hide Exponent, Scale, Pow2, NearestEven, Times;
    var e, u := Exponent(x), Unit(x, bits);
    var lo, hi := Pow2(bits - 1), Pow2(bits);
    UnitDivides(e, bits);
    QuotientMonotone(Scale(e), x, u);
    QuotientMonotone(x, Scale(e + 1), u);
    QuotientOfTimes(lo, u);
    QuotientOfTimes(hi, u);
    NearestEvenMonotone(lo as real, x / u);
    NearestEvenMonotone(x / u, hi as real);
    NearestEvenOfInteger(lo);
    NearestEvenOfInteger(hi);
    TimesMonotone(lo, NearestEven(x / u), u);
    TimesMonotone(NearestEven(x / u), hi, u);
  }

  lemma PositiveMonotone(x: real, y: real, bits: nat)
    requires 0.0 < x <= y && bits >= 1
    ensures Positive(x, bits) <= Positive(y, bits)
  {
    hide Scale, NearestEven, Times;
    if Exponent(x) == Exponent(y) {
      var u := Unit(x, bits);
      QuotientMonotone(x, y, u);
      NearestEvenMonotone(x / u, y / u);
      TimesMonotone(NearestEven(x / u), NearestEven(y / u), u);
    } else {
      ExponentMonotone(x, y);
      PositiveInBinade(x, bits);
      PositiveInBinade(y, bits);
      ScaleMonotone(Exponent(x) + 1, Exponent(y));
    }
  }

  lemma ExponentMonotone(x: real, y: real)
    requires 0.0 < x <= y
    ensures Exponent(x) <= Exponent(y)
  {
    if Exponent(y) < Exponent(x) { ScaleMonotone(Exponent(y) + 1, Exponent(x)); }
  }

  lemma PositiveIsPositive(x: real, bits: nat)
    requires x > 0.0 && bits >= 1
    ensures Positive(x, bits) > 0.0
  {
    PositiveInBinade(x, bits);
  }

  /** Rounding keeps the order. */
  lemma RoundMonotone(x: real, y: real, bits: nat)
    requires x <= y && bits >= 1
    ensures Round(x, bits) <= Round(y, bits)
  {
    hide Positive;
    if x > 0.0 {
      PositiveMonotone(x, y, bits);
    } else if y < 0.0 {
      PositiveMonotone(-y, -x, bits);
    } else {
      if x < 0.0 { PositiveIsPositive(-x, bits); }
      if y > 0.0 { PositiveIsPositive(y, bits); }
    }
  }

  /** A multiple of the unit that is inside the binade is exact. */
  lemma ExactIs(x: real, n: nat, e: int, bits: nat)
    requires bits >= 1 && Pow2(bits - 1) <= n < Pow2(bits) && x == Times(n, Scale(e + 1 - bits))
    ensures x > 0.0 && Exponent(x) == e && Round(x, bits) == x
  {
    hide Scale, Pow2, NearestEven, Exponent, Times;
    var u := Scale(e + 1 - bits);
    UnitDivides(e, bits);
    TimesMonotone(Pow2(bits - 1), n, u);
    TimesStrict(n, Pow2(bits), u);
    ExponentIs(x, e);
    QuotientOfTimes(n, u);
    NearestEvenOfInteger(n);
  }

  /** `n` is the whole number to which `q` is rounded. */
  predicate Nearest(n: int, q: real)
  {
    Abs(n as real - q) < 0.5 || (Abs(n as real - q) == 0.5 && n % 2 == 0)
  }

  lemma NearestEvenIs(q: real, n: int)
    requires Nearest(n, q)
    ensures NearestEven(q) == n
  {
  }

  /** Rounding inside a known binade. */
  lemma RoundNear(x: real, n: int, e: int, bits: nat)
    requires bits >= 1 && Scale(e) <= x < Scale(e + 1) && Nearest(n, x / Scale(e + 1 - bits))
    ensures x > 0.0 && Round(x, bits) == Times(n, Scale(e + 1 - bits))
  {
    hide Scale, NearestEven, Exponent, Times, Nearest;
    ExponentIs(x, e);
    NearestEvenIs(x / Scale(e + 1 - bits), n);
  }

  /** What is rounded is representable: rounding again changes nothing. */
  lemma RoundIdempotent(x: real, bits: nat)
    requires bits >= 1
    ensures Round(Round(x, bits), bits) == Round(x, bits)
  {
    hide Positive;
    if x > 0.0 {
      PositiveIdempotent(x, bits);
    } else if x < 0.0 {
      PositiveIdempotent(-x, bits);
      PositiveIsPositive(-x, bits);
    }
  }

  lemma PositiveIdempotent(x: real, bits: nat)
    requires x > 0.0 && bits >= 1
    ensures Round(Positive(x, bits), bits) == Positive(x, bits)
  {
    hide Scale, Pow2, NearestEven, Exponent, Times, Round;
    var e := Exponent(x);
    var n := NearestEven(x / Unit(x, bits));
    PositiveInBinade(x, bits);
    if n < Pow2(bits) {
      ExactIs(Positive(x, bits), n, e, bits);
    } else {
      PowerIsExact(e + 1, bits);
      UnitDivides(e, bits);
    }
  }

  lemma PowerIsExact(e: int, bits: nat)
    requires bits >= 1
    ensures Round(Scale(e), bits) == Scale(e)
  {
    hide Scale, Pow2, Times, Round;
    UnitDivides(e, bits);
    PowGrows(bits);
    ExactIs(Scale(e), Pow2(bits - 1), e, bits);
  }

  lemma PowGrows(n: nat)
    requires n >= 1
    ensures Pow2(n - 1) < Pow2(n)
  {
  }

  /** The error is at most half a unit. */
  lemma RoundError(x: real, bits: nat)
    requires x > 0.0
    ensures Abs(Round(x, bits) - x) <= Unit(x, bits) / 2.0
  {
    hide NearestEven, Unit;
    ScaledError(x / Unit(x, bits), NearestEven(x / Unit(x, bits)), Unit(x, bits));
    assert x / Unit(x, bits) * Unit(x, bits) == x;
  }

  lemma ScaledError(q: real, n: int, u: real)
    requires u > 0.0 && Abs(n as real - q) <= 0.5
    ensures Abs(Times(n, u) - q * u) <= u / 2.0
  {
    assert Times(n, u) - q * u == (n as real - q) * u;
    NotNegative(0.5 - (n as real - q), u);
    NotNegative(0.5 + (n as real - q), u);
  }

  lemma NotNegative(x: real, u: real)
    requires x >= 0.0 && u >= 0.0
    ensures x * u >= 0.0
  {
  }

  /** Up to one, an error of at most half of two to the minus `bits`. */
  lemma ErrorBelowOne(x: real, bits: nat)
    requires Abs(x) <= 1.0 && bits >= 1
    ensures Abs(Round(x, bits) - x) <= Scale(0 - bits) / 2.0
  {
    hide Positive;
    if x > 0.0 {
      PositiveErrorBelowOne(x, bits);
    } else if x < 0.0 {
      PositiveErrorBelowOne(-x, bits);
    }
  }

  lemma PositiveErrorBelowOne(x: real, bits: nat)
    requires 0.0 < x <= 1.0 && bits >= 1
    ensures Abs(Round(x, bits) - x) <= Scale(0 - bits) / 2.0
  {
    hide Round;
    if x == 1.0 {
      PowerIsExact(0, bits);
    } else {
      RoundError(x, bits);
      if Exponent(x) >= 0 { ScaleMonotone(0, Exponent(x)); }
      ScaleMonotone(Exponent(x) + 1 - bits, 0 - bits);
    }
  }
}

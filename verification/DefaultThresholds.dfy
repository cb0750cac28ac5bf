/** The thresholds of the AEB configuration as shipped, in the double arithmetic of the
    controller, against ranges in tenths of a centimetre. */
module DefaultThresholds {
  import opened Words
  import opened Float32
  import opened Rounding

  /** `value / 1000.0` of the packed range. */
  function Metres(cmX10: u16): real { Double(cmX10 as real / 1000.0) }

  lemma Apart(x: real, y: real)
    requires 0.0 <= x && x + 0.0005 <= y <= 1.0
    ensures Double(x) < Double(y)
  {
    hide Round;
    ErrorBelowOne(x, 53);
    ErrorBelowOne(y, 53);
    Half2048();
    ScaleMonotone(-53, -11);
  }

  lemma Half2048()
    ensures Scale(-11) == 1.0 / 2048.0
  {
    ScaleAdd(-11, 11);
    assert Pow2(11) == 2048;
  }

  /** A limit that is a whole number of tenths of a centimetre separates exactly there. */
  lemma LimitInMillimetres(cmX10: u16, limit: u16)
    requires limit < 1000
    ensures Metres(cmX10) <= Double(limit as real / 1000.0) <==> cmX10 <= limit
  {
    hide Round;
    if cmX10 <= limit {
      RoundMonotone(cmX10 as real / 1000.0, limit as real / 1000.0, 53);
    } else {
      Apart(limit as real / 1000.0, (limit + 1) as real / 1000.0);
      RoundMonotone((limit + 1) as real / 1000.0, cmX10 as real / 1000.0, 53);
    }
  }

  lemma PowOf11()
    ensures Pow2(11) == 2048
  {
  }

  lemma PowOf55(n: nat)
    requires n == 55
    ensures Pow2(n) == 36028797018963968
  {
    hide Pow2;
    PowOf11();
    PowAdd(11, 11);
    PowAdd(22, 22);
    PowAdd(44, 11);
  }

  lemma UnitBelowQuarter(n: nat) returns (u: real)
    requires n == 55
    ensures u == Scale(0 - n) && u * 36028797018963968.0 == 1.0
    ensures Scale(-3) == 0.125 && Scale(-2) == 0.25
  {
    assert Scale(-3) == 0.125 && Scale(-2) == 0.25;
    hide Scale;
    u := Scale(0 - n);
    ScaleAdd(0 - n, n);
    PowOf55(n);
    ScaleOfZero(0);
  }

  /** Between an eighth and a quarter doubles are whole multiples of two to the minus 55. */
  lemma DoubleBelowQuarter(x: real, u: real, e: int)
    requires 0.125 <= x < 0.25 && e == -55
    requires u == Scale(e) && u * 36028797018963968.0 == 1.0 && Scale(-3) == 0.125 && Scale(-2) == 0.25
    ensures Double(x) == Times(NearestEven(x * 36028797018963968.0), u)
  {
    hide Scale, NearestEven, Times;
    ExponentIs(x, -3);
    assert x / u == x * 36028797018963968.0;
  }

  lemma FiveQuarters(n: int, u: real)
    requires u * 36028797018963968.0 == 1.0
    ensures Times(n, u) * 1.25 * 36028797018963968.0 == n as real * 1.25
  {
    assert Times(n, u) * 1.25 * 36028797018963968.0 == n as real * 1.25 * (u * 36028797018963968.0);
  }

  lemma NearestUnits()
    ensures NearestEven(0.18 * 36028797018963968.0) == 6485183463413514
    ensures NearestEven(8106479329266892.5) == 8106479329266892
    ensures NearestEven(0.225 * 36028797018963968.0) == 8106479329266893
  {
  }

  lemma PersonLimitInUnits(n: nat)
    requires n == 55
    ensures Double(Double(0.18) * 1.25) < Double(0.225)
  {
    hide Scale, Round, Times, NearestEven;
    var u := UnitBelowQuarter(n);
    NearestUnits();
    DoubleBelowQuarter(0.18, u, 0 - n);
    FiveQuarters(6485183463413514, u);
    var x := Double(0.18) * 1.25;
    InUnits(x, 8106479329266892.5);
    DoubleBelowQuarter(x, u, 0 - n);
    DoubleBelowQuarter(0.225, u, 0 - n);
    TimesStrict(8106479329266892, 8106479329266893, u);
  }

  lemma InUnits(x: real, n: real)
    requires x * 36028797018963968.0 == n && n == 8106479329266892.5
    ensures 0.125 <= x < 0.25
  {
  }

  /** With a person in path the full-brake limit is 0.18 * 1.25 in doubles, a unit below 0.225. */
  lemma PersonLimitBelow225()
    ensures Double(Double(0.18) * 1.25) < Double(0.225)
  {
    PersonLimitInUnits(55);
  }

  /** So a range of 225 is not within it, although 0.18 * 1.25 is 0.225 exactly. */
  lemma PersonLimit(cmX10: u16)
    ensures Metres(cmX10) <= Double(Double(0.18) * 1.25) <==> cmX10 < 225
  {
    hide Round;
    if cmX10 >= 225 {
      PersonLimitBelow225();
      RoundMonotone(0.225, cmX10 as real / 1000.0, 53);
    } else {
      RoundMonotone(cmX10 as real / 1000.0, 0.224, 53);
      ErrorBelowOne(0.18, 53);
      Half2048();
      ScaleMonotone(-53, -11);
      RoundMonotone(0.224, Double(0.18) * 1.25, 53);
    }
  }

  // ---------------------------------------------------------------- the partial brake with a person

  lemma PowOf54(n: nat)
    requires n == 54
    ensures Pow2(n) == 18014398509481984
  {
    hide Pow2;
    PowOf55(n + 1);
    assert Pow2(n + 1) == 2 * Pow2(n) by { PowTwice(n); }
  }

  lemma PowTwice(n: nat)
    ensures Pow2(n + 1) == 2 * Pow2(n)
  {
  }

  lemma UnitBelowHalf(n: nat) returns (u: real)
    requires n == 54
    ensures u == Scale(0 - n) && u * 18014398509481984.0 == 1.0
    ensures Scale(-2) == 0.25 && Scale(-1) == 0.5
  {
    assert Scale(-2) == 0.25 && Scale(-1) == 0.5;
    hide Scale;
    u := Scale(0 - n);
    ScaleAdd(0 - n, n);
    PowOf54(n);
    ScaleOfZero(0);
  }

  lemma DoubleBelowHalf(x: real, n: int, u: real, e: int)
    requires 0.25 <= x < 0.5 && e == -54 && Nearest(n, x * 18014398509481984.0)
    requires u == Scale(e) && u * 18014398509481984.0 == 1.0 && Scale(-2) == 0.25 && Scale(-1) == 0.5
    ensures Double(x) == Times(n, u)
  {
    hide Scale, Nearest, Times;
    assert x / u == x * 18014398509481984.0;
    RoundNear(x, n, -2, 53);
  }

  lemma QuarterMore(n: int, u: real)
    requires u * 18014398509481984.0 == 1.0
    ensures Times(n, u) * 1.25 * 18014398509481984.0 == n as real * 1.25
  {
    assert Times(n, u) * 1.25 * 18014398509481984.0 == n as real * 1.25 * (u * 18014398509481984.0);
  }

  lemma PartialInUnits(n: nat)
    requires n == 54
    ensures Double(Double(0.3) * 1.25) == Double(0.375)
  {
    hide Scale, Round, Times;
    var u := UnitBelowHalf(n);
    DoubleBelowHalf(0.3, 5404319552844595, u, 0 - n);
    QuarterMore(5404319552844595, u);
    var x := Double(0.3) * 1.25;
    PartialRange(x, 6755399441055743.75);
    DoubleBelowHalf(x, 6755399441055744, u, 0 - n);
    DoubleBelowHalf(0.375, 6755399441055744, u, 0 - n);
  }

  lemma PartialRange(x: real, n: real)
    requires x * 18014398509481984.0 == n && n == 6755399441055743.75
    ensures 0.25 <= x < 0.5
  {
  }

  /** 0.3 * 1.25 in doubles is 0.375, although 0.3 is not exact: this limit includes 37.5 cm. */
  lemma PartialLimit(cmX10: u16)
    ensures Metres(cmX10) <= Double(Double(0.3) * 1.25) <==> cmX10 <= 375
  {
    hide Round;
    PartialInUnits(54);
    LimitInMillimetres(cmX10, 375);
  }
}

/** The largest float32, which the firmware's finiteness test excludes. */
module LargestFloat {
  import opened Words
  import opened Float32
  import opened Rounding
  import opened FrontState

  const LARGEST: u32 := 0x7F7F_FFFF

  lemma PowOf104(n: nat)
    requires n == 104
    ensures Pow2(n) == 20282409603651670423947251286016
  {
    hide Pow2;
    PowOf13();
    PowAdd(13, 13);
    PowAdd(26, 26);
    PowAdd(52, 52);
  }

  lemma PowOf13()
    ensures Pow2(13) == 8192
  {
  }

  lemma PowOf127(n: nat)
    requires n == 127
    ensures Pow2(n) == 170141183460469231731687303715884105728
  {
    hide Pow2;
    PowOf104(104);
    PowOf23();
    PowAdd(104, 23);
  }

  lemma PowOf23()
    ensures Pow2(23) == 8388608
  {
    hide Pow2;
    PowOf13();
    PowOf10();
    PowAdd(10, 13);
  }

  lemma PowOf10()
    ensures Pow2(10) == 1024
  {
  }

  lemma ScaleOf127(e: int)
    requires e == 127
    ensures Scale(e) == 170141183460469231731687303715884105728.0
  {
    hide Scale;
    ScaleAdd(0, e);
    PowOf127(e);
    ScaleOfZero(0);
  }

  /** Below the top binade everything is smaller than its lower end. */
  lemma BelowTopBinade(exponent: nat, part: real)
    requires exponent < 254 && 0.0 <= part < 1.0
    ensures var v := if exponent == 0 then part * Scale(exponent - 126) else (1.0 + part) * Scale(exponent - 127);
            0.0 <= v < Scale(127)
  {
    hide Scale;
    if exponent == 0 {
      ScaleMonotone(-126, 127);
      Smaller(part, 1.0, Scale(exponent - 126));
    } else {
      ScaleNext(exponent - 127);
      ScaleMonotone(exponent - 126, 127);
      Smaller(1.0 + part, 2.0, Scale(exponent - 127));
    }
  }

  lemma Smaller(x: real, limit: real, u: real)
    requires 0.0 <= x < limit && u > 0.0
    ensures 0.0 <= x * u < limit * u
  {
    assert (limit - x) * u > 0.0;
    NotNegative(x, u);
  }

  /** Among the patterns of finite floats without sign bit exactly one stands for the largest. */
  lemma OnlyOneIsLargest(p: u32)
    requires p < 0x7F80_0000
    ensures Value(p).Fin? && 0.0 <= Value(p).v <= FLT_MAX && (Value(p).v == FLT_MAX <==> p == LARGEST)
  {
    hide Value, Scale;
    var exponent, fraction := p / 0x80_0000, p % 0x80_0000;
    ValueOfFields(p, exponent, fraction);
    ScaleOf127(127);
    if exponent < 254 {
      BelowTopBinade(exponent, fraction as real / 8388608.0);
    } else {
      assert exponent == 254 && p == 254 * 0x80_0000 + fraction;
      TopBinade(fraction);
    }
  }

  lemma TopBinade(fraction: nat)
    requires fraction < 0x80_0000
    ensures var v := (1.0 + fraction as real / 8388608.0) * 170141183460469231731687303715884105728.0;
            0.0 <= v <= FLT_MAX && (v == FLT_MAX <==> fraction == 0x7F_FFFF)
  {
  }

  /** So the firmware takes every finite non-negative float for finite but this one. */
  lemma OnlyLargestIsRefused(p: u32)
    requires p < 0x7F80_0000
    ensures IsFiniteFloat(Value(p)) <==> p != LARGEST
  {
    hide Value;
    OnlyOneIsLargest(p);
  }
}

/** IEEE 754 single precision, as the packets carry it: 32-bit patterns and the value each
    stands for. Control code computes with the values as exact reals. */
module Float32 {
  import opened Words

  datatype Float = NaN | Inf(negative: bool) | Fin(v: real)

  /** Two to the power `x`. */
  function Scale(x: int): (r: real)
    ensures r > 0.0
    decreases if x < 0 then -x else x
  {
    if x == 0 then 1.0 else if x > 0 then 2.0 * Scale(x - 1) else Scale(x + 1) / 2.0
  }

  function Value(pattern: u32): Float
  {
    var negative := pattern >= 0x8000_0000;
    var exponent := pattern / 0x80_0000 % 0x100;
    var fraction := pattern % 0x80_0000;
    var part := fraction as real / 8388608.0;
    if exponent == 255 then
      if fraction == 0 then Inf(negative) else NaN
    else
      var magnitude := if exponent == 0 then part * Scale(exponent - 126) else (1.0 + part) * Scale(exponent - 127);
      Fin(if negative then -magnitude else magnitude)
  }

  const ZERO: u32 := 0
  const ONE: u32 := 0x3F80_0000
  const TWO: u32 := 0x4000_0000
  const THREE: u32 := 0x4040_0000

  lemma ValueOfFields(p: u32, exponent: nat, fraction: nat)
    requires exponent < 255 && fraction < 0x80_0000 && p == exponent * 0x80_0000 + fraction
    ensures var part := fraction as real / 8388608.0;
            Value(p) == Fin(if exponent == 0 then part * Scale(exponent - 126)
                            else (1.0 + part) * Scale(exponent - 127))
  {
    assert p / 0x80_0000 == exponent && p % 0x80_0000 == fraction;
  }

  lemma ValueOfZero(p: u32)
    requires p == ZERO
    ensures Value(p) == Fin(0.0)
  {
    ValueOfFields(p, p, p);
  }

  lemma ValueOfOne(p: u32, exponent: nat)
    requires p == ONE && exponent == 127
    ensures Value(p) == Fin(1.0)
  {
    ValueOfFields(p, exponent, p - exponent * 0x80_0000);
  }

  lemma ValueOfTwo(p: u32, exponent: nat)
    requires p == TWO && exponent == 128
    ensures Value(p) == Fin(2.0)
  {
    ValueOfFields(p, exponent, p - exponent * 0x80_0000);
    ScaleStep(exponent - 127);
  }

  lemma ValueOfThree(p: u32, exponent: nat, fraction: nat)
    requires p == THREE && exponent == 128 && fraction == 0x40_0000
    ensures Value(p) == Fin(3.0)
  {
    ValueOfFields(p, exponent, fraction);
    ScaleStep(exponent - 127);
  }

  lemma ScaleStep(x: int)
    requires x == 1
    ensures Scale(x) == 2.0
  {
    assert Scale(x - 1) == 1.0;
  }

  const INFINITY: u32 := 0x7F80_0000
  const MINUS_INFINITY: u32 := 0xFF80_0000

  lemma InfinitePatterns(p: u32)
    ensures Value(p).Inf? <==> p == INFINITY || p == MINUS_INFINITY
  {
    var high, fraction := p / 0x80_0000, p % 0x80_0000;
    assert p == 0x80_0000 * high + fraction;
  }

  /** The pattern of the negated number: the sign bit flipped. */
  function Negate(pattern: u32): u32
  {
    if pattern >= 0x8000_0000 then pattern - 0x8000_0000 else pattern + 0x8000_0000
  }

  lemma NegateFields(pattern: u32)
    ensures Negate(pattern) / 0x80_0000 % 0x100 == pattern / 0x80_0000 % 0x100
    ensures Negate(pattern) % 0x80_0000 == pattern % 0x80_0000
  {
    var high, low := pattern / 0x80_0000, pattern % 0x80_0000;
    assert pattern == 0x80_0000 * high + low;
    if pattern >= 0x8000_0000 {
      assert Negate(pattern) == 0x80_0000 * (high - 0x100) + low;
    } else {
      assert Negate(pattern) == 0x80_0000 * (high + 0x100) + low;
    }
  }

  lemma NegateValue(pattern: u32)
    ensures Value(pattern).Fin? ==> Value(Negate(pattern)) == Fin(-Value(pattern).v)
  {
    NegateFields(pattern);
  }

  /** `a < b`, `a <= b` and so on in C and Python are false as soon as one side is NaN. */
  predicate Less(a: Float, b: real)
  {
    match a
    case NaN => false
    case Inf(negative) => negative
    case Fin(v) => v < b
  }

  predicate Greater(a: Float, b: real)
  {
    match a
    case NaN => false
    case Inf(negative) => !negative
    case Fin(v) => v > b
  }

  predicate AtLeast(a: Float, b: real) { Greater(a, b) || a == Fin(b) }

  predicate AtMost(a: Float, b: real) { Less(a, b) || a == Fin(b) }

  /** Python's `a > b` on floats. */
  predicate Above(a: Float, b: Float)
  {
    match b
    case NaN => false
    case Inf(negative) => negative && !a.NaN? && a != b
    case Fin(v) => Greater(a, v)
  }

  function Clamp(x: real, lo: real, hi: real): real
  {
    if x < lo then lo else if x > hi then hi else x
  }

  function Abs(x: real): real { if x < 0.0 then -x else x }

  function Max(x: real, y: real): real { if x < y then y else x }

  function Min(x: real, y: real): real { if y < x then y else x }
}

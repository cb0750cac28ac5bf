/** Which CRC it is: the remainder of a division of polynomials over GF(2), with the generator of
    section 8 of RFC 1952. A polynomial is the sequence of its coefficients, highest power first. */
module CrcPolynomial {
  import opened Words
  import opened Crc32

  predicate Exponent(e: int) { e in {32, 26, 23, 22, 16, 12, 11, 10, 8, 7, 5, 4, 2, 1, 0} }

  const DEGREE: nat := 32

  function Generator(): (g: seq<bit>)
    ensures |g| == DEGREE + 1
  {
    seq(DEGREE + 1, i => if Exponent(DEGREE - i) then 1 else 0)
  }

  /** The polynomial zero, with 32 coefficients. */
  function Zero(): (z: seq<bit>)
    ensures |z| == DEGREE
  {
    seq(DEGREE, i => 0)
  }

  function Inverted(p: seq<bit>): (q: seq<bit>)
    ensures |q| == |p|
  {
    seq(|p|, i requires 0 <= i < |p| => 1 - p[i])
  }

  function Sum(a: bit, b: bit): bit { if a == b then 0 else 1 }

  /** The sum with `b` at the highest powers of `p`. */
  function PlusFirst(p: seq<bit>, b: seq<bit>): (s: seq<bit>)
    requires |b| <= |p|
    ensures |s| == |p|
  {
    seq(|p|, i requires 0 <= i < |p| => if i < |b| then Sum(p[i], b[i]) else p[i])
  }

  /** The sum with `r` at the lowest powers of `p`. */
  function PlusLast(p: seq<bit>, r: seq<bit>): (s: seq<bit>)
    requires |r| <= |p|
    ensures |s| == |p|
  {
    var n := |p| - |r|;
    seq(|p|, i requires 0 <= i < |p| => if i >= n then Sum(p[i], r[i - n]) else p[i])
  }

  /** A step of the product, on the product of the rest. */
  function Stepped(first: bit, rest: seq<bit>): (p: seq<bit>)
    requires |rest| >= DEGREE
    ensures |p| == |rest| + 1
  {
    if first == 1 then PlusFirst([0] + rest, Generator()) else [0] + rest
  }

  /** The product of `q` and the generator. */
  function TimesGenerator(q: seq<bit>): (p: seq<bit>)
    ensures |p| == |q| + DEGREE
  {
    if q == [] then Zero()
    else
      Stepped(q[0], TimesGenerator(q[1..]))
  }

  /** `p` is `q` times the generator plus `r`, and `r` has a lower degree than the generator. */
  predicate Divides(p: seq<bit>, q: seq<bit>, r: seq<bit>)
  {
    |r| == DEGREE && |p| == |q| + DEGREE && p == PlusLast(TimesGenerator(q), r)
  }

  // ---------------------------------------------------------------- long division

  function Reduced(p: seq<bit>): (r: seq<bit>)
    requires |p| > DEGREE
    ensures |r| == |p| - 1
  {
    if p[0] == 1 then PlusFirst(p, Generator())[1..] else p[1..]
  }

  function Remainder(p: seq<bit>): (r: seq<bit>)
    requires |p| >= DEGREE
    ensures |r| == DEGREE
    decreases |p|
  {
    if |p| == DEGREE then p else Remainder(Reduced(p))
  }

  function Quotient(p: seq<bit>): (q: seq<bit>)
    requires |p| >= DEGREE
    ensures |q| == |p| - DEGREE
    decreases |p|
  {
    if |p| == DEGREE then [] else [p[0]] + Quotient(Reduced(p))
  }

  lemma FirstAt(p: seq<bit>, b: seq<bit>, i: nat)
    requires |b| <= |p| && i < |p|
    ensures PlusFirst(p, b)[i] == if i < |b| then Sum(p[i], b[i]) else p[i]
  {
  }

  lemma LastAt(p: seq<bit>, r: seq<bit>, i: nat)
    requires |r| <= |p| && i < |p|
    ensures PlusLast(p, r)[i] == if i < |p| - |r| then p[i] else Sum(p[i], r[i - (|p| - |r|)])
  {
  }

  lemma LeadingOne()
    ensures Generator()[0] == 1
  {
  }

  lemma SteppedAt(first: bit, rest: seq<bit>, i: nat)
    requires DEGREE <= |rest| && i < |rest|
    ensures Stepped(first, rest)[i + 1]
         == if first == 1 && i < DEGREE then Sum(rest[i], Generator()[i + 1]) else rest[i]
  {
    hide Generator, Sum, PlusFirst;
    FirstAt([0] + rest, Generator(), i + 1);
  }

  lemma ReducedAt(p: seq<bit>, i: nat)
    requires |p| > DEGREE && i < |p| - 1
    ensures Reduced(p)[i] == if p[0] == 1 && i < DEGREE then Sum(p[i + 1], Generator()[i + 1]) else p[i + 1]
  {
    hide Generator, Sum, PlusFirst;
    FirstAt(p, Generator(), i + 1);
  }

  lemma SteppedFirst(first: bit, rest: seq<bit>, r: seq<bit>)
    requires |r| == DEGREE <= |rest|
    ensures PlusLast(Stepped(first, rest), r)[0] == first
  {
    hide Generator;
    LeadingOne();
  }

  /** One step of the division takes away one step of the product. */
  lemma StepUndone(first: bit, rest: seq<bit>, r: seq<bit>)
    requires |r| == DEGREE <= |rest|
    ensures Reduced(PlusLast(Stepped(first, rest), r)) == PlusLast(rest, r)
  {
    hide Generator, Stepped, Reduced, PlusLast;
    SteppedFirst(first, rest, r);
    var p := PlusLast(Stepped(first, rest), r);
    forall i | 0 <= i < |rest| ensures Reduced(p)[i] == PlusLast(rest, r)[i] {
      SteppedAt(first, rest, i);
      ReducedAt(p, i);
      LastAt(Stepped(first, rest), r, i + 1);
      LastAt(rest, r, i);
    }
  }

  /** And the other way round. */
  lemma StepRedone(p: seq<bit>, rest: seq<bit>, r: seq<bit>)
    requires |r| == DEGREE <= |rest| && |p| == |rest| + 1 && Reduced(p) == PlusLast(rest, r)
    ensures p == PlusLast(Stepped(p[0], rest), r)
  {
    hide Generator, Stepped, Reduced, PlusLast;
    SteppedFirst(p[0], rest, r);
    var t := PlusLast(Stepped(p[0], rest), r);
    forall i | 0 <= i < |p| ensures p[i] == t[i] {
      if i > 0 {
        SteppedAt(p[0], rest, i - 1);
        ReducedAt(p, i - 1);
        LastAt(Stepped(p[0], rest), r, i);
        LastAt(rest, r, i - 1);
      }
    }
  }

  /** The remainder is unique. */
  lemma {:induction false} RemainderIsUnique(p: seq<bit>, q: seq<bit>, r: seq<bit>)
    requires Divides(p, q, r)
    ensures r == Remainder(p) && q == Quotient(p)
    decreases |q|
  {
    hide PlusLast, Stepped, Reduced;
    if q == [] {
      PlusNothing(r);
    } else {
      var rest := TimesGenerator(q[1..]);
      SteppedFirst(q[0], rest, r);
      StepUndone(q[0], rest, r);
      RemainderIsUnique(Reduced(p), q[1..], r);
      assert q == [q[0]] + q[1..];
    }
  }

  lemma PlusNothing(r: seq<bit>)
    requires |r| == DEGREE
    ensures PlusLast(TimesGenerator([]), r) == r
  {
  }

  /** And long division finds it. */
  lemma {:induction false} DivisionWorks(p: seq<bit>)
    requires |p| >= DEGREE
    ensures Divides(p, Quotient(p), Remainder(p))
    decreases |p|
  {
    hide PlusLast, Stepped, Reduced;
    if |p| == DEGREE {
      PlusNothing(p);
    } else {
      var q := Quotient(Reduced(p));
      DivisionWorks(Reduced(p));
      StepRedone(p, TimesGenerator(q), Remainder(p));
      assert ([p[0]] + q)[1..] == q;
    }
  }

  // ---------------------------------------------------------------- the register

  lemma SumIsParity(a: nat, b: nat)
    ensures Sum(a % 2, b % 2) == (a + b) % 2
  {
  }

  lemma {:induction false} BitsOfXor(a: nat, b: nat, k: nat)
    ensures BitsOf(Xor(a, b), k) == PlusFirst(BitsOf(a, k), BitsOf(b, k))
  {
    hide Xor, BitsOf, Sum, PlusFirst;
    if k == 0 {
      PlusNone(BitsOf(a, k), BitsOf(b, k));
    } else {
      XorHalf(a, b);
      BitsOfXor(a / 2, b / 2, k - 1);
      SumIsParity(a, b);
      BitsOfNext(a, k);
      BitsOfNext(b, k);
      BitsOfNext(Xor(a, b), k);
      PlusFront(a % 2, b % 2, BitsOf(a / 2, k - 1), BitsOf(b / 2, k - 1));
    }
  }

  lemma BitsOfNext(n: nat, k: nat)
    requires k > 0
    ensures BitsOf(n, k) == [n % 2] + BitsOf(n / 2, k - 1)
  {
  }

  lemma PlusNone(p: seq<bit>, b: seq<bit>)
    requires p == b == []
    ensures PlusFirst(p, b) == []
  {
  }

  lemma PlusFront(x: bit, y: bit, p: seq<bit>, b: seq<bit>)
    requires |p| == |b|
    ensures PlusFirst([x] + p, [y] + b) == [Sum(x, y)] + PlusFirst(p, b)
  {
    hide Sum;
  }

  lemma {:induction false} BitsOfSmall(n: nat, k: nat)
    requires n < Pow2(k)
    ensures BitsOf(n, k + 1) == BitsOf(n, k) + [0]
  {
    if k == 0 {
      assert BitsOf(n / 2, 0) == [];
    } else {
      BitsOfSmall(n / 2, k - 1);
    }
  }

  lemma WordOfEight(s: seq<bit>)
    requires |s| >= 8
    ensures Word(s) == s[0] + 2 * s[1] + 4 * s[2] + 8 * s[3] + 16 * s[4] + 32 * s[5] + 64 * s[6] + 128 * s[7]
                       + 256 * Word(s[8..])
  {
    WordOfFour(s);
    WordOfFour(s[4..]);
    assert s[4..][4..] == s[8..];
  }

  lemma WordOfFour(s: seq<bit>)
    requires |s| >= 4
    ensures Word(s) == s[0] + 2 * s[1] + 4 * s[2] + 8 * s[3] + 16 * Word(s[4..])
  {
    assert s[1..][1..] == s[2..] && s[2..][1..] == s[3..] && s[3..][1..] == s[4..];
    assert Word(s[2..]) == s[2] + 2 * Word(s[3..]);
    assert Word(s[1..]) == s[1] + 2 * Word(s[2..]);
  }

  lemma {:induction false} BitsOfWord(s: seq<bit>)
    ensures BitsOf(Word(s), |s|) == s
  {
    if s == [] {
    } else {
      BitsOfWord(s[1..]);
    }
  }

  /** The firmware's constant is the generator without its highest power, read backwards. */
  lemma PolyIsGenerator()
    ensures BitsOf(POLY, 32) == Generator()[1..]
  {
    hide Word, Generator, WordOfOctet;
    var g := Generator()[1..];
    Coefficients(g);
    FourParts(g);
    OctetsOf(g[..8], g[8..16], g[16..24], g[24..32]);
    ConstantOctets();
    BitsOfWord(g);
  }

  lemma FourParts(g: seq<bit>)
    requires |g| == 32
    ensures g == g[..8] + (g[8..16] + (g[16..24] + g[24..32]))
  {
    assert g[16..] == g[16..24] + g[24..32];
    assert g[8..] == g[8..16] + g[16..];
    assert g == g[..8] + g[8..];
  }

  lemma ConstantOctets()
    ensures WordOfOctet([0, 0, 0, 0, 0, 1, 0, 0]) == 0x20 && WordOfOctet([1, 1, 0, 0, 0, 0, 0, 1]) == 0x83
    ensures WordOfOctet([0, 0, 0, 1, 1, 1, 0, 1]) == 0xB8 && WordOfOctet([1, 0, 1, 1, 0, 1, 1, 1]) == 0xED
  {
  }

  /** The coefficients in octets: 0x20, 0x83, 0xB8 and 0xED, lowest bit first. */
  lemma Coefficients(g: seq<bit>)
    requires g == Generator()[1..]
    ensures g[..8] == [0, 0, 0, 0, 0, 1, 0, 0] && g[8..16] == [1, 1, 0, 0, 0, 0, 0, 1]
    ensures g[16..24] == [0, 0, 0, 1, 1, 1, 0, 1] && g[24..32] == [1, 0, 1, 1, 0, 1, 1, 1]
  {
    forall i | 0 <= i < 32 ensures g[i] == if Exponent(31 - i) then 1 else 0 {
      assert g[i] == Generator()[i + 1];
    }
    assert Exponent(26) && Exponent(23) && Exponent(22) && Exponent(16) && Exponent(12) && Exponent(11) && Exponent(10);
    assert Exponent(8) && Exponent(7) && Exponent(5) && Exponent(4) && Exponent(2) && Exponent(1) && Exponent(0);
  }

  lemma OctetsOf(a: seq<bit>, b: seq<bit>, c: seq<bit>, d: seq<bit>)
    requires |a| == |b| == |c| == |d| == 8
    ensures Word(a + (b + (c + d)))
         == WordOfOctet(a) + 0x100 * WordOfOctet(b) + 0x1_0000 * WordOfOctet(c) + 0x100_0000 * WordOfOctet(d)
  {
    hide Word, WordOfOctet;
    Pow2Of32();
    WordConcat(a, b + (c + d));
    WordConcat(b, c + d);
    WordConcat(c, d);
    WordIsOctet(a);
    WordIsOctet(b);
    WordIsOctet(c);
    WordIsOctet(d);
  }

  function WordOfOctet(s: seq<bit>): nat
    requires |s| == 8
  {
    s[0] as int + 2 * s[1] as int + 4 * s[2] as int + 8 * s[3] as int
    + 16 * s[4] as int + 32 * s[5] as int + 64 * s[6] as int + 128 * s[7] as int
  }

  lemma WordIsOctet(s: seq<bit>)
    requires |s| == 8
    ensures Word(s) == WordOfOctet(s)
  {
    hide Word;
    WordOfEight(s);
    WordOfNone(s[8..]);
  }

  lemma WordOfNone(s: seq<bit>)
    requires s == []
    ensures Word(s) == 0
  {
  }

  /** Half the register, as the coefficients moved up by one power. */
  lemma BitsOfHalf(c: u32)
    ensures BitsOf(c / 2, 32) == BitsOf(c, 32)[1..] + [0]
  {
    Pow2Of32();
    BitsOfSmall(c / 2, 31);
  }

  /** One bit step is one step of the long division. */
  lemma StepIsDivision(c: u32, b: bit, rest: seq<bit>)
    requires |rest| >= 32
    ensures Reduced(PlusFirst([b] + rest, BitsOf(c, 32))) == PlusFirst(rest, BitsOf(BitStep(Xor32(c, b)), 32))
  {
    hide Xor, BitsOf, Generator, Reduced, PlusFirst, BitStep;
    var p, d := PlusFirst([b] + rest, BitsOf(c, 32)), Xor32(c, b);
    FirstOfSum(c, b);
    BitsOfHalf(c);
    FirstAt([b] + rest, BitsOf(c, 32), 0);
    forall i | 0 <= i < |rest| ensures Reduced(p)[i] == PlusFirst(rest, BitsOf(BitStep(d), 32))[i] {
      ReducedAt(p, i);
      FirstAt([b] + rest, BitsOf(c, 32), i + 1);
      FirstAt(rest, BitsOf(BitStep(d), 32), i);
      if i < 32 { RegisterAt(c, d, i); }
    }
  }

  lemma FirstOfSum(c: u32, b: bit)
    ensures Sum(b, BitsOf(c, 32)[0]) == Xor32(c, b) % 2 && Xor32(c, b) / 2 == c / 2
  {
    hide Xor;
    XorHalf(c, b);
    XorZero(c / 2);
    FirstBit(c);
    assert b / 2 == 0;
    SumIsParity(b, c);
  }

  lemma RegisterAt(c: u32, d: u32, i: nat)
    requires d / 2 == c / 2 && i < 32
    ensures var half := BitsOf(c / 2, 32)[i];
            BitsOf(BitStep(d), 32)[i] == if d % 2 != 0 then Sum(half, Generator()[i + 1]) else half
  {
    hide Xor, BitsOf, Generator, PlusFirst, Sum;
    if d % 2 != 0 {
      BitsOfXor(c / 2, POLY, 32);
      PolyIsGenerator();
      FirstAt(BitsOf(c / 2, 32), BitsOf(POLY, 32), i);
    }
  }

  lemma FirstBit(c: u32)
    ensures BitsOf(c, 32)[0] == c % 2
  {
  }

  lemma {:induction false} FeedIsRemainder(c: u32, message: seq<bit>)
    ensures BitsOf(Feed(c, message), 32) == Remainder(PlusFirst(message + Zero(), BitsOf(c, 32)))
    decreases |message|
  {
    hide BitsOf, BitStep, Reduced;
    if message == [] {
      assert PlusFirst([] + Zero(), BitsOf(c, 32)) == BitsOf(c, 32);
    } else {
      var b, rest := message[0], message[1..];
      assert message + Zero() == [b] + (rest + Zero());
      StepIsDivision(c, b, rest + Zero());
      FeedIsRemainder(BitStep(Xor32(c, b)), rest);
    }
  }

  lemma {:induction false} BitsOfOnes(n: nat, k: nat)
    requires n == Pow2(k) - 1
    ensures forall i :: 0 <= i < k ==> BitsOf(n, k)[i] == 1
  {
    if k == 0 {
    } else {
      BitsOfOnes(n / 2, k - 1);
    }
  }

  lemma {:induction false} BitsOfComplement(n: nat, k: nat)
    requires n < Pow2(k)
    ensures BitsOf(Pow2(k) - 1 - n, k) == Inverted(BitsOf(n, k))
  {
    if k == 0 {
    } else {
      BitsOfComplement(n / 2, k - 1);
      assert (Pow2(k) - 1 - n) / 2 == Pow2(k - 1) - 1 - n / 2 && (Pow2(k) - 1 - n) % 2 == 1 - n % 2;
    }
  }

  /** The dividend: the bits of the message, of every byte the lowest one first, times the 32nd
      power, and the first 32 coefficients inverted. */
  function Dividend(data: seq<byte>): (p: seq<bit>)
    ensures |p| == 8 * |data| + 32
  {
    var p := Bits(data) + Zero();
    Inverted(p[..32]) + p[32..]
  }

  /** The firmware's CRC, for every message: read from the lowest bit on, it is the inverted
      remainder of the division by the generator, and the only sequence that is. */
  lemma CrcIsRemainder(data: seq<byte>)
    ensures Divides(Dividend(data), Quotient(Dividend(data)), Inverted(BitsOf(Crc(data), 32)))
    ensures forall q, r :: Divides(Dividend(data), q, r) ==> BitsOf(Crc(data), 32) == Inverted(r)
  {
    hide BitsOf, Remainder, Divides, Quotient, State, Feed;
    Pow2Of32();
    BitsOfOnes(ONES, 32);
    var p, c := Bits(data) + Zero(), State(ONES, data);
    assert PlusFirst(p, BitsOf(ONES, 32)) == Dividend(data);
    StateFeed(ONES, data);
    FeedIsRemainder(ONES, Bits(data));
    BitsOfComplement(c, 32);
    var r := Remainder(Dividend(data));
    assert BitsOf(Crc(data), 32) == Inverted(r);
    assert Inverted(Inverted(r)) == r;
    DivisionWorks(Dividend(data));
    forall q, r' | Divides(Dividend(data), q, r') ensures r' == r {
      RemainderIsUnique(Dividend(data), q, r');
    }
  }
}

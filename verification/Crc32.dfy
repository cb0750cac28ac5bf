/** CRC-32 as in section 8 of RFC 1952: the bitwise loop of the FRONT firmware, and what the
    check detects. Every packet format of the vehicle (HPSC, MID2, HPAB) ends with it. */
module Crc32 {
  import opened Words
  import BV = BitVectors

  const POLY: u32 := 0xEDB8_8320
  const ONES: u32 := 0xFFFF_FFFF

  lemma Pow2Of32()
    ensures Pow2(32) == TWO32 && Pow2(31) == 0x8000_0000
    ensures Pow2(8) == 0x100 && Pow2(16) == 0x1_0000 && Pow2(24) == 0x100_0000
  {
    assert Pow2(8) == 0x100;
    assert Pow2(16) == 0x1_0000;
    assert Pow2(24) == 0x100_0000;
  }

  function Xor32(a: u32, b: u32): (r: u32)
    ensures r == Xor(a, b)
  {
    Pow2Of32();
    XorBound(a, b, 32);
    Xor(a, b)
  }

  /** Subtract the polynomial when the bit shifted out was set. */
  function Reduce(half: u32, odd: bool): u32
  {
    if odd then Xor32(half, POLY) else half
  }

  function BitStep(c: u32): u32 { Reduce(c / 2, c % 2 != 0) }

  function Run(c: u32, n: nat): u32
    decreases n
  {
    if n == 0 then c else Run(BitStep(c), n - 1)
  }

  function ByteStep(c: u32, b: byte): u32 { Run(Xor32(c, b), 8) }

  /** The register after the bytes of `data`, starting from `c`. */
  function State(c: u32, data: seq<byte>): u32
  {
    if data == [] then c else ByteStep(State(c, data[..|data| - 1]), data[|data| - 1])
  }

  function Crc(data: seq<byte>): u32 { ONES - State(ONES, data) }

  method Crc32Ieee(data: seq<byte>) returns (crc: u32)
    ensures crc == Crc(data)
  {
    crc := ONES;
    for index := 0 to |data|
      invariant crc == State(ONES, data[..index])
    {
      ghost var start := Xor32(crc, data[index]);
      crc := Xor32(crc, data[index]);
      for bit := 0 to 8
        invariant Run(crc, 8 - bit) == Run(start, 8)
      {
        crc := if crc % 2 != 0 then Xor32(crc / 2, POLY) else crc / 2;
      }
      assert data[..index + 1][..index] == data[..index];
    }
    assert data[..|data|] == data;
    crc := ONES - crc;
  }

  // ---------------------------------------------------------------- the register is invertible

  lemma BitStepInjective(a: u32, b: u32)
    requires BitStep(a) == BitStep(b)
    ensures a == b
  {
    Pow2Of32();
    XorTop(a / 2, POLY, 31);
    XorTop(b / 2, POLY, 31);
    if a % 2 != 0 && b % 2 != 0 { XorCancel(a / 2, b / 2, POLY); }
    HalvesDetermine(a, b);
  }

  lemma {:induction false} RunInjective(a: u32, b: u32, n: nat)
    requires Run(a, n) == Run(b, n)
    ensures a == b
    decreases n
  {
    if n == 0 {
    } else {
      RunInjective(BitStep(a), BitStep(b), n - 1);
      BitStepInjective(a, b);
    }
  }

  // ---------------------------------------------------------------- bit by bit

  function BitsOf(n: nat, k: nat): (bits: seq<bit>)
    ensures |bits| == k
  {
    if k == 0 then [] else [n % 2] + BitsOf(n / 2, k - 1)
  }

  function ByteBits(b: byte): (bits: seq<bit>)
    ensures |bits| == 8
  {
    BitsOf(b, 8)
  }

  /** The order in which the bits of a packet enter the register. */
  function Bits(data: seq<byte>): (bits: seq<bit>)
    ensures |bits| == 8 * |data|
  {
    if data == [] then [] else Bits(data[..|data| - 1]) + ByteBits(data[|data| - 1])
  }

  function Feed(c: u32, bits: seq<bit>): u32
    decreases |bits|
  {
    if bits == [] then c else Feed(BitStep(Xor32(c, bits[0])), bits[1..])
  }

  function Word(bits: seq<bit>): (w: nat)
    ensures w < Pow2(|bits|)
  {
    if bits == [] then 0 else bits[0] + 2 * Word(bits[1..])
  }

  lemma {:induction false} Pow2Monotone(m: nat, n: nat)
    requires m <= n
    ensures Pow2(m) <= Pow2(n)
  {
    if m == n {
    } else {
      Pow2Monotone(m, n - 1);
    }
  }

  function Word32(bits: seq<bit>): u32
    requires |bits| <= 32
  {
    Pow2Of32();
    Pow2Monotone(|bits|, 32);
    Word(bits)
  }

  /** Shifting a word in bit by bit is the same as adding all of it before the first step. */
  lemma BitStepXor(c: u32, b: bit, w: u32)
    requires 2 * w < TWO32
    ensures b + 2 * w < TWO32
    ensures BitStep(Xor32(c, b + 2 * w)) == Xor32(BitStep(Xor32(c, b)), w)
  {
    var x, z := Xor32(c, b + 2 * w), Xor32(c, b);
    XorLowBit(c, b, w);
    ReduceXor(c / 2, w, x % 2 != 0);
  }

  lemma XorLowBit(c: nat, b: bit, w: nat)
    ensures Xor(c, b + 2 * w) % 2 == Xor(c, b) % 2
    ensures Xor(c, b + 2 * w) / 2 == Xor(c / 2, w) && Xor(c, b) / 2 == c / 2
  {
    var v := b + 2 * w;
    assert v / 2 == w && (c + v) % 2 == (c + b) % 2;
    XorHalf(c, v);
    XorHalf(c, b);
    XorZero(c / 2);
  }

  lemma ReduceXor(h: u32, w: u32, odd: bool)
    ensures Reduce(Xor32(h, w), odd) == Xor32(Reduce(h, odd), w)
  {
    XorSwap(h, w, POLY);
  }

  lemma {:induction false} FeedWord(c: u32, bits: seq<bit>)
    requires |bits| <= 32
    ensures Feed(c, bits) == Run(Xor32(c, Word32(bits)), |bits|)
    decreases |bits|
  {
    if bits == [] {
      XorZero(c);
    } else {
      var b, rest := bits[0], bits[1..];
      Pow2Of32();
      Pow2Monotone(|rest|, 31);
      BitStepXor(c, b, Word32(rest));
      FeedWord(BitStep(Xor32(c, b)), rest);
    }
  }

  lemma {:induction false} FeedConcat(c: u32, a: seq<bit>, b: seq<bit>)
    ensures Feed(c, a + b) == Feed(Feed(c, a), b)
    decreases |a|
  {
    if a == [] {
      assert a + b == b;
    } else {
      assert (a + b)[1..] == a[1..] + b;
      FeedConcat(BitStep(Xor32(c, a[0])), a[1..], b);
    }
  }

  lemma {:induction false} FeedInjective(c: u32, d: u32, bits: seq<bit>)
    requires Feed(c, bits) == Feed(d, bits)
    ensures c == d
    decreases |bits|
  {
    if bits == [] {
    } else {
      FeedInjective(BitStep(Xor32(c, bits[0])), BitStep(Xor32(d, bits[0])), bits[1..]);
      BitStepInjective(Xor32(c, bits[0]), Xor32(d, bits[0]));
      XorCancel(c, d, bits[0]);
    }
  }

  lemma {:induction false} WordInjective(a: seq<bit>, b: seq<bit>)
    requires |a| == |b| && Word(a) == Word(b)
    ensures a == b
  {
    if a == [] {
    } else {
      WordInjective(a[1..], b[1..]);
      assert a == [a[0]] + a[1..] && b == [b[0]] + b[1..];
    }
  }

  lemma {:induction false} WordOfBits(n: nat, k: nat)
    requires n < Pow2(k)
    ensures Word(BitsOf(n, k)) == n
  {
    if k == 0 {
    } else {
      assert BitsOf(n, k)[1..] == BitsOf(n / 2, k - 1);
      WordOfBits(n / 2, k - 1);
    }
  }

  lemma WordOfByte(b: byte)
    ensures Word(ByteBits(b)) == b
  {
    Pow2Of32();
    WordOfBits(b, 8);
  }

  lemma {:induction false} WordConcat(a: seq<bit>, b: seq<bit>)
    ensures Word(a + b) == Word(a) + Pow2(|a|) * Word(b)
  {
    if a == [] {
      assert a + b == b;
    } else {
      var p, w := Pow2(|a| - 1), Word(b);
      assert (a + b)[1..] == a[1..] + b;
      WordConcat(a[1..], b);
      DoubleProduct(p, w);
    }
  }

  lemma DoubleProduct(p: nat, w: nat)
    ensures 2 * (p * w) == (2 * p) * w
  {
  }

  lemma {:induction false} StateFeed(c: u32, data: seq<byte>)
    ensures State(c, data) == Feed(c, Bits(data))
  {
    if data == [] {
    } else {
      var init, last := data[..|data| - 1], data[|data| - 1];
      StateFeed(c, init);
      FeedConcat(c, Bits(init), ByteBits(last));
      FeedWord(State(c, init), ByteBits(last));
      WordOfByte(last);
    }
  }

  lemma {:induction false} BitsConcat(a: seq<byte>, b: seq<byte>)
    ensures Bits(a + b) == Bits(a) + Bits(b)
  {
    if b == [] {
      assert a + b == a;
    } else {
      assert (a + b)[..|a + b| - 1] == a + b[..|b| - 1];
      BitsConcat(a, b[..|b| - 1]);
    }
  }

  lemma SameParts(x: seq<bit>, u: seq<bit>, y: seq<bit>, v: seq<bit>)
    requires |x| == |y| && x + u == y + v
    ensures x == y && u == v
  {
    assert x == (x + u)[..|x|] && y == (y + v)[..|x|];
    assert u == (x + u)[|x|..] && v == (y + v)[|x|..];
  }

  lemma {:induction false} BitsInjective(a: seq<byte>, b: seq<byte>)
    requires |a| == |b| && Bits(a) == Bits(b)
    ensures a == b
  {
    if a == [] {
    } else {
      var n := |a| - 1;
      SameParts(Bits(a[..n]), ByteBits(a[n]), Bits(b[..n]), ByteBits(b[n]));
      BitsInjective(a[..n], b[..n]);
      WordOfByte(a[n]);
      WordOfByte(b[n]);
      assert a == a[..n] + [a[n]] && b == b[..n] + [b[n]];
    }
  }

  // ---------------------------------------------------------------- in numbers

  /** The firmware's loop body on bit vectors. */
  function Shifted(c: bv32): bv32 { if c & 1 != 0 then (c >> 1) ^ 0xEDB8_8320 else c >> 1 }

  function EightTimes(c: bv32): bv32 { Shifted(Shifted(Shifted(Shifted(Shifted(Shifted(Shifted(Shifted(c)))))))) }

  lemma PolyInNumbers()
    ensures BV.Number(0xEDB8_8320) == POLY && BV.Number(0xFFFF_FFFF) == ONES
  {
    hide BV.Number;
    BV.NumberOfOctets(0xEDB8_8320);
    BV.NumberOfOctets(0xFFFF_FFFF);
  }

  lemma ShiftedIsBitStep(c: bv32)
    ensures BV.Number(Shifted(c)) == BitStep(BV.Number(c))
  {
    hide BV.Number, Xor;
    PolyInNumbers();
    BV.NumberOfShift(c);
    BV.NumberOfXor(c >> 1, 0xEDB8_8320);
  }

  lemma EightTimesIsRun(c: bv32)
    ensures BV.Number(EightTimes(c)) == Run(BV.Number(c), 8)
  {
    hide BV.Number, Shifted, BitStep;
    var c1 := Shifted(c);
    var c2 := Shifted(c1);
    var c3 := Shifted(c2);
    var c4 := Shifted(c3);
    var c5 := Shifted(c4);
    var c6 := Shifted(c5);
    var c7 := Shifted(c6);
    ShiftedIsBitStep(c);
    ShiftedIsBitStep(c1);
    ShiftedIsBitStep(c2);
    ShiftedIsBitStep(c3);
    ShiftedIsBitStep(c4);
    ShiftedIsBitStep(c5);
    ShiftedIsBitStep(c6);
    ShiftedIsBitStep(c7);
  }

  lemma {:induction false} RunMore(c: u32, m: nat, n: nat)
    ensures Run(c, m + n) == Run(Run(c, m), n)
    decreases m
  {
    if m == 0 {
    } else {
      RunMore(BitStep(c), m - 1, n);
    }
  }

  /** All ones over the 32 bits of a right CRC end in the residue of the standard. */
  lemma ResidueInNumbers()
    ensures Run(ONES, 32) == 0xDEBB_20E3
  {
    hide BV.Number, Run, EightTimes;
    var c0: bv32 := 0xFFFF_FFFF;
    var c1 := EightTimes(c0);
    var c2 := EightTimes(c1);
    var c3 := EightTimes(c2);
    PolyInNumbers();
    EightTimesIsRun(c0);
    EightTimesIsRun(c1);
    EightTimesIsRun(c2);
    EightTimesIsRun(c3);
    RunMore(ONES, 24, 8);
    RunMore(ONES, 16, 8);
    RunMore(ONES, 8, 8);
    ResidueOnBits(c0);
    BV.NumberOfOctets(0xDEBB_20E3);
  }

  lemma ResidueOnBits(c: bv32)
    requires c == 0xFFFF_FFFF
    ensures EightTimes(EightTimes(EightTimes(EightTimes(c)))) == 0xDEBB_20E3
  {
  }

  lemma NextByte(data: seq<byte>, all: seq<byte>, c: bv32, v: bv32, next: bv32)
    requires State(ONES, data) == BV.Number(c) && v >> 8 == 0 && all == data + [BV.Octet(v)]
    requires EightTimes(c ^ v) == next
    ensures State(ONES, all) == BV.Number(next)
  {
    hide BV.Number, BV.Octet, EightTimes, Run;
    BV.NumberOfXor(c, v);
    SmallNumber(v);
    EightTimesIsRun(c ^ v);
    assert all[..|data|] == data;
  }

  function Digits(n: nat): (d: seq<byte>)
    requires n <= 9
    ensures |d| == n && forall i :: 0 <= i < n ==> d[i] == 0x31 + i
  {
    seq(n, i requires 0 <= i < 9 => 0x31 + i)
  }

  lemma NextDigit(n: nat, c: bv32, v: bv32, next: bv32)
    requires 1 <= n <= 9 && State(ONES, Digits(n - 1)) == BV.Number(c)
    requires v >> 8 == 0 && BV.Octet(v) == 0x30 + n && EightTimes(c ^ v) == next
    ensures State(ONES, Digits(n)) == BV.Number(next)
  {
    hide BV.Number, BV.Octet, EightTimes, State;
    NextByte(Digits(n - 1), Digits(n), c, v, next);
  }

  lemma SmallNumber(v: bv32)
    requires v >> 8 == 0
    ensures BV.Number(v) == BV.Octet(v)
  {
    hide BV.Number;
    assert v >> 16 == 0 && v >> 24 == 0;
    BV.NumberOfOctets(v);
  }

  /** The check value of the standard: the CRC of the digits 1 to 9 in ASCII. */
  lemma CheckValue()
    ensures Crc([0x31, 0x32, 0x33, 0x34, 0x35, 0x36, 0x37, 0x38, 0x39]) == 0xCBF4_3926
  {
    hide BV.Number, State, Digits;
    PolyInNumbers();
    assert State(ONES, Digits(0)) == ONES by { NoDigits(); }
    NextDigit(1, 0xFFFF_FFFF, 0x31, 0x7C23_1048);
    NextDigit(2, 0x7C23_1048, 0x32, 0xB0AC_BB32);
    NextDigit(3, 0xB0AC_BB32, 0x33, 0x77B7_9C2D);
    NextDigit(4, 0x77B7_9C2D, 0x34, 0x641C_1F5C);
    NextDigit(5, 0x641C_1F5C, 0x35, 0x340A_C5E3);
    NextDigit(6, 0x340A_C5E3, 0x36, 0xF68D_2C9E);
    NextDigit(7, 0xF68D_2C9E, 0x37, 0xAFFC_9660);
    NextDigit(8, 0xAFFC_9660, 0x38, 0x651F_2550);
    NextDigit(9, 0x651F_2550, 0x39, 0x340B_C6D9);
    BV.NumberOfOctets(0x340B_C6D9);
    assert Digits(9) == [0x31, 0x32, 0x33, 0x34, 0x35, 0x36, 0x37, 0x38, 0x39];
  }

  lemma NoDigits()
    ensures State(ONES, Digits(0)) == ONES
  {
  }

  // ---------------------------------------------------------------- burst errors

  /** Two bit strings that differ, and only inside the 32 positions from `at` on. */
  ghost predicate DifferInBurst(a: seq<bit>, b: seq<bit>, at: nat)
  {
    && |a| == |b| && a != b
    && forall i :: 0 <= i < |a| && !(at <= i < at + 32) ==> a[i] == b[i]
  }

  lemma BurstChangesRegister(c: u32, a: seq<bit>, b: seq<bit>, at: nat)
    requires DifferInBurst(a, b, at)
    ensures Feed(c, a) != Feed(c, b)
  {
    if |a| < at {
      assert false;
    } else {
      var end := if at + 32 <= |a| then at + 32 else |a|;
      assert a[..at] == b[..at] && a[end..] == b[end..];
      assert a == a[..at] + a[at..end] + a[end..] && b == b[..at] + b[at..end] + b[end..];
      BurstInTheMiddle(c, a[..at], a[at..end], b[at..end], a[end..]);
    }
  }

  lemma BurstInTheMiddle(c: u32, prefix: seq<bit>, x: seq<bit>, y: seq<bit>, suffix: seq<bit>)
    requires |x| == |y| <= 32 && x != y
    ensures Feed(c, prefix + x + suffix) != Feed(c, prefix + y + suffix)
  {
    if Feed(c, prefix + x + suffix) == Feed(c, prefix + y + suffix) {
      var d := Feed(c, prefix);
      FeedConcat(c, prefix + x, suffix);
      FeedConcat(c, prefix + y, suffix);
      FeedConcat(c, prefix, x);
      FeedConcat(c, prefix, y);
      FeedInjective(Feed(d, x), Feed(d, y), suffix);
      FeedWord(d, x);
      FeedWord(d, y);
      RunInjective(Xor32(d, Word32(x)), Xor32(d, Word32(y)), |x|);
      XorComm(d, Word(x));
      XorComm(d, Word(y));
      XorCancel(Word(x), Word(y), d);
      WordInjective(x, y);
      assert false;
    }
  }

  /** A message followed by its little-endian CRC, as every receiver checks it. */
  predicate Passes(frame: seq<byte>)
  {
    && 4 <= |frame|
    && U32Le(frame, |frame| - 4) == Crc(frame[..|frame| - 4])
  }

  /** A message with its CRC appended. */
  function Seal(body: seq<byte>): (frame: seq<byte>)
    ensures |frame| == |body| + 4
  {
    body + LE32(Crc(body))
  }

  lemma SealPasses(body: seq<byte>)
    ensures Passes(Seal(body)) && Seal(body)[..|body|] == body
  {
    LE32RoundTrip(Crc(body));
  }

  lemma SealedParts(header: seq<byte>, rest: seq<byte>)
    ensures var data := Seal(header + rest);
            && |data| == |header| + |rest| + 4 && Passes(data)
            && data[..|header|] == header && data[|header|..|data| - 4] == rest
  {
    SealPasses(header + rest);
  }

  lemma WordOfTail(t: seq<byte>)
    requires |t| == 4
    ensures Word(Bits(t)) == U32Le(t, 0)
  {
    Pow2Of32();
    var b0, b1, b2, b3 := ByteBits(t[0]), ByteBits(t[1]), ByteBits(t[2]), ByteBits(t[3]);
    assert Bits(t) == b0 + b1 + b2 + b3 by {
      assert t[..3][..2] == t[..2] && t[..2][..1] == t[..1] && t[..1][..0] == [];
      assert Bits(t[..1]) == [] + b0 == b0;
      assert Bits(t[..2]) == b0 + b1;
      assert Bits(t[..3]) == b0 + b1 + b2;
    }
    AppendByte(b0, t[1], 0x100);
    AppendByte(b0 + b1, t[2], 0x1_0000);
    AppendByte(b0 + b1 + b2, t[3], 0x100_0000);
    WordOfByte(t[0]);
  }

  lemma AppendByte(a: seq<bit>, b: byte, p: nat)
    requires p == Pow2(|a|)
    ensures Word(a + ByteBits(b)) == Word(a) + p * b
  {
    WordConcat(a, ByteBits(b));
    WordOfByte(b);
  }

  lemma XorIsOnes(c: nat, w: nat, k: nat)
    requires c < Pow2(k)
    ensures Xor(c, w) == Pow2(k) - 1 <==> w == Pow2(k) - 1 - c
  {
    var ones := Pow2(k) - 1;
    var d := Xor(c, ones);
    XorOnes(c, k);
    XorAssoc(c, c, ones);
    XorSelf(c);
    XorComm(0, ones);
    XorZero(ones);
    XorComm(c, w);
    XorComm(c, d);
    if Xor(c, w) == ones { XorCancel(w, d, c); }
  }

  lemma RegisterAfterCrc(frame: seq<byte>)
    requires 4 <= |frame|
    ensures Passes(frame) <==>
            Feed(ONES, Bits(frame)) == Run(ONES, |Bits(frame[|frame| - 4..])|)
  {
    var body, tail := frame[..|frame| - 4], frame[|frame| - 4..];
    var c, w, m := State(ONES, body), U32Le(tail, 0), |Bits(tail)|;
    assert Feed(ONES, Bits(frame)) == Run(Xor32(c, w), m) by {
      assert frame == body + tail;
      BitsConcat(body, tail);
      FeedConcat(ONES, Bits(body), Bits(tail));
      StateFeed(ONES, body);
      FeedWord(c, Bits(tail));
      WordOfTail(tail);
    }
    Pow2Of32();
    XorIsOnes(c, w, 32);
    if Run(Xor32(c, w), m) == Run(ONES, m) { RunInjective(Xor32(c, w), ONES, m); }
  }

  /** A frame passes exactly when the register ends in one fixed value, the same for every
      frame. */
  lemma PassesIsResidue(frame: seq<byte>)
    requires 4 <= |frame|
    ensures Passes(frame) <==> Feed(ONES, Bits(frame)) == 0xDEBB_20E3
  {
    hide Passes, Feed, Run, Bits;
    RegisterAfterCrc(frame);
    ResidueInNumbers();
  }

  /** Every error burst of at most 32 bits is detected, wherever it lies: in the message,
      in the appended CRC, or across the two. */
  lemma BurstDetected(sent: seq<byte>, received: seq<byte>, at: nat)
    requires Passes(sent) && DifferInBurst(Bits(sent), Bits(received), at)
    ensures !Passes(received)
  {
    assert |sent| == |received|;
    PassesIsResidue(sent);
    PassesIsResidue(received);
    BurstChangesRegister(ONES, Bits(sent), Bits(received), at);
  }

  /** In bytes: damage confined to four consecutive bytes is always detected. */
  lemma FourByteDamageDetected(prefix: seq<byte>, x: seq<byte>, y: seq<byte>, suffix: seq<byte>)
    requires |x| == |y| <= 4 && x != y
    requires Passes(prefix + x + suffix)
    ensures !Passes(prefix + y + suffix)
    ensures Crc(prefix + x + suffix) != Crc(prefix + y + suffix)
  {
    var s, r := prefix + x + suffix, prefix + y + suffix;
    BitsConcat(prefix + x, suffix);
    BitsConcat(prefix, x);
    BitsConcat(prefix + y, suffix);
    BitsConcat(prefix, y);
    if Bits(x) == Bits(y) { BitsInjective(x, y); }
    SpliceDiffers(Bits(prefix), Bits(x), Bits(y), Bits(suffix));
    BurstDetected(s, r, 8 * |prefix|);
    BurstChangesRegister(ONES, Bits(s), Bits(r), 8 * |prefix|);
    StateFeed(ONES, s);
    StateFeed(ONES, r);
  }

  lemma SpliceDiffers(prefix: seq<bit>, x: seq<bit>, y: seq<bit>, suffix: seq<bit>)
    requires |x| == |y| <= 32 && x != y
    ensures DifferInBurst(prefix + x + suffix, prefix + y + suffix, |prefix|)
  {
    var a, b := prefix + x + suffix, prefix + y + suffix;
    assert a[|prefix|..|prefix| + |x|] == x && b[|prefix|..|prefix| + |x|] == y;
  }

  // ---------------------------------------------------------------- linearity

  function XorBytes(a: seq<byte>, b: seq<byte>): (r: seq<byte>)
    requires |a| == |b|
    ensures |r| == |a|
  {
    seq(|a|, i requires 0 <= i < |a| => XorByte(a[i], b[i]))
  }

  function XorByte(a: byte, b: byte): (r: byte)
    ensures r == Xor(a, b)
  {
    assert Pow2(8) == 0x100;
    XorBound(a, b, 8);
    Xor(a, b)
  }

  lemma BitStepLinear(a: u32, b: u32)
    ensures BitStep(Xor32(a, b)) == Xor32(BitStep(a), BitStep(b))
  {
    var z := Xor32(a, b);
    XorHalf(a, b);
    ReduceLinear(a / 2, b / 2, a % 2 != 0, b % 2 != 0);
    OddSum(a, b, z);
  }

  lemma OddSum(a: nat, b: nat, z: nat)
    requires z % 2 == (a + b) % 2
    ensures (z % 2 != 0) == ((a % 2 != 0) != (b % 2 != 0))
  {
  }

  lemma ReduceLinear(x: u32, y: u32, s: bool, t: bool)
    ensures Reduce(Xor32(x, y), s != t) == Xor32(Reduce(x, s), Reduce(y, t))
  {
    if s && t {
      PolynomialTwice(x, y, POLY);
    } else if s {
      ReduceXor(x, y, true);
    } else if t {
      ReduceXor(y, x, true);
      XorComm(x, y);
      XorComm(x, Reduce(y, true));
    }
  }

  lemma PolynomialTwice(x: nat, y: nat, p: nat)
    ensures Xor(Xor(x, p), Xor(y, p)) == Xor(x, y)
  {
    XorInterchange(x, p, y, p);
    XorSelf(p);
    XorZero(Xor(x, y));
  }

  lemma {:induction false} RunLinear(a: u32, b: u32, n: nat)
    ensures Run(Xor32(a, b), n) == Xor32(Run(a, n), Run(b, n))
    decreases n
  {
    if n == 0 {
    } else {
      BitStepLinear(a, b);
      RunLinear(BitStep(a), BitStep(b), n - 1);
    }
  }

  lemma XorInterchange(a: nat, b: nat, x: nat, y: nat)
    ensures Xor(Xor(a, b), Xor(x, y)) == Xor(Xor(a, x), Xor(b, y))
  {
    XorAssoc(Xor(a, b), x, y);
    XorSwap(a, b, x);
    XorAssoc(Xor(a, x), b, y);
  }

  lemma {:induction false} StateLinear(c: u32, d: u32, a: seq<byte>, b: seq<byte>)
    requires |a| == |b|
    ensures State(Xor32(c, d), XorBytes(a, b)) == Xor32(State(c, a), State(d, b))
  {
    if a == [] {
    } else {
      var n := |a| - 1;
      assert XorBytes(a, b)[..n] == XorBytes(a[..n], b[..n]);
      StateLinear(c, d, a[..n], b[..n]);
      var s, t := State(c, a[..n]), State(d, b[..n]);
      XorInterchange(s, t, a[n], b[n]);
      RunLinear(Xor32(s, a[n]), Xor32(t, b[n]), 8);
    }
  }

  lemma CrcIsXorOfState(data: seq<byte>)
    ensures Crc(data) == Xor(State(ONES, data), ONES)
  {
    Pow2Of32();
    XorOnes(State(ONES, data), 32);
  }

  /** CRC-32 is affine: over equal-length messages the three-fold exclusive or commutes with it. */
  lemma CrcAffine(a: seq<byte>, b: seq<byte>, c: seq<byte>)
    requires |a| == |b| == |c|
    ensures Crc(XorBytes(XorBytes(a, b), c)) == Xor(Xor(Crc(a), Crc(b)), Crc(c))
  {
    var x, y, z := State(ONES, a), State(ONES, b), State(ONES, c);
    XorSelf(ONES);
    XorComm(0, ONES);
    XorZero(ONES);
    StateLinear(ONES, ONES, a, b);
    StateLinear(0, ONES, XorBytes(a, b), c);
    CrcIsXorOfState(a);
    CrcIsXorOfState(b);
    CrcIsXorOfState(c);
    CrcIsXorOfState(XorBytes(XorBytes(a, b), c));
    XorInterchange(x, ONES, y, ONES);
    XorZero(Xor(x, y));
    XorAssoc(Xor(x, y), z, ONES);
  }
}

/** The C operators on 32-bit words as the solver's own bit vectors, and the number each stands
    for. Constants are worked out on bit vectors; everything else is on numbers. */
module BitVectors {
  import opened Words

  function Low(a: bv32): bit { if a & 1 != 0 then 1 else 0 }

  function Half(a: bv32): bv32 { a >> 1 }

  function Plus(a: bv32, b: bv32): bv32 { a ^ b }

  /** The number of the lowest `k` bits. */
  function Bits(a: bv32, k: nat): nat
    decreases k
  {
    if k == 0 then 0 else Low(a) + 2 * Bits(Half(a), k - 1)
  }

  lemma BitsNone(a: bv32)
    ensures Bits(a, 0) == 0
  {
  }

  lemma BitsNext(a: bv32, k: nat)
    ensures Bits(a, k + 1) == Low(a) + 2 * Bits(Half(a), k)
  {
  }

  // ---------------------------------------------------------------- exclusive or

  lemma HalfPlus(a: bv32, b: bv32)
    ensures Half(Plus(a, b)) == Plus(Half(a), Half(b))
  {
  }

  lemma LowPlus(a: bv32, b: bv32)
    ensures Low(Plus(a, b)) == (Low(a) + Low(b)) % 2
  {
  }

  lemma XorOfParts(l: bit, m: bit, h: nat, g: nat)
    ensures (l + m) % 2 + 2 * Xor(h, g) == Xor(l + 2 * h, m + 2 * g)
  {
    hide Xor;
    XorHalf(l + 2 * h, m + 2 * g);
    assert (l + 2 * h) / 2 == h && (m + 2 * g) / 2 == g;
  }

  lemma {:induction false} BitsPlus(a: bv32, b: bv32, k: nat)
    ensures Bits(Plus(a, b), k) == Xor(Bits(a, k), Bits(b, k))
    decreases k
  {
    hide Low, Half, Plus, Xor, Bits;
    if k == 0 {
      XorZero(0);
      BitsNone(a);
      BitsNone(b);
      BitsNone(Plus(a, b));
    } else {
      BitsNext(a, k - 1);
      BitsNext(b, k - 1);
      BitsNext(Plus(a, b), k - 1);
      HalfPlus(a, b);
      LowPlus(a, b);
      BitsPlus(Half(a), Half(b), k - 1);
      XorOfParts(Low(a), Low(b), Bits(Half(a), k - 1), Bits(Half(b), k - 1));
    }
  }

  // ---------------------------------------------------------------- byte by byte

  function Nibble(a: bv32): nat { Low(a) + 2 * Low(a >> 1) + 4 * Low(a >> 2) + 8 * Low(a >> 3) }

  function Octet(a: bv32): byte { Nibble(a) + 16 * Nibble(a >> 4) }

  function Down8(a: bv32): bv32 { a >> 8 }

  lemma FourBits(a: bv32, k: nat)
    ensures Bits(a, k + 4) == Nibble(a) + 16 * Bits(a >> 4, k)
  {
    hide Low, Bits;
    assert (a >> 1) >> 1 == a >> 2 && (a >> 2) >> 1 == a >> 3 && (a >> 3) >> 1 == a >> 4;
    BitsNext(a, k + 3);
    BitsNext(a >> 1, k + 2);
    BitsNext(a >> 2, k + 1);
    BitsNext(a >> 3, k);
  }

  lemma EightBits(a: bv32, k: nat)
    ensures Bits(a, k + 8) == Octet(a) + 256 * Bits(Down8(a), k)
  {
    hide Bits, Nibble;
    FourBits(a, k + 4);
    FourBits(a >> 4, k);
    assert (a >> 4) >> 4 == a >> 8;
  }

  lemma FourOctets(a: bv32)
    ensures Bits(a, 32) == Octet(a) + 0x100 * Octet(a >> 8) + 0x1_0000 * Octet(a >> 16) + 0x100_0000 * Octet(a >> 24)
  {
    hide Bits, Octet;
    EightBits(a, 24);
    EightBits(a >> 8, 16);
    EightBits(a >> 16, 8);
    EightBits(a >> 24, 0);
    BitsNone(Down8(a >> 24));
    assert (a >> 8) >> 8 == a >> 16 && (a >> 16) >> 8 == a >> 24;
  }

  /** The word a bit vector stands for. */
  function Number(a: bv32): u32
  {
    FourOctets(a);
    Bits(a, 32)
  }

  lemma NumberOfOctets(a: bv32)
    ensures Number(a) == Octet(a) + 0x100 * Octet(a >> 8) + 0x1_0000 * Octet(a >> 16) + 0x100_0000 * Octet(a >> 24)
  {
    hide Bits, Octet;
    FourOctets(a);
  }

  lemma NumberOfXor(a: bv32, b: bv32)
    ensures Number(a ^ b) == Xor(Number(a), Number(b))
  {
    hide Bits;
    BitsPlus(a, b, 32);
  }

  // ---------------------------------------------------------------- shift

  lemma {:induction false} BitsOfZero(a: bv32, k: nat)
    requires a == 0
    ensures Bits(a, k) == 0
    decreases k
  {
    if k > 0 { BitsOfZero(Half(a), k - 1); }
  }

  lemma TopNibble(a: bv32)
    requires a >> 3 == 0
    ensures Bits(a, 4) == Bits(a, 3)
  {
    hide Bits, Low;
    assert (a >> 1) >> 1 == a >> 2 && (a >> 2) >> 1 == a >> 3;
    BitsNext(a, 3);
    BitsNext(a >> 1, 2);
    BitsNext(a >> 2, 1);
    BitsNext(a, 2);
    BitsNext(a >> 1, 1);
    BitsNext(a >> 2, 0);
    BitsOfZero(a >> 3, 1);
    BitsNone(a >> 3);
  }

  lemma TopOctet(a: bv32)
    requires a >> 31 == 0
    ensures Bits(Down8(Down8(Down8(a))), 8) == Bits(Down8(Down8(Down8(a))), 7)
  {
    hide Bits, Nibble;
    var b := a >> 24;
    assert Down8(Down8(Down8(a))) == b && b >> 4 == a >> 28 && (b >> 4) >> 3 == a >> 31;
    FourBits(b, 4);
    FourBits(b, 3);
    TopNibble(b >> 4);
  }

  lemma HalfHasNoTop(a: bv32)
    ensures Half(a) >> 31 == 0
  {
  }

  lemma NumberOfShift(a: bv32)
    ensures Number(a >> 1) == Number(a) / 2 && Number(a) % 2 == Low(a)
  {
    hide Bits, Low, Octet, Down8, Half;
    var b := Half(a);
    BitsNext(a, 31);
    HalfHasNoTop(a);
    TopOctet(b);
    EightBits(b, 24);
    EightBits(Down8(b), 16);
    EightBits(Down8(Down8(b)), 8);
    EightBits(b, 23);
    EightBits(Down8(b), 15);
    EightBits(Down8(Down8(b)), 7);
    assert Number(b) == Bits(b, 31);
    ShiftIsHalf(a);
  }

  lemma ShiftIsHalf(a: bv32)
    ensures a >> 1 == Half(a)
  {
  }
}

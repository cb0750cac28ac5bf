/** Machine words as bounded integers, with the C operators the firmware uses spelled out:
    wrapping modulo 2^32, exclusive or, and little- and big-endian byte layout. */
module Words {

  datatype Option<+T> = None | Some(value: T)

  type bit = x: int | 0 <= x < 2
  type byte = x: int | 0 <= x < 0x100
  type u16 = x: int | 0 <= x < 0x1_0000
  type u32 = x: int | 0 <= x < 0x1_0000_0000
  type u64 = x: int | 0 <= x < 0x1_0000_0000_0000_0000

  const TWO16: int := 0x1_0000
  const TWO32: int := 0x1_0000_0000
  const TWO64: int := 0x1_0000_0000_0000_0000

  /** The value a C `uint32` (or a Python `& 0xFFFFFFFF`) keeps of an integer. */
  function Wrap32(x: int): u32 { x % TWO32 }

  lemma Wrap32Add(x: int, y: int)
    ensures Wrap32(Wrap32(x) + y) == Wrap32(x + y)
  {
  }

  function Wrap16(x: int): u16 { x % TWO16 }

  function Pow2(n: nat): (p: nat)
    ensures p >= 1
  {
    if n == 0 then 1 else 2 * Pow2(n - 1)
  }

  lemma {:induction false} PowAdd(m: nat, n: nat)
    ensures Pow2(m + n) == Pow2(m) * Pow2(n)
  {
    if m == 0 {
    } else {
      PowAdd(m - 1, n);
    }
  }

  // ---------------------------------------------------------------- exclusive or

  /** The C operator `^` on unsigned words, least significant bit first. */
  function Xor(a: nat, b: nat): nat
    decreases a + b
  {
    if a == 0 && b == 0 then 0 else (a + b) % 2 + 2 * Xor(a / 2, b / 2)
  }

  lemma {:induction false} XorZero(a: nat)
    ensures Xor(a, 0) == a
  {
    if a == 0 {
    } else {
      XorZero(a / 2);
    }
  }

  lemma {:induction false} XorSelf(a: nat)
    ensures Xor(a, a) == 0
  {
    if a == 0 {
    } else {
      XorSelf(a / 2);
    }
  }

  lemma {:induction false} XorComm(a: nat, b: nat)
    ensures Xor(a, b) == Xor(b, a)
    decreases a + b
  {
    if a == 0 && b == 0 {
    } else {
      XorComm(a / 2, b / 2);
    }
  }

  lemma {:induction false} XorAssoc(a: nat, b: nat, c: nat)
    ensures Xor(Xor(a, b), c) == Xor(a, Xor(b, c))
    decreases a + b + c
  {
    if a + b + c == 0 {
    } else {
      var x, y := Xor(a, b), Xor(b, c);
      XorHalf(a, b);
      XorHalf(b, c);
      XorHalf(x, c);
      XorHalf(a, y);
      XorAssoc(a / 2, b / 2, c / 2);
      SameParity(a, b, c, x, y);
      HalvesDetermine(Xor(x, c), Xor(a, y));
    }
  }

  lemma SameParity(a: nat, b: nat, c: nat, x: nat, y: nat)
    requires x % 2 == (a + b) % 2 && y % 2 == (b + c) % 2
    ensures (x + c) % 2 == (a + y) % 2
  {
  }

  /** One unfolding of `Xor`, also at zero. */
  lemma {:induction false} XorHalf(a: nat, b: nat)
    ensures Xor(a, b) % 2 == (a + b) % 2
    ensures Xor(a, b) / 2 == Xor(a / 2, b / 2)
  {
    if a != 0 || b != 0 { LowAndHalf((a + b) % 2, Xor(a / 2, b / 2)); }
  }

  lemma LowAndHalf(low: nat, half: nat)
    requires low < 2
    ensures (low + 2 * half) % 2 == low && (low + 2 * half) / 2 == half
  {
  }

  /** A number is its low bit and its half. */
  lemma HalvesDetermine(x: nat, y: nat)
    requires x % 2 == y % 2 && x / 2 == y / 2
    ensures x == y
  {
  }

  lemma XorSwap(a: nat, b: nat, c: nat)
    ensures Xor(Xor(a, b), c) == Xor(Xor(a, c), b)
  {
    XorAssoc(a, b, c);
    XorComm(b, c);
    XorAssoc(a, c, b);
  }

  lemma XorCancel(a: nat, b: nat, c: nat)
    requires Xor(a, c) == Xor(b, c)
    ensures a == b
  {
    XorAssoc(a, c, c);
    XorAssoc(b, c, c);
    XorSelf(c);
    XorZero(a);
    XorZero(b);
  }

  lemma {:induction false} XorBound(a: nat, b: nat, k: nat)
    requires a < Pow2(k) && b < Pow2(k)
    ensures Xor(a, b) < Pow2(k)
  {
    if k == 0 {
    } else {
      XorBound(a / 2, b / 2, k - 1);
    }
  }

  /** The top bit of one operand survives when the other operand does not reach it. */
  lemma {:induction false} XorTop(a: nat, b: nat, k: nat)
    requires a < Pow2(k) <= b < Pow2(k + 1)
    ensures Pow2(k) <= Xor(a, b)
  {
    if k == 0 {
    } else {
      XorTop(a / 2, b / 2, k - 1);
    }
  }

  /** The C operator `~` on `k`-bit words is exclusive or with all ones. */
  lemma {:induction false} XorOnes(a: nat, k: nat)
    requires a < Pow2(k)
    ensures Xor(a, Pow2(k) - 1) == Pow2(k) - 1 - a
  {
    if k == 0 {
    } else {
      XorOnes(a / 2, k - 1);
      XorHalf(a, Pow2(k) - 1);
      ComplementHalves(a, Pow2(k - 1) - 1, Xor(a, Pow2(k) - 1));
    }
  }

  lemma ComplementHalves(a: nat, m: nat, x: nat)
    requires x % 2 == (a + 2 * m + 1) % 2 && x / 2 == m - a / 2
    ensures x == 2 * m + 1 - a
  {
  }

  // ---------------------------------------------------------------- byte layout

  function LE16(n: u16): (s: seq<byte>)
    ensures |s| == 2
  {
    [n % 0x100, n / 0x100]
  }

  function LE32(n: u32): (s: seq<byte>)
    ensures |s| == 4
  {
    var n1 := n / 0x100;
    var n2 := n1 / 0x100;
    [n % 0x100, n1 % 0x100, n2 % 0x100, n2 / 0x100]
  }

  function LE64(n: u64): seq<byte> { LE32(n % TWO32) + LE32(n / TWO32) }

  function U16Le(s: seq<byte>, at: nat): u16
    requires at + 2 <= |s|
  {
    s[at] as int + 0x100 * s[at + 1] as int
  }

  function U16Be(s: seq<byte>, at: nat): u16
    requires at + 2 <= |s|
  {
    0x100 * s[at] as int + s[at + 1] as int
  }

  function U32Le(s: seq<byte>, at: nat): u32
    requires at + 4 <= |s|
  {
    s[at] as int + 0x100 * s[at + 1] as int + 0x1_0000 * s[at + 2] as int + 0x100_0000 * s[at + 3] as int
  }

  function U64Le(s: seq<byte>, at: nat): u64
    requires at + 8 <= |s|
  {
    U32Le(s, at) + TWO32 * U32Le(s, at + 4)
  }

  lemma LE32RoundTrip(n: u32)
    ensures U32Le(LE32(n), 0) == n
  {
  }

  lemma U32LeAt(s: seq<byte>, at: nat, n: u32)
    requires at + 4 <= |s| && s[at..at + 4] == LE32(n)
    ensures U32Le(s, at) == n
  {
    var w := s[at..at + 4];
    LE32RoundTrip(n);
    assert w[0] == s[at] && w[1] == s[at + 1] && w[2] == s[at + 2] && w[3] == s[at + 3];
  }

  lemma U64LeAt(s: seq<byte>, at: nat, n: u64)
    requires at + 8 <= |s| && s[at..at + 8] == LE64(n)
    ensures U64Le(s, at) == n
  {
    assert s[at..at + 4] == s[at..at + 8][..4] && s[at + 4..at + 8] == s[at..at + 8][4..];
    U32LeAt(s, at, n % TWO32);
    U32LeAt(s, at + 4, n / TWO32);
  }
}

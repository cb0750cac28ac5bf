/** The one's complement checksum of the IPv4 header (section 3.1 of RFC 791, section 1 of
    RFC 1071) as FRONT computes it (FRONT/AebSensorNode.c). */
module InternetChecksum {
  import opened Words

  const MOD: int := 0xFFFF

  /** The sum of the big-endian 16-bit words; an odd last byte counts as a high byte. */
  function WordSum(data: seq<byte>): nat
  {
    if |data| >= 2 then U16Be(data, 0) + WordSum(data[2..])
    else if |data| == 1 then 0x100 * data[0] as int
    else 0
  }

  /** Add the carries back in until 16 bits are left. */
  function Fold(sum: nat): (f: u16)
    decreases sum
  {
    if sum < TWO16 then sum else Fold(sum % TWO16 + sum / TWO16)
  }

  function Checksum(data: seq<byte>): u16 { MOD - Fold(WordSum(data)) }

  /** The example of section 3 of RFC 1071. */
  lemma ExampleOfRfc1071(data: seq<byte>)
    requires data == [0x00, 0x01, 0xF2, 0x03, 0xF4, 0xF5, 0xF6, 0xF7]
    ensures WordSum(data) == 0x2_DDF0 && Checksum(data) == 0xFFFF - 0xDDF2
  {
    assert data[2..][2..] == data[4..] && data[4..][2..] == data[6..] && data[6..][2..] == data[8..];
    assert WordSum(data[8..]) == 0;
    assert WordSum(data[6..]) == 0xF6F7 && WordSum(data[4..]) == 0x1_EBEC && WordSum(data[2..]) == 0x2_DDEF;
    assert Fold(0x2_DDF0) == Fold(0xDDF2);
  }

  // ---------------------------------------------------------------- the computation

  lemma {:induction false} WordSumBound(data: seq<byte>)
    ensures WordSum(data) <= MOD * ((|data| + 1) / 2)
    decreases |data|
  {
    if |data| < 2 {
    } else {
      WordSumBound(data[2..]);
    }
  }

  lemma {:induction false} WordSumConcat(a: seq<byte>, b: seq<byte>)
    requires |a| % 2 == 0
    ensures WordSum(a + b) == WordSum(a) + WordSum(b)
    decreases |a|
  {
    if a == [] {
      assert a + b == b;
    } else {
      assert (a + b)[2..] == a[2..] + b;
      WordSumConcat(a[2..], b);
    }
  }

  lemma WordSumOfTwo(w: seq<byte>)
    requires |w| == 2
    ensures WordSum(w) == U16Be(w, 0)
  {
    assert w[2..] == [];
  }

  lemma WordSumSnoc(data: seq<byte>, i: nat)
    requires i + 2 <= |data| && i % 2 == 0
    ensures WordSum(data[..i + 2]) == WordSum(data[..i]) + U16Be(data, i)
  {
    var w := data[i..i + 2];
    assert data[..i + 2] == data[..i] + w;
    WordSumConcat(data[..i], w);
    WordSumOfTwo(w);
    assert w[0] == data[i] && w[1] == data[i + 1];
  }

  lemma WordSumOdd(data: seq<byte>)
    requires |data| % 2 == 1
    ensures WordSum(data) == WordSum(data[..|data| - 1]) + 0x100 * data[|data| - 1] as int
  {
    var n := |data| - 1;
    assert data == data[..n] + [data[n]];
    WordSumConcat(data[..n], [data[n]]);
  }

  lemma EmptySum(w: seq<byte>)
    requires w == []
    ensures WordSum(w) == 0
  {
  }

  lemma NextWordFits(data: seq<byte>, i: nat)
    requires |data| < TWO16 && i + 2 <= |data| && i % 2 == 0
    ensures WordSum(data[..i + 2]) == Wrap32(WordSum(data[..i]) + U16Be(data, i))
  {
    hide WordSum;
    WordSumSnoc(data, i);
    WordSumBound(data[..i + 2]);
  }

  lemma LastByteFits(data: seq<byte>)
    requires |data| < TWO16 && |data| % 2 == 1
    ensures WordSum(data) == Wrap32(WordSum(data[..|data| - 1]) + 0x100 * data[|data| - 1] as int)
  {
    hide WordSum;
    WordSumOdd(data);
    WordSumBound(data);
  }

  /** No carry is lost: the sum of at most 65535 bytes fits in the 32-bit accumulator. */
  method SumWords(data: seq<byte>) returns (sum: u32)
    requires |data| < TWO16
    ensures sum == WordSum(data)
  {
    hide WordSum, Wrap32, U16Be;
    sum := 0;
    var i: nat, length: nat := 0, |data|;
    EmptySum(data[..0]);
    while length > 1
      invariant i + length == |data| && i % 2 == 0
      invariant sum == WordSum(data[..i])
      decreases length
    {
      NextWordFits(data, i);
      sum := Wrap32(sum + U16Be(data, i));
      i, length := i + 2, length - 2;
    }
    assert data[..|data|] == data;
    if length != 0 {
      LastByteFits(data);
      sum := Wrap32(sum + 0x100 * data[i] as int);
    }
  }

  method Checksum16(data: seq<byte>) returns (checksum: u16)
    requires |data| < TWO16
    ensures checksum == Checksum(data)
  {
    hide WordSum;
    var sum: u32 := SumWords(data);
    while sum / TWO16 != 0
      invariant Fold(sum) == Fold(WordSum(data))
      decreases sum
    {
      sum := Wrap32(sum % TWO16 + sum / TWO16);
    }
    checksum := MOD - sum;
  }

  // ---------------------------------------------------------------- what folding computes

  lemma CarryKeepsResidue(sum: nat, high: nat, low: nat)
    requires sum == high * TWO16 + low
    ensures (low + high) % MOD == sum % MOD
  {
    assert sum == (low + high) + high * MOD;
    ModAdd(low + high, high);
  }

  lemma {:induction false} ModAdd(x: nat, k: nat)
    ensures (x + k * MOD) % MOD == x % MOD
  {
    if k == 0 {
    } else {
      ModAdd(x, k - 1);
    }
  }

  /** Folding is reduction modulo 65535, with 65535 in place of zero unless the sum is zero. */
  lemma {:induction false} FoldIsResidue(sum: nat)
    ensures Fold(sum) == if sum == 0 then 0 else if sum % MOD == 0 then MOD else sum % MOD
    decreases sum
  {
    if sum < TWO16 {
    } else {
      var next := sum % TWO16 + sum / TWO16;
      CarryKeepsResidue(sum, sum / TWO16, sum % TWO16);
      FoldIsResidue(next);
    }
  }

  /** Data passes the check when its sum is a multiple of 65535 other than zero. */
  lemma PassesIff(data: seq<byte>)
    ensures Checksum(data) == 0 <==> WordSum(data) != 0 && WordSum(data) % MOD == 0
  {
    FoldIsResidue(WordSum(data));
  }

  // ---------------------------------------------------------------- writing the checksum

  function BE16(n: u16): seq<byte> { [n / 0x100, n % 0x100] }

  /** `data` with the big-endian word `n` at `at`. */
  function WithWord(data: seq<byte>, at: nat, n: u16): (d: seq<byte>)
    requires at + 2 <= |data|
    ensures |d| == |data|
  {
    data[..at] + BE16(n) + data[at + 2..]
  }

  lemma WordSumWithWord(data: seq<byte>, at: nat, n: u16)
    requires at + 2 <= |data| && at % 2 == 0
    ensures WordSum(WithWord(data, at, n)) + U16Be(data, at) == WordSum(data) + n
  {
    hide WordSum, U16Be;
    ThreeParts(data, at);
    WordInside(data, at);
    WordWritten(n);
    OtherWord(data[..at], data[at..at + 2], BE16(n), data[at + 2..]);
  }

  lemma OtherWord(a: seq<byte>, w: seq<byte>, v: seq<byte>, b: seq<byte>)
    requires |a| % 2 == 0 && |w| == |v| == 2
    ensures WordSum(a + v + b) + U16Be(w, 0) == WordSum(a + w + b) + U16Be(v, 0)
  {
    hide WordSum, U16Be;
    SumAround(a, w, b);
    SumAround(a, v, b);
  }

  lemma ThreeParts(data: seq<byte>, at: nat)
    requires at + 2 <= |data|
    ensures data == data[..at] + data[at..at + 2] + data[at + 2..]
  {
  }

  lemma WordInside(data: seq<byte>, at: nat)
    requires at + 2 <= |data|
    ensures U16Be(data[at..at + 2], 0) == U16Be(data, at)
  {
  }

  lemma WordWritten(n: u16)
    ensures U16Be(BE16(n), 0) == n
  {
  }

  lemma SumAround(a: seq<byte>, w: seq<byte>, b: seq<byte>)
    requires |a| % 2 == 0 && |w| == 2
    ensures WordSum(a + w + b) == WordSum(a) + U16Be(w, 0) + WordSum(b)
  {
    WordSumConcat(a + w, b);
    WordSumConcat(a, w);
    WordSumOfTwo(w);
  }

  /** The checksum verifies itself: written into its zeroed field of any header, it makes the
      checksum of the whole header zero. */
  lemma ChecksumVerifiesItself(header: seq<byte>, at: nat)
    requires at + 2 <= |header| && at % 2 == 0 && U16Be(header, at) == 0
    ensures Checksum(WithWord(header, at, Checksum(header))) == 0
  {
    var sum := WordSum(header);
    var written := WithWord(header, at, Checksum(header));
    WordSumWithWord(header, at, Checksum(header));
    FoldIsResidue(sum);
    PassesIff(written);
    ComplementIsMultiple(sum, Fold(sum));
  }

  lemma ComplementIsMultiple(sum: nat, folded: nat)
    requires folded == if sum == 0 then 0 else if sum % MOD == 0 then MOD else sum % MOD
    ensures sum + MOD - folded != 0 && (sum + MOD - folded) % MOD == 0
  {
  }

  /** A header that passes and has one of its words changed passes again exactly when the word
      changed between the two zeros of one's complement, 0 and 65535, in a header that is not
      zero altogether. */
  lemma WordChangeDetected(header: seq<byte>, at: nat, n: u16)
    requires at + 2 <= |header| && at % 2 == 0 && Checksum(header) == 0
    ensures var word, changed := U16Be(header, at), WithWord(header, at, n);
            Checksum(changed) == 0
            <==> n == word || (n == MOD && word == 0) || (n == 0 && word == MOD && WordSum(changed) != 0)
  {
    var before, after := U16Be(header, at) as int, WordSum(WithWord(header, at, n));
    WordSumWithWord(header, at, n);
    PassesIff(header);
    PassesIff(WithWord(header, at, n));
    MultipleDifference(WordSum(header), before, n, after);
  }

  lemma MultipleDifference(sum: nat, x: u16, y: u16, changed: nat)
    requires sum % MOD == 0 && sum != 0 && changed + x == sum + y
    ensures changed % MOD == 0 <==> x == y || (x == 0 && y == MOD) || (x == MOD && y == 0)
    ensures y == MOD ==> changed != 0
  {
    var k := sum / MOD;
    assert sum == k * MOD;
    if changed % MOD == 0 {
      var m := changed / MOD;
      assert changed == m * MOD;
      assert (m - k) * MOD == y as int - x as int;
    }
  }

  /** The checksum does not depend on the order of the words. */
  lemma SwappedWordsUndetected(prefix: seq<byte>, x: seq<byte>, middle: seq<byte>, y: seq<byte>, suffix: seq<byte>)
    requires |prefix| % 2 == 0 && |x| == |y| == 2 && |middle| % 2 == 0
    ensures Checksum(prefix + x + middle + y + suffix) == Checksum(prefix + y + middle + x + suffix)
  {
    SumOfFive(prefix, x, middle, y, suffix);
    SumOfFive(prefix, y, middle, x, suffix);
  }

  lemma SumOfFive(a: seq<byte>, b: seq<byte>, c: seq<byte>, d: seq<byte>, e: seq<byte>)
    requires |a| % 2 == |b| % 2 == |c| % 2 == |d| % 2 == 0
    ensures WordSum(a + b + c + d + e) == WordSum(a) + WordSum(b) + WordSum(c) + WordSum(d) + WordSum(e)
  {
    WordSumConcat(a + b + c + d, e);
    WordSumConcat(a + b + c, d);
    WordSumConcat(a + b, c);
    WordSumConcat(a, b);
  }
}

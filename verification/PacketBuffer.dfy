/** Writing a packet field by field into a byte buffer that was cleared before. */
module PacketBuffer {
  import opened Words

  function Zeros(n: nat): (z: seq<byte>)
    ensures |z| == n
  {
    seq(n, i => 0)
  }

  lemma SkipZeros(done: seq<byte>, n: nat, gap: nat)
    requires gap <= n
    ensures done + Zeros(n) == done + Zeros(gap) + Zeros(n - gap)
  {
  }

  lemma FewZeros()
    ensures Zeros(2) == [0, 0] && Zeros(3) == [0, 0, 0]
  {
  }

  /** Copy `bytes` to `at`, as `memcpy` and `struct.pack_into` do. */
  method Put(buffer: array<byte>, at: nat, bytes: seq<byte>)
    requires at + |bytes| <= buffer.Length
    modifies buffer
    ensures forall k :: 0 <= k < buffer.Length ==>
              buffer[k] == if at <= k < at + |bytes| then bytes[k - at] else old(buffer[k])
  {
    for k := 0 to |bytes|
      invariant forall i :: 0 <= i < buffer.Length ==>
                  buffer[i] == if at <= i < at + k then bytes[i - at] else old(buffer[i])
    {
      buffer[at + k] := bytes[k];
    }
  }

  /** Write the next field of a packet of which nothing is written from `at` on. */
  method Append(buffer: array<byte>, ghost done: seq<byte>, at: nat, bytes: seq<byte>)
    requires at == |done| && at + |bytes| <= buffer.Length && buffer[..] == done + Zeros(buffer.Length - at)
    modifies buffer
    ensures buffer[..] == done + bytes + Zeros(buffer.Length - at - |bytes|)
  {
    Put(buffer, at, bytes);
  }

  method Clear(buffer: array<byte>)
    modifies buffer
    ensures buffer[..] == Zeros(buffer.Length)
  {
    for i := 0 to buffer.Length
      invariant forall k :: 0 <= k < i ==> buffer[k] == 0
    {
      buffer[i] := 0;
    }
  }
}

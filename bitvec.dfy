/** Stand-in for the external `BitVecSerializer` / `BitVecDeserializer` over
    `BitVec<u8>`: the number of bits as a varint, then the bits packed eight to a
    byte, least significant bit first, the unused high bits of the last byte zero.
    The decoder ignores those unused bits. */
module BitVecCodec {
  import opened Bytes
  import opened Parsing
  import VarInt

  /** The number of packed bytes that hold `n` bits. */
  function ByteCount(n: nat): nat
  {
    (n + 7) / 8
  }

  /** The value of up to eight bits, `c[0]` the least significant. */
  function ChunkValue(c: seq<bool>): (r: nat)
    ensures r < Pow2(|c|)
  {
    if |c| == 0 then 0 else (if c[0] then 1 else 0) + 2 * ChunkValue(c[1..])
  }

  /** The low `k` bits of `b`, least significant first. */
  function ChunkBits(b: nat, k: nat): (r: seq<bool>)
    ensures |r| == k
  {
    if k == 0 then [] else [b % 2 == 1] + ChunkBits(b / 2, k - 1)
  }

  lemma {:induction false} ChunkBitsOfValue(c: seq<bool>)
    ensures ChunkBits(ChunkValue(c), |c|) == c
  {
    if |c| > 0 {
      var v := ChunkValue(c);
      assert v % 2 == (if c[0] then 1 else 0) && v / 2 == ChunkValue(c[1..]);
      ChunkBitsOfValue(c[1..]);
      assert c == [c[0]] + c[1..];
    }
  }

  /** A chunk of at most eight bits takes one byte. */
  lemma ByteCountStep(n: nat)
    requires n > 0
    ensures ByteCount(n) == 1 + ByteCount(n - Min(8, n))
  {
  }

  function Pack(bits: seq<bool>): (r: seq<byte>)
    ensures |r| == ByteCount(|bits|)
    decreases |bits|
  {
    if |bits| == 0 then []
    else
      var k := Min(8, |bits|);
      Pow2Monotone(k, 8);
      assert Pow2(8) == 256;
      [ChunkValue(bits[..k])] + Pack(bits[k..])
  }

  function Unpack(bytes: seq<byte>, n: nat): (r: seq<bool>)
    requires |bytes| == ByteCount(n)
    ensures |r| == n
    decreases n
  {
    if n == 0 then []
    else
      var k := Min(8, n);
      ChunkBits(bytes[0], k) + Unpack(bytes[1..], n - k)
  }

  lemma {:induction false} UnpackPack(bits: seq<bool>)
    ensures Unpack(Pack(bits), |bits|) == bits
    decreases |bits|
  {
    if |bits| > 0 {
      var k := Min(8, |bits|);
      var chunk, later := bits[..k], bits[k..];
      ByteCountStep(|bits|);
      var packed := Pack(bits);
      assert packed[0] == ChunkValue(chunk) && packed[1..] == Pack(later);
      assert Unpack(packed, |bits|) == ChunkBits(packed[0], k) + Unpack(packed[1..], |later|);
      assert ChunkBits(packed[0], k) == chunk by {
        ChunkBitsOfValue(chunk);
      }
      assert Unpack(packed[1..], |later|) == later by {
        UnpackPack(later);
      }
      SplitAt(bits, k);
    }
  }

  function Encode(bits: seq<bool>): seq<byte>
  {
    VarInt.Encode(|bits|) + Pack(bits)
  }

  function Decode(s: seq<byte>): (r: ParseResult<seq<bool>>)
    ensures r.Done? ==> |r.rest| < |s|
  {
    var (n, s1) :- VarInt.Decode(s, U64_MAX, RngSeed);
    var count := ByteCount(n);
    if |s1| < count then Fail(DecodeError(RngSeed))
    else Done(Unpack(s1[..count], n), s1[count..])
  }

  lemma RoundTrip(bits: seq<bool>, rest: seq<byte>)
    requires |bits| <= U64_MAX
    ensures Decode(Encode(bits) + rest) == Done(bits, rest)
  {
    var packed := Pack(bits);
    assert Encode(bits) + rest == VarInt.Encode(|bits|) + (packed + rest);
    VarInt.RoundTrip(|bits|, packed + rest, U64_MAX, RngSeed);
    assert (packed + rest)[..|packed|] == packed;
    assert (packed + rest)[|packed|..] == rest;
    UnpackPack(bits);
  }
}

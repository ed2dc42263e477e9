/** Bytes, 64-bit unsigned integers, fixed-width hashes and the growable byte
    buffer that every serializer writes into. */
module Bytes {

  /** A `u8`. */
  type byte = x: int | 0 <= x < 256

  const U64_MAX: int := 0xFFFF_FFFF_FFFF_FFFF

  /** Rust's `u64`. */
  type U64 = n: nat | n <= U64_MAX

  /** Width of a `Hash` in bytes (`HASH_SIZE_BYTES`). */
  const HASH_SIZE_BYTES: nat := 32

  /** The bytes of a `Hash`. */
  type Digest = s: seq<byte> | |s| == HASH_SIZE_BYTES witness seq(HASH_SIZE_BYTES, i => 0)

  /** The trusted hash primitive `Hash::compute_from`: deterministic and of fixed
      width, otherwise unknown, so every member that hashes takes it as a parameter. */
  type HashFn = seq<byte> -> Digest

  /** `CYCLE_INFO_HASH_INITIAL_BYTES`: the all-zero accumulator. */
  const ZERO_HASH: Digest := seq(HASH_SIZE_BYTES, i => 0)

  function Pow2(k: nat): (r: nat)
    ensures r >= 1
  {
    if k == 0 then 1 else 2 * Pow2(k - 1)
  }

  function Min(a: nat, b: nat): nat
  {
    if a < b then a else b
  }

  lemma {:induction false} Pow2Monotone(j: nat, k: nat)
    requires j <= k
    ensures Pow2(j) <= Pow2(k)
    decreases k
  {
    if j < k {
      Pow2Monotone(j, k - 1);
    }
  }

  /** Exclusive-or of the low `width` bits of `a` and `b`, least significant bit
      first. */
  function XorBits(a: nat, b: nat, width: nat): (r: nat)
    ensures r < Pow2(width)
  {
    if width == 0 then 0
    else (if Odd(a) != Odd(b) then 1 else 0) + 2 * XorBits(a / 2, b / 2, width - 1)
  }

  predicate Odd(n: nat)
  {
    n % 2 == 1
  }

  /** `u8 ^ u8`. */
  function XorByte(a: byte, b: byte): byte
  {
    assert Pow2(8) == 256;
    XorBits(a, b, 8)
  }

  /** The low bit and the remaining bits of an exclusive-or. */
  lemma XorBitsSplit(a: nat, b: nat, width: nat)
    requires width > 0
    ensures Odd(XorBits(a, b, width)) == (Odd(a) != Odd(b))
    ensures XorBits(a, b, width) / 2 == XorBits(a / 2, b / 2, width - 1)
  {
  }

  /** A number is determined by its low bit and the rest. */
  lemma SameBits(m: nat, n: nat)
    requires Odd(m) == Odd(n) && m / 2 == n / 2
    ensures m == n
  {
  }

  lemma {:induction false} XorBitsCommutes(a: nat, b: nat, width: nat)
    ensures XorBits(a, b, width) == XorBits(b, a, width)
  {
    if width > 0 {
      XorBitsCommutes(a / 2, b / 2, width - 1);
    }
  }

  lemma {:induction false} XorBitsZero(a: nat, width: nat)
    requires a < Pow2(width)
    ensures XorBits(0, a, width) == a && XorBits(a, 0, width) == a
  {
    if width > 0 {
      XorBitsZero(a / 2, width - 1);
    }
  }

  lemma {:induction false} XorBitsSelf(a: nat, width: nat)
    ensures XorBits(a, a, width) == 0
  {
    if width > 0 {
      XorBitsSelf(a / 2, width - 1);
    }
  }

  lemma {:induction false} XorBitsAssociates(a: nat, b: nat, c: nat, width: nat)
    ensures XorBits(XorBits(a, b, width), c, width) == XorBits(a, XorBits(b, c, width), width)
  {
    if width > 0 {
      var ab, bc := XorBits(a, b, width), XorBits(b, c, width);
      XorBitsSplit(a, b, width);
      XorBitsSplit(b, c, width);
      XorBitsSplit(ab, c, width);
      XorBitsSplit(a, bc, width);
      XorBitsAssociates(a / 2, b / 2, c / 2, width - 1);
      SameBits(XorBits(ab, c, width), XorBits(a, bc, width));
    }
  }

  lemma XorByteCommutes(a: byte, b: byte)
    ensures XorByte(a, b) == XorByte(b, a)
  {
    XorBitsCommutes(a, b, 8);
  }

  lemma XorByteAssociates(a: byte, b: byte, c: byte)
    ensures XorByte(XorByte(a, b), c) == XorByte(a, XorByte(b, c))
  {
    XorBitsAssociates(a, b, c, 8);
  }

  lemma XorByteZero(a: byte)
    ensures XorByte(0, a) == a && XorByte(a, 0) == a
  {
    assert Pow2(8) == 256;
    XorBitsZero(a, 8);
  }

  lemma XorByteSelfCancels(a: byte, b: byte)
    ensures XorByte(a, a) == 0
    ensures XorByte(XorByte(a, b), b) == a
  {
    XorBitsSelf(a, 8);
    XorBitsSelf(b, 8);
    XorByteAssociates(a, b, b);
    XorByteZero(a);
  }

  lemma XorByteCancelsAcross(a: byte, b: byte, e: byte)
    ensures XorByte(XorByte(a, e), XorByte(b, e)) == XorByte(a, b)
  {
    calc {
      XorByte(XorByte(a, e), XorByte(b, e));
      { XorByteAssociates(a, e, XorByte(b, e)); }
      XorByte(a, XorByte(e, XorByte(b, e)));
      { XorByteCommutes(b, e); XorByteAssociates(e, e, b); }
      XorByte(a, XorByte(XorByte(e, e), b));
      { XorByteSelfCancels(e, b); XorByteZero(b); }
      XorByte(a, b);
    }
  }

  /** `Hash ^= Hash`: bytewise exclusive-or. */
  function Xor(a: Digest, b: Digest): Digest
  {
    seq(HASH_SIZE_BYTES, i requires 0 <= i < HASH_SIZE_BYTES => XorByte(a[i], b[i]))
  }

  lemma XorCommutes(a: Digest, b: Digest)
    ensures Xor(a, b) == Xor(b, a)
  {
    forall i | 0 <= i < HASH_SIZE_BYTES
      ensures Xor(a, b)[i] == Xor(b, a)[i]
    {
      XorByteCommutes(a[i], b[i]);
    }
  }

  lemma XorAssociates(a: Digest, b: Digest, c: Digest)
    ensures Xor(Xor(a, b), c) == Xor(a, Xor(b, c))
  {
    forall i | 0 <= i < HASH_SIZE_BYTES
      ensures Xor(Xor(a, b), c)[i] == Xor(a, Xor(b, c))[i]
    {
      XorByteAssociates(a[i], b[i], c[i]);
    }
  }

  lemma XorZero(a: Digest)
    ensures Xor(ZERO_HASH, a) == a && Xor(a, ZERO_HASH) == a
  {
    forall i | 0 <= i < HASH_SIZE_BYTES
      ensures Xor(ZERO_HASH, a)[i] == a[i] && Xor(a, ZERO_HASH)[i] == a[i]
    {
      XorByteZero(a[i]);
    }
  }

  lemma XorSelfCancels(a: Digest, b: Digest)
    ensures Xor(a, a) == ZERO_HASH
    ensures Xor(Xor(a, b), b) == a
  {
    forall i | 0 <= i < HASH_SIZE_BYTES
      ensures Xor(a, a)[i] == 0 && Xor(Xor(a, b), b)[i] == a[i]
    {
      XorByteSelfCancels(a[i], b[i]);
    }
  }

  /** XORing the same hash into both operands leaves their XOR unchanged. */
  lemma XorCancelsAcross(a: Digest, b: Digest, e: Digest)
    ensures Xor(Xor(a, e), Xor(b, e)) == Xor(a, b)
  {
    forall i | 0 <= i < HASH_SIZE_BYTES
      ensures Xor(Xor(a, e), Xor(b, e))[i] == Xor(a, b)[i]
    {
      XorByteCancelsAcross(a[i], b[i], e[i]);
    }
  }

  lemma AppendAssociates(a: seq<byte>, b: seq<byte>, c: seq<byte>)
    ensures (a + b) + c == a + (b + c)
  {
  }

  // Regrouping a concatenation of fields as a decoder consumes it: each field
  // followed by everything after it.

  lemma Nest4(a: seq<byte>, b: seq<byte>, c: seq<byte>, d: seq<byte>)
    ensures a + b + c + d == a + (b + (c + d))
  {
    AppendAssociates(a + b, c, d);
    AppendAssociates(a, b, c + d);
  }

  lemma Nest6(a: seq<byte>, b: seq<byte>, c: seq<byte>, d: seq<byte>, e: seq<byte>, f: seq<byte>)
    ensures a + b + c + d + e + f == a + (b + (c + (d + (e + f))))
  {
    AppendAssociates(a + b + c + d, e, f);
    AppendAssociates(a + b + c, d, e + f);
    Nest4(a, b, c, d + (e + f));
  }

  lemma Nest7(a: seq<byte>, b: seq<byte>, c: seq<byte>, d: seq<byte>, e: seq<byte>, f: seq<byte>, g: seq<byte>)
    ensures a + b + c + d + e + f + g == a + (b + (c + (d + (e + (f + g)))))
  {
    AppendAssociates(a + b + c + d + e, f, g);
    Nest6(a, b, c, d, e, f + g);
  }

  lemma SplitAt<T>(s: seq<T>, k: nat)
    requires k <= |s|
    ensures s[..k] + s[k..] == s
  {
  }

  lemma TakeOneMore<T>(s: seq<T>, i: nat)
    requires i < |s|
    ensures s[..i + 1] == s[..i] + [s[i]]
  {
  }

  lemma HeadTail<T>(s: seq<T>)
    requires |s| > 0
    ensures [s[0]] + s[1..] == s
  {
  }

  /** The `buffer: &mut Vec<u8>` the serializers push into. */
  class ByteBuffer {
    var data: seq<byte>

    constructor ()
      ensures data == []
    {
      data := [];
    }

    /** `Vec::push`. */
    method Push(b: byte)
      modifies this
      ensures data == old(data) + [b]
    {
      data := data + [b];
    }

    /** `Vec::extend` with a slice written by a collaborator's serializer. */
    method Extend(s: seq<byte>)
      modifies this
      ensures data == old(data) + s
    {
      data := data + s;
    }
  }
}

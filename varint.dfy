/** Stand-in for the external `U64VarIntSerializer` / `U64VarIntDeserializer`:
    unsigned LEB128 (seven value bits per byte, least significant group first, high
    bit set on every byte but the last), at most ten bytes, minimal encodings only,
    and a decoded value outside `[0, max]` rejected. */
module VarInt {
  import opened Bytes
  import opened Parsing

  /** ceil(64 / 7): no `u64` needs more groups. */
  const MAX_VARINT_BYTES: nat := 10

  function Pow128(k: nat): (r: nat)
    ensures r >= 1
  {
    if k == 0 then 1 else 128 * Pow128(k - 1)
  }

  /** The encoding of `n`; the serializer never fails. */
  function Encode(n: nat): (r: seq<byte>)
    ensures 1 <= |r|
    decreases n
  {
    if n < 128 then [n] else [n % 128 + 128] + Encode(n / 128)
  }

  /** The value groups read from the front of `s`, and how many bytes they took,
      reading at most `budget` bytes. */
  datatype Groups = Groups(value: nat, length: nat) | BadGroups

  function ReadGroups(s: seq<byte>, budget: nat): (r: Groups)
    ensures r.Groups? ==> 1 <= r.length <= |s| && r.length <= budget
    decreases budget
  {
    if budget == 0 || |s| == 0 then BadGroups
    else if s[0] < 128 then Groups(s[0], 1)
    else
      match ReadGroups(s[1..], budget - 1)
      case BadGroups => BadGroups
      // a zero last group after a continuation byte is a non-minimal encoding
      case Groups(v, l) => if v == 0 then BadGroups else Groups(s[0] - 128 + 128 * v, l + 1)
  }

  /** `U64VarIntDeserializer::new(Included(0), Included(max))`. A successful decode
      consumed exactly the canonical encoding of the value it returns. */
  function Decode(s: seq<byte>, max: U64, field: Field): (r: ParseResult<U64>)
    ensures r.Done? ==> r.value <= max && s == Encode(r.value) + r.rest
  {
    match ReadGroups(s, MAX_VARINT_BYTES)
    case BadGroups => Fail(DecodeError(field))
    case Groups(v, l) =>
      if v > max then Fail(DecodeError(field))
      else
        ReadGroupsCanonical(s, MAX_VARINT_BYTES);
        assert s == s[..l] + s[l..];
        Done(v, s[l..])
  }

  lemma {:induction false} ReadGroupsCanonical(s: seq<byte>, budget: nat)
    requires ReadGroups(s, budget).Groups?
    ensures s[..ReadGroups(s, budget).length] == Encode(ReadGroups(s, budget).value)
    decreases budget
  {
    if s[0] >= 128 {
      var inner := ReadGroups(s[1..], budget - 1);
      ReadGroupsCanonical(s[1..], budget - 1);
      var low := s[0] - 128;
      var v := low + 128 * inner.value;
      assert v % 128 == low && v / 128 == inner.value;
      assert s[..inner.length + 1] == [s[0]] + s[1..][..inner.length];
    }
  }

  lemma {:induction false} EncodeLength(n: nat, k: nat)
    requires 1 <= k && n < Pow128(k)
    ensures |Encode(n)| <= k
    decreases n
  {
    if n >= 128 {
      assert k >= 2;
      assert Pow128(k) == 128 * Pow128(k - 1);
      EncodeLength(n / 128, k - 1);
    }
  }

  /** Every `u64` encodes in at most ten bytes. */
  lemma EncodeFitsU64(n: U64)
    ensures |Encode(n)| <= MAX_VARINT_BYTES
  {
    assert Pow128(MAX_VARINT_BYTES) == 1180591620717411303424;
    EncodeLength(n, MAX_VARINT_BYTES);
  }

  /** One step of decoding: a continuation byte followed by the groups of `high`. */
  lemma ReadGroupsStep(low: nat, high: nat, tail: seq<byte>, budget: nat)
    requires low < 128 && 1 <= budget && high != 0
    requires ReadGroups(tail, budget - 1) == Groups(high, |Encode(high)|)
    ensures ReadGroups([low + 128] + tail, budget) == Groups(low + 128 * high, |Encode(high)| + 1)
  {
    var s := [low + 128] + tail;
    assert s[1..] == tail;
  }

  lemma {:induction false} ReadGroupsEncoded(n: nat, rest: seq<byte>, budget: nat)
    requires |Encode(n)| <= budget
    ensures ReadGroups(Encode(n) + rest, budget) == Groups(n, |Encode(n)|)
    decreases n
  {
    if n < 128 {
      assert (Encode(n) + rest)[0] == n;
    } else {
      var low, high := n % 128, n / 128;
      var tail := Encode(high) + rest;
      assert Encode(n) == [low + 128] + Encode(high) && n == low + 128 * high && high != 0;
      assert Encode(n) + rest == [low + 128] + tail;
      assert ReadGroups(tail, budget - 1) == Groups(high, |Encode(high)|) by {
        ReadGroupsEncoded(high, rest, budget - 1);
      }
      ReadGroupsStep(low, high, tail, budget);
    }
  }

  /** Decoding an encoding returns the value and exactly the bytes after it. */
  lemma RoundTrip(n: U64, rest: seq<byte>, max: U64, field: Field)
    requires n <= max
    ensures Decode(Encode(n) + rest, max, field) == Done(n, rest)
  {
    EncodeFitsU64(n);
    ReadGroupsEncoded(n, rest, MAX_VARINT_BYTES);
    assert (Encode(n) + rest)[|Encode(n)|..] == rest;
  }

  /** A value above `max` is rejected, whatever follows it: the bound is checked
      as soon as the integer is read. */
  lemma AboveMaxFails(n: U64, rest: seq<byte>, max: U64, field: Field)
    requires max < n
    ensures Decode(Encode(n) + rest, max, field) == Fail(DecodeError(field))
  {
    EncodeFitsU64(n);
    ReadGroupsEncoded(n, rest, MAX_VARINT_BYTES);
  }
}

/** Stand-in for the external `OptionSerializer<Hash, HashSerializer>` and its
    deserializer: a presence byte, `0` for `None` and `1` for `Some`, then the
    32 hash bytes when present. */
module OptionHashCodec {
  import opened Bytes
  import opened Parsing

  function Encode(o: Option<Digest>): seq<byte>
  {
    match o
    case None => [0]
    case Some(h) => [1] + h
  }

  function Decode(s: seq<byte>): (r: ParseResult<Option<Digest>>)
    ensures r.Done? ==> s == Encode(r.value) + r.rest
    ensures r.Fail? <==> |s| == 0 || s[0] > 1 || (s[0] == 1 && |s| < 1 + HASH_SIZE_BYTES)
  {
    if |s| == 0 then Fail(DecodeError(FinalStateHashSnapshot))
    else if s[0] == 0 then
      assert s == [0] + s[1..];
      Done(None, s[1..])
    else if s[0] == 1 && 1 + HASH_SIZE_BYTES <= |s| then
      assert s == [1] + s[1..1 + HASH_SIZE_BYTES] + s[1 + HASH_SIZE_BYTES..];
      Done(Some(s[1..1 + HASH_SIZE_BYTES]), s[1 + HASH_SIZE_BYTES..])
    else Fail(DecodeError(FinalStateHashSnapshot))
  }

  lemma RoundTrip(o: Option<Digest>, rest: seq<byte>)
    ensures Decode(Encode(o) + rest) == Done(o, rest)
  {
    if o.Some? {
      assert (Encode(o) + rest)[1..1 + HASH_SIZE_BYTES] == o.value;
    }
  }
}

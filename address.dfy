/** Stand-in for the external `Address`, `AddressSerializer` and
    `AddressDeserializer`: an address is a fixed number of bytes written as they
    are, and addresses are ordered lexicographically (the order in which a
    `BTreeMap<Address, _>` is iterated). */
module Addresses {
  import opened Bytes
  import opened Parsing

  const ADDRESS_SIZE_BYTES: nat := 32

  type Address = s: seq<byte> | |s| == ADDRESS_SIZE_BYTES witness seq(ADDRESS_SIZE_BYTES, i => 0)

  function Encode(a: Address): seq<byte>
  {
    a
  }

  function Decode(s: seq<byte>, field: Field): (r: ParseResult<Address>)
    ensures r.Done? ==> s == Encode(r.value) + r.rest
    ensures r.Fail? <==> |s| < ADDRESS_SIZE_BYTES
  {
    if |s| < ADDRESS_SIZE_BYTES then Fail(DecodeError(field))
    else
      assert s == s[..ADDRESS_SIZE_BYTES] + s[ADDRESS_SIZE_BYTES..];
      Done(s[..ADDRESS_SIZE_BYTES], s[ADDRESS_SIZE_BYTES..])
  }

  lemma RoundTrip(a: Address, rest: seq<byte>, field: Field)
    ensures Decode(Encode(a) + rest, field) == Done(a, rest)
  {
    assert (a + rest)[..ADDRESS_SIZE_BYTES] == a;
  }

  /** Lexicographic order on byte strings. */
  predicate Less(a: seq<byte>, b: seq<byte>)
    decreases |a|
  {
    0 < |a| && 0 < |b| && (a[0] < b[0] || (a[0] == b[0] && Less(a[1..], b[1..])))
  }

  lemma {:induction false} LessIrreflexive(a: seq<byte>)
    ensures !Less(a, a)
    decreases |a|
  {
    if 0 < |a| {
      LessIrreflexive(a[1..]);
    }
  }

  lemma {:induction false} LessTransitive(a: seq<byte>, b: seq<byte>, c: seq<byte>)
    requires Less(a, b) && Less(b, c)
    ensures Less(a, c)
    decreases |a|
  {
    if a[0] == b[0] && b[0] == c[0] {
      LessTransitive(a[1..], b[1..], c[1..]);
    }
  }

  lemma {:induction false} LessTotal(a: seq<byte>, b: seq<byte>)
    requires |a| == |b| && a != b
    ensures Less(a, b) || Less(b, a)
    decreases |a|
  {
    if a[0] == b[0] {
      assert a == [a[0]] + a[1..] && b == [b[0]] + b[1..];
      LessTotal(a[1..], b[1..]);
    }
  }

  /** Entries listed in strictly ascending address order, as a `BTreeMap` yields them. */
  ghost predicate AscendingKeys<V>(entries: seq<(Address, V)>)
  {
    forall i, j :: 0 <= i < j < |entries| ==> Less(entries[i].0, entries[j].0)
  }

  /** Every finite non-empty set of addresses has a least element: the one a
      `BTreeMap` yields first. */
  lemma {:induction false} LeastExists(s: set<Address>)
    requires s != {}
    ensures exists a :: a in s && forall b :: b in s && b != a ==> Less(a, b)
    decreases |s|
  {
    var x :| x in s;
    if s == {x} {
      assert forall b :: b in s && b != x ==> Less(x, b);
    } else {
      LeastExists(s - {x});
      var m :| m in s - {x} && forall b :: b in s - {x} && b != m ==> Less(m, b);
      LessTotal(m, x);
      if Less(m, x) {
        assert forall b :: b in s && b != m ==> Less(m, b);
      } else {
        forall b | b in s && b != x
          ensures Less(x, b)
        {
          if b != m {
            LessTransitive(x, m, b);
          }
        }
      }
    }
  }
}

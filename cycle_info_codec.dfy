/** The wire format of a `CycleInfo` (`CycleInfoSerializer` and
    `CycleInfoDeserializer`), of a production-statistics map
    (`ProductionStatsSerializer`, `ProductionStatsDeserializer`) and of the roll
    list (`RollsDeserializer`).

    A `CycleInfo` is written as
      varint cycle, one flag byte, varint roll count, (address, varint)* ,
      bit-vector seed, varint stats count, (address, varint, varint)* ,
      optional snapshot hash.
    None of the three hashes is written: the decoder recomputes them. */
module CycleInfoCodec {
  import opened Bytes
  import opened Parsing
  import opened Addresses
  import opened Stats
  import opened Entries
  import opened CycleInfos
  import VarInt
  import BitVecCodec
  import OptionHashCodec

  // ---------------------------------------------------------------------------
  // The completion flag

  /** The flag hashed by `compute_complete_hash` (the varint of `complete as u64`)
      is the very byte the serializer writes. */
  lemma CompleteHashOfWireByte(hash: HashFn, complete: bool)
    ensures CompleteHash(hash, complete) == hash([CompleteByte(complete)])
  {
  }

  /** `alt((value(true, tag(&[1])), value(false, tag(&[0]))))`: exactly the bytes
      1 and 0 are accepted, and the flag is the byte read. */
  function DecodeComplete(s: seq<byte>): (r: ParseResult<bool>)
    ensures r.Done? <==> 0 < |s| && (s[0] == 0 || s[0] == 1)
    ensures r.Done? ==> s == [CompleteByte(r.value)] + r.rest
  {
    if 0 < |s| && s[0] == 1 then
      assert s == [s[0]] + s[1..];
      Done(true, s[1..])
    else if 0 < |s| && s[0] == 0 then
      assert s == [s[0]] + s[1..];
      Done(false, s[1..])
    else Fail(DecodeError(Complete))
  }

  lemma CompleteRoundTrip(complete: bool, rest: seq<byte>)
    ensures DecodeComplete([CompleteByte(complete)] + rest) == Done(complete, rest)
  {
    assert ([CompleteByte(complete)] + rest)[1..] == rest;
  }

  // ---------------------------------------------------------------------------
  // Entry lists

  function RollValueBytes(rollCount: U64): seq<byte>
  {
    VarInt.Encode(rollCount)
  }

  function StatsValueBytes(stats: ProductionStats): seq<byte>
  {
    VarInt.Encode(stats.blockSuccessCount) + VarInt.Encode(stats.blockFailureCount)
  }

  /** Map entries as the serializer loops write them, in the order listed: each
      address followed by its value. */
  function EntryListBytes<V>(entries: seq<(Address, V)>, valueBytes: V -> seq<byte>): seq<byte>
    decreases |entries|
  {
    if |entries| == 0 then []
    else Addresses.Encode(entries[0].0) + valueBytes(entries[0].1) + EntryListBytes(entries[1..], valueBytes)
  }

  lemma EntryListBytesCons<V>(e: (Address, V), more: seq<(Address, V)>, valueBytes: V -> seq<byte>)
    ensures EntryListBytes([e] + more, valueBytes) == Addresses.Encode(e.0) + valueBytes(e.1) + EntryListBytes(more, valueBytes)
  {
    assert ([e] + more)[1..] == more;
  }

  /** Writing one more entry appends its bytes. */
  lemma {:induction false} EntryListBytesAppend<V>(entries: seq<(Address, V)>, e: (Address, V), valueBytes: V -> seq<byte>)
    ensures EntryListBytes(entries + [e], valueBytes)
         == EntryListBytes(entries, valueBytes) + Addresses.Encode(e.0) + valueBytes(e.1)
    decreases |entries|
  {
    if |entries| == 0 {
      assert (entries + [e])[1..] == [];
    } else {
      assert (entries + [e])[1..] == entries[1..] + [e];
      EntryListBytesAppend(entries[1..], e, valueBytes);
    }
  }

  /** `CycleInfoHashComputer` hashes each map entry over exactly the bytes the
      serializer loops write for that entry. */
  lemma EntryHashesOfWrittenEntries(hash: HashFn, address: Address, rollCount: U64, stats: ProductionStats)
    ensures RollEntryHash(hash, address, rollCount) == hash(EntryListBytes([(address, rollCount)], RollValueBytes))
    ensures ProdStatsEntryHash(hash, address, stats) == hash(EntryListBytes([(address, stats)], StatsValueBytes))
  {
    var a := Addresses.Encode(address);
    assert [(address, rollCount)] + [] == [(address, rollCount)];
    EntryListBytesCons((address, rollCount), [], RollValueBytes);
    assert a + VarInt.Encode(rollCount) + [] == a + VarInt.Encode(rollCount);
    assert [(address, stats)] + [] == [(address, stats)];
    EntryListBytesCons((address, stats), [], StatsValueBytes);
    AppendAssociates(a, VarInt.Encode(stats.blockSuccessCount), VarInt.Encode(stats.blockFailureCount));
    assert a + StatsValueBytes(stats) + [] == a + StatsValueBytes(stats);
  }

  /** A roll list as written: its length, then its entries. */
  function EncodeRollList(entries: seq<(Address, U64)>): seq<byte>
  {
    VarInt.Encode(|entries|) + EntryListBytes(entries, RollValueBytes)
  }

  /** A statistics list as written: its length, then its entries. */
  function EncodeStatsList(entries: seq<(Address, ProductionStats)>): seq<byte>
  {
    VarInt.Encode(|entries|) + EntryListBytes(entries, StatsValueBytes)
  }

  /** One (address, roll count) pair: the element parser of `RollsDeserializer`. */
  function DecodeRollEntry(s: seq<byte>): (r: ParseResult<(Address, U64)>)
    ensures r.Done? ==> s == Addresses.Encode(r.value.0) + RollValueBytes(r.value.1) + r.rest
  {
    var (address, s1) :- Addresses.Decode(s, RollAddress);
    var (rollCount, s2) :- VarInt.Decode(s1, U64_MAX, RollNumber);
    Done((address, rollCount), s2)
  }

  /** `length_count` over an entry parser that consumes exactly the bytes of the
      entry it returns consumes exactly the bytes of the entry list it returns. */
  lemma {:induction false} LengthCountEntryBytes<V>(item: seq<byte> -> ParseResult<(Address, V)>,
                                                    valueBytes: V -> seq<byte>, s: seq<byte>, count: nat)
    requires forall t :: item(t).Done? ==> t == Addresses.Encode(item(t).value.0) + valueBytes(item(t).value.1) + item(t).rest
    ensures var r := LengthCount(item, s, count);
            r.Done? ==> s == EntryListBytes(r.value, valueBytes) + r.rest
    decreases count
  {
    if count > 0 && item(s).Done? {
      var e, s1 := item(s).value, item(s).rest;
      LengthCountEntryBytes(item, valueBytes, s1, count - 1);
      var r := LengthCount(item, s1, count - 1);
      if r.Done? {
        var head := Addresses.Encode(e.0) + valueBytes(e.1);
        EntryListBytesCons(e, r.value, valueBytes);
        AppendAssociates(head, EntryListBytes(r.value, valueBytes), r.rest);
      }
    }
  }

  /** The `count` pairs of `length_count`, in wire order. */
  function DecodeRollEntries(s: seq<byte>, count: nat): (r: ParseResult<seq<(Address, U64)>>)
    ensures r.Done? ==> |r.value| == count && s == EntryListBytes(r.value, RollValueBytes) + r.rest
  {
    LengthCountEntryBytes(DecodeRollEntry, RollValueBytes, s, count);
    LengthCount(DecodeRollEntry, s, count)
  }

  /** `RollsDeserializer::deserialize`: a length of at most `maxRollsLength`, then
      that many pairs. */
  function DecodeRolls(s: seq<byte>, maxRollsLength: U64): (r: ParseResult<seq<(Address, U64)>>)
    ensures r.Done? ==> |r.value| <= maxRollsLength && s == EncodeRollList(r.value) + r.rest
  {
    var (count, s1) :- VarInt.Decode(s, maxRollsLength, RollsLength);
    DecodeRollEntries(s1, count)
  }

  /** One (address, success, failure) triple: the element parser of
      `ProductionStatsDeserializer`. */
  function DecodeStatsEntry(s: seq<byte>): (r: ParseResult<(Address, ProductionStats)>)
    ensures r.Done? ==> s == Addresses.Encode(r.value.0) + StatsValueBytes(r.value.1) + r.rest
  {
    var (address, s1) :- Addresses.Decode(s, StatsAddress);
    var (success, s2) :- VarInt.Decode(s1, U64_MAX, StatsSuccessCount);
    var (failure, s3) :- VarInt.Decode(s2, U64_MAX, StatsFailureCount);
    assert s == Addresses.Encode(address) + (VarInt.Encode(success) + VarInt.Encode(failure)) + s3 by {
      AppendAssociates(VarInt.Encode(success), VarInt.Encode(failure), s3);
      AppendAssociates(Addresses.Encode(address), VarInt.Encode(success) + VarInt.Encode(failure), s3);
    }
    Done((address, ProductionStats(success, failure)), s3)
  }

  /** The `count` triples of `length_count`, in wire order. */
  function DecodeStatsEntries(s: seq<byte>, count: nat): (r: ParseResult<seq<(Address, ProductionStats)>>)
    ensures r.Done? ==> |r.value| == count && s == EntryListBytes(r.value, StatsValueBytes) + r.rest
  {
    LengthCountEntryBytes(DecodeStatsEntry, StatsValueBytes, s, count);
    LengthCount(DecodeStatsEntry, s, count)
  }

  /** The triples of `ProductionStatsDeserializer` before they are collected. */
  function DecodeStatsList(s: seq<byte>, maxProductionStatsLength: U64): (r: ParseResult<seq<(Address, ProductionStats)>>)
    ensures r.Done? ==> |r.value| <= maxProductionStatsLength && s == EncodeStatsList(r.value) + r.rest
  {
    var (count, s1) :- VarInt.Decode(s, maxProductionStatsLength, StatsLength);
    DecodeStatsEntries(s1, count)
  }

  /** `ProductionStatsDeserializer::deserialize`: the triples collected into a
      map, so an address listed twice keeps its last statistics. */
  function DecodeProductionStats(s: seq<byte>, maxProductionStatsLength: U64): (r: ParseResult<map<Address, ProductionStats>>)
    ensures r.Done? ==> |r.value| <= maxProductionStatsLength
  {
    var (entries, s1) :- DecodeStatsList(s, maxProductionStatsLength);
    CollectSize(entries);
    Done(Collect(entries), s1)
  }

  /** One written (address, roll count) pair is read back. */
  lemma RollEntryReadsBack(e: (Address, U64), rest: seq<byte>)
    ensures DecodeRollEntry(Addresses.Encode(e.0) + RollValueBytes(e.1) + rest) == Done(e, rest)
  {
    AppendAssociates(Addresses.Encode(e.0), VarInt.Encode(e.1), rest);
    Addresses.RoundTrip(e.0, VarInt.Encode(e.1) + rest, RollAddress);
    VarInt.RoundTrip(e.1, rest, U64_MAX, RollNumber);
  }

  /** One written (address, statistics) triple is read back. */
  lemma StatsEntryReadsBack(e: (Address, ProductionStats), rest: seq<byte>)
    ensures DecodeStatsEntry(Addresses.Encode(e.0) + StatsValueBytes(e.1) + rest) == Done(e, rest)
  {
    var success, failure := VarInt.Encode(e.1.blockSuccessCount), VarInt.Encode(e.1.blockFailureCount);
    assert Addresses.Encode(e.0) + StatsValueBytes(e.1) + rest == Addresses.Encode(e.0) + (success + (failure + rest)) by {
      AppendAssociates(Addresses.Encode(e.0), success + failure, rest);
      AppendAssociates(success, failure, rest);
    }
    Addresses.RoundTrip(e.0, success + (failure + rest), StatsAddress);
    VarInt.RoundTrip(e.1.blockSuccessCount, failure + rest, U64_MAX, StatsSuccessCount);
    VarInt.RoundTrip(e.1.blockFailureCount, rest, U64_MAX, StatsFailureCount);
  }

  lemma {:induction false} RollEntriesRoundTrip(entries: seq<(Address, U64)>, rest: seq<byte>)
    ensures DecodeRollEntries(EntryListBytes(entries, RollValueBytes) + rest, |entries|) == Done(entries, rest)
    decreases |entries|
  {
    if |entries| > 0 {
      var e, more := entries[0], entries[1..];
      var head, tail := Addresses.Encode(e.0) + RollValueBytes(e.1), EntryListBytes(more, RollValueBytes) + rest;
      assert EntryListBytes(entries, RollValueBytes) + rest == head + tail by {
        assert entries == [e] + more;
        EntryListBytesCons(e, more, RollValueBytes);
        AppendAssociates(head, EntryListBytes(more, RollValueBytes), rest);
      }
      RollEntryReadsBack(e, tail);
      RollEntriesRoundTrip(more, rest);
      LengthCountCons(DecodeRollEntry, head + tail, e, tail, more, rest, |more|);
      assert [e] + more == entries;
    }
  }

  lemma {:induction false} StatsEntriesRoundTrip(entries: seq<(Address, ProductionStats)>, rest: seq<byte>)
    ensures DecodeStatsEntries(EntryListBytes(entries, StatsValueBytes) + rest, |entries|) == Done(entries, rest)
    decreases |entries|
  {
    if |entries| > 0 {
      var e, more := entries[0], entries[1..];
      var head, tail := Addresses.Encode(e.0) + StatsValueBytes(e.1), EntryListBytes(more, StatsValueBytes) + rest;
      assert EntryListBytes(entries, StatsValueBytes) + rest == head + tail by {
        assert entries == [e] + more;
        EntryListBytesCons(e, more, StatsValueBytes);
        AppendAssociates(head, EntryListBytes(more, StatsValueBytes), rest);
      }
      StatsEntryReadsBack(e, tail);
      StatsEntriesRoundTrip(more, rest);
      LengthCountCons(DecodeStatsEntry, head + tail, e, tail, more, rest, |more|);
      assert [e] + more == entries;
    }
  }

  /** Any roll list within the bound is read back as written, leaving the input
      after it unread. */
  lemma RollListRoundTrip(entries: seq<(Address, U64)>, rest: seq<byte>, maxRollsLength: U64)
    requires |entries| <= maxRollsLength
    ensures DecodeRolls(EncodeRollList(entries) + rest, maxRollsLength) == Done(entries, rest)
  {
    var t := EntryListBytes(entries, RollValueBytes) + rest;
    assert EncodeRollList(entries) + rest == VarInt.Encode(|entries|) + t;
    VarInt.RoundTrip(|entries|, t, maxRollsLength, RollsLength);
    RollEntriesRoundTrip(entries, rest);
  }

  /** Any statistics list within the bound is read back and collected: a repeated
      address keeps the statistics of its last occurrence. */
  lemma StatsListRoundTrip(entries: seq<(Address, ProductionStats)>, rest: seq<byte>, maxProductionStatsLength: U64)
    requires |entries| <= maxProductionStatsLength
    ensures DecodeStatsList(EncodeStatsList(entries) + rest, maxProductionStatsLength) == Done(entries, rest)
    ensures DecodeProductionStats(EncodeStatsList(entries) + rest, maxProductionStatsLength) == Done(Collect(entries), rest)
  {
    var t := EntryListBytes(entries, StatsValueBytes) + rest;
    assert EncodeStatsList(entries) + rest == VarInt.Encode(|entries|) + t;
    VarInt.RoundTrip(|entries|, t, maxProductionStatsLength, StatsLength);
    StatsEntriesRoundTrip(entries, rest);
  }

  /** A declared roll count above the bound fails on the length, whatever follows. */
  lemma RollsLengthAboveMax(count: U64, tail: seq<byte>, maxRollsLength: U64)
    requires maxRollsLength < count
    ensures DecodeRolls(VarInt.Encode(count) + tail, maxRollsLength) == Fail(DecodeError(RollsLength))
  {
    VarInt.AboveMaxFails(count, tail, maxRollsLength, RollsLength);
  }

  /** A declared statistics count above the bound fails on the length, whatever
      follows. */
  lemma StatsLengthAboveMax(count: U64, tail: seq<byte>, maxProductionStatsLength: U64)
    requires maxProductionStatsLength < count
    ensures DecodeProductionStats(VarInt.Encode(count) + tail, maxProductionStatsLength) == Fail(DecodeError(StatsLength))
  {
    VarInt.AboveMaxFails(count, tail, maxProductionStatsLength, StatsLength);
  }

  // ---------------------------------------------------------------------------
  // Serialization

  /** The orders in which a serializer visited the two maps of a `CycleInfo`. */
  datatype MapOrder = MapOrder(rolls: seq<(Address, U64)>, stats: seq<(Address, ProductionStats)>)

  /** `order` lists each map of `c` exactly once. */
  ghost predicate Lists(order: MapOrder, c: CycleInfo)
  {
    Enumerates(order.rolls, c.rollCounts) && Enumerates(order.stats, c.productionStats)
  }

  /** The orders `CycleInfoSerializer` uses: the `BTreeMap` of rolls in ascending
      address order, the statistics hash map in whatever order it yields. */
  ghost predicate SerializerOrder(order: MapOrder, c: CycleInfo)
  {
    Lists(order, c) && AscendingKeys(order.rolls)
  }

  /** The bytes `CycleInfoSerializer` writes for `c` when it visits the maps in
      `order`. */
  function EncodeCycleInfo(c: CycleInfo, order: MapOrder): seq<byte>
  {
    VarInt.Encode(c.cycle) + [CompleteByte(c.complete)] + EncodeRollList(order.rolls)
    + BitVecCodec.Encode(c.rngSeed) + EncodeStatsList(order.stats)
    + OptionHashCodec.Encode(c.finalStateHashSnapshot)
  }

  /** The roll loop of `CycleInfoSerializer::serialize`: the count, then each
      entry in ascending address order. */
  method SerializeRollCounts(rollCounts: map<Address, U64>, buffer: ByteBuffer)
    returns (ghost entries: seq<(Address, U64)>)
    modifies buffer
    ensures Enumerates(entries, rollCounts) && AscendingKeys(entries)
    ensures buffer.data == old(buffer.data) + EncodeRollList(entries)
  {
    buffer.Extend(VarInt.Encode(|rollCounts|));
    ghost var start := buffer.data;
    entries := [];
    var rest := rollCounts;
    while rest != map[]
      invariant forall a :: a in rest ==> a in rollCounts && rest[a] == rollCounts[a]
      invariant Enumerates(entries, rollCounts - rest.Keys)
      invariant AscendingKeys(entries)
      invariant forall i, a :: 0 <= i < |entries| && a in rest ==> Less(entries[i].0, a)
      invariant buffer.data == start + EntryListBytes(entries, RollValueBytes)
      decreases |rest|
    {
      LeastExists(rest.Keys);
      var address :| address in rest && forall b :: b in rest && b != address ==> Less(address, b);
      var rollCount := rest[address];
      buffer.Extend(Addresses.Encode(address));
      buffer.Extend(VarInt.Encode(rollCount));
      EntryWritten(start, entries, (address, rollCount), RollValueBytes, buffer.data);
      RemoveNext(rollCounts, rest, entries, address);
      LeastNext(entries, rest, address);
      entries := entries + [(address, rollCount)];
      rest := rest - {address};
    }
    assert rollCounts - rest.Keys == rollCounts;
    EnumerationLength(entries, rollCounts);
    AppendAssociates(old(buffer.data), VarInt.Encode(|rollCounts|), EntryListBytes(entries, RollValueBytes));
  }

  /** After the entry `e` is written, the buffer holds one more listed entry. */
  lemma EntryWritten<V>(start: seq<byte>, entries: seq<(Address, V)>, e: (Address, V),
                        valueBytes: V -> seq<byte>, data: seq<byte>)
    requires data == start + EntryListBytes(entries, valueBytes) + Addresses.Encode(e.0) + valueBytes(e.1)
    ensures data == start + EntryListBytes(entries + [e], valueBytes)
  {
    EntryListBytesAppend(entries, e, valueBytes);
  }

  /** Moving the entry under `address` from the part still to visit to the part
      already listed keeps the listing an enumeration of what has been visited. */
  lemma RemoveNext<V>(m: map<Address, V>, rest: map<Address, V>, entries: seq<(Address, V)>, address: Address)
    requires forall a :: a in rest ==> a in m && rest[a] == m[a]
    requires Enumerates(entries, m - rest.Keys)
    requires address in rest
    ensures Enumerates(entries + [(address, rest[address])], m - (rest - {address}).Keys)
    ensures |rest - {address}| < |rest|
  {
    EnumeratesAppend(entries, m - rest.Keys, address, rest[address]);
    assert (m - rest.Keys)[address := rest[address]] == m - (rest - {address}).Keys;
    assert (rest - {address}).Keys == rest.Keys - {address};
  }

  /** Listing the least address still to visit keeps the listing ascending and
      below every address still to visit. */
  lemma LeastNext<V>(entries: seq<(Address, V)>, rest: map<Address, V>, address: Address)
    requires AscendingKeys(entries)
    requires forall i, a :: 0 <= i < |entries| && a in rest ==> Less(entries[i].0, a)
    requires address in rest && forall b :: b in rest && b != address ==> Less(address, b)
    ensures AscendingKeys(entries + [(address, rest[address])])
    ensures forall i, a :: 0 <= i < |entries| + 1 && a in rest - {address} ==>
              Less((entries + [(address, rest[address])])[i].0, a)
  {
  }

  /** `ProductionStatsSerializer::serialize`: the count, then each entry in the
      hash map's iteration order, which is left unspecified. */
  method SerializeProductionStats(productionStats: map<Address, ProductionStats>, buffer: ByteBuffer)
    returns (ghost entries: seq<(Address, ProductionStats)>)
    modifies buffer
    ensures Enumerates(entries, productionStats)
    ensures buffer.data == old(buffer.data) + EncodeStatsList(entries)
  {
    buffer.Extend(VarInt.Encode(|productionStats|));
    ghost var start := buffer.data;
    entries := [];
    var rest := productionStats;
    while rest != map[]
      invariant forall a :: a in rest ==> a in productionStats && rest[a] == productionStats[a]
      invariant Enumerates(entries, productionStats - rest.Keys)
      invariant buffer.data == start + EntryListBytes(entries, StatsValueBytes)
      decreases |rest|
    {
      var address :| address in rest;
      var stats := rest[address];
      buffer.Extend(Addresses.Encode(address));
      buffer.Extend(VarInt.Encode(stats.blockSuccessCount));
      buffer.Extend(VarInt.Encode(stats.blockFailureCount));
      AppendAssociates(start + EntryListBytes(entries, StatsValueBytes) + Addresses.Encode(address),
                       VarInt.Encode(stats.blockSuccessCount), VarInt.Encode(stats.blockFailureCount));
      EntryWritten(start, entries, (address, stats), StatsValueBytes, buffer.data);
      RemoveNext(productionStats, rest, entries, address);
      entries := entries + [(address, stats)];
      rest := rest - {address};
    }
    assert productionStats - rest.Keys == productionStats;
    EnumerationLength(entries, productionStats);
    AppendAssociates(old(buffer.data), VarInt.Encode(|productionStats|), EntryListBytes(entries, StatsValueBytes));
  }

  /** `CycleInfoSerializer::serialize`: appends the encoding of `c` to the buffer.
      The hashes of `c` are not written. */
  method SerializeCycleInfo(c: CycleInfo, buffer: ByteBuffer) returns (ghost order: MapOrder)
    modifies buffer
    ensures SerializerOrder(order, c)
    ensures buffer.data == old(buffer.data) + EncodeCycleInfo(c, order)
  {
    ghost var start := buffer.data;
    buffer.Extend(VarInt.Encode(c.cycle));
    ghost var written := VarInt.Encode(c.cycle);
    buffer.Push(CompleteByte(c.complete));
    AppendAssociates(start, written, [CompleteByte(c.complete)]);
    written := written + [CompleteByte(c.complete)];
    ghost var rolls;
    rolls := SerializeRollCounts(c.rollCounts, buffer);
    AppendAssociates(start, written, EncodeRollList(rolls));
    written := written + EncodeRollList(rolls);
    buffer.Extend(BitVecCodec.Encode(c.rngSeed));
    AppendAssociates(start, written, BitVecCodec.Encode(c.rngSeed));
    written := written + BitVecCodec.Encode(c.rngSeed);
    ghost var stats;
    stats := SerializeProductionStats(c.productionStats, buffer);
    AppendAssociates(start, written, EncodeStatsList(stats));
    written := written + EncodeStatsList(stats);
    buffer.Extend(OptionHashCodec.Encode(c.finalStateHashSnapshot));
    AppendAssociates(start, written, OptionHashCodec.Encode(c.finalStateHashSnapshot));
    written := written + OptionHashCodec.Encode(c.finalStateHashSnapshot);
    order := MapOrder(rolls, stats);
  }

  // ---------------------------------------------------------------------------
  // Deserialization

  /** `CycleInfoDeserializer::deserialize`: reads the six wire fields, rebuilds
      the value through `new_with_hash` (rolls collected into a map) and then sets
      only the snapshot. No hash is taken from the input, so whatever it decodes
      has hashes that agree with its data. */
  ghost function DecodeCycleInfo(hash: HashFn, s: seq<byte>, maxRollsLength: U64, maxProductionStatsLength: U64)
    : (r: ParseResult<CycleInfo>)
    ensures r.Done? ==> HashesConsistent(hash, r.value)
    ensures r.Done? ==> |r.value.rollCounts| <= maxRollsLength
    ensures r.Done? ==> |r.value.productionStats| <= maxProductionStatsLength
  {
    var (cycle, s1) :- VarInt.Decode(s, U64_MAX, Cycle);
    var (complete, s2) :- DecodeComplete(s1);
    var (rolls, s3) :- DecodeRolls(s2, maxRollsLength);
    var (rngSeed, s4) :- BitVecCodec.Decode(s3);
    var (productionStats, s5) :- DecodeProductionStats(s4, maxProductionStatsLength);
    var (snapshot, s6) :- OptionHashCodec.Decode(s5);
    CollectSize(rolls);
    var c := NewCycleInfo(hash, cycle, complete, Collect(rolls), rngSeed, productionStats);
    Done(c.(finalStateHashSnapshot := snapshot), s6)
  }

  /** What a decoder accepts: collections no larger than its bounds and a seed
      whose bit count fits the `u64` length prefix. */
  ghost predicate WithinBounds(c: CycleInfo, maxRollsLength: U64, maxProductionStatsLength: U64)
  {
    |c.rollCounts| <= maxRollsLength && |c.productionStats| <= maxProductionStatsLength
    && |c.rngSeed| <= U64_MAX
  }

  /** Decoding any encoding of `c`'s wire fields, whatever entry lists it carries
      (repeated addresses included), gives `new_with_hash` of the collected fields
      with `c`'s snapshot: none of `c`'s hashes matter, and a repeated address
      keeps its last value. Exactly the bytes written are consumed. */
  lemma DecodeEncoded(hash: HashFn, c: CycleInfo, order: MapOrder, rest: seq<byte>,
                      maxRollsLength: U64, maxProductionStatsLength: U64)
    requires |order.rolls| <= maxRollsLength && |order.stats| <= maxProductionStatsLength
    requires |c.rngSeed| <= U64_MAX
    ensures DecodeCycleInfo(hash, EncodeCycleInfo(c, order) + rest, maxRollsLength, maxProductionStatsLength)
         == Done(NewCycleInfo(hash, c.cycle, c.complete, Collect(order.rolls), c.rngSeed, Collect(order.stats))
                   .(finalStateHashSnapshot := c.finalStateHashSnapshot), rest)
  {
    var t5 := OptionHashCodec.Encode(c.finalStateHashSnapshot) + rest;
    var t4 := EncodeStatsList(order.stats) + t5;
    var t3 := BitVecCodec.Encode(c.rngSeed) + t4;
    var t2 := EncodeRollList(order.rolls) + t3;
    var t1 := [CompleteByte(c.complete)] + t2;
    Nest7(VarInt.Encode(c.cycle), [CompleteByte(c.complete)], EncodeRollList(order.rolls),
          BitVecCodec.Encode(c.rngSeed), EncodeStatsList(order.stats),
          OptionHashCodec.Encode(c.finalStateHashSnapshot), rest);
    VarInt.RoundTrip(c.cycle, t1, U64_MAX, Cycle);
    CompleteRoundTrip(c.complete, t2);
    RollListRoundTrip(order.rolls, t3, maxRollsLength);
    BitVecCodec.RoundTrip(c.rngSeed, t4);
    StatsListRoundTrip(order.stats, t5, maxProductionStatsLength);
    OptionHashCodec.RoundTrip(c.finalStateHashSnapshot, rest);
  }

  /** Round trip: a `CycleInfo` built by `new_with_hash` (with any snapshot) and
      within the decoder's bounds is decoded from its serialization, in any entry
      order, as an equal value, and exactly the bytes written are consumed. */
  lemma RoundTrip(hash: HashFn, c: CycleInfo, order: MapOrder, rest: seq<byte>,
                  maxRollsLength: U64, maxProductionStatsLength: U64)
    requires HashesConsistent(hash, c)
    requires Lists(order, c)
    requires WithinBounds(c, maxRollsLength, maxProductionStatsLength)
    ensures DecodeCycleInfo(hash, EncodeCycleInfo(c, order) + rest, maxRollsLength, maxProductionStatsLength)
         == Done(c, rest)
  {
    EnumerationLength(order.rolls, c.rollCounts);
    EnumerationLength(order.stats, c.productionStats);
    CollectEnumeration(order.rolls, c.rollCounts);
    CollectEnumeration(order.stats, c.productionStats);
    DecodeEncoded(hash, c, order, rest, maxRollsLength, maxProductionStatsLength);
  }

  /** A flag byte other than 0 or 1, or a missing one, is an error. */
  lemma BadCompleteFlagFails(hash: HashFn, cycle: U64, tail: seq<byte>,
                             maxRollsLength: U64, maxProductionStatsLength: U64)
    requires |tail| == 0 || 1 < tail[0]
    ensures DecodeCycleInfo(hash, VarInt.Encode(cycle) + tail, maxRollsLength, maxProductionStatsLength)
         == Fail(DecodeError(Complete))
  {
    VarInt.RoundTrip(cycle, tail, U64_MAX, Cycle);
  }

  /** A declared roll count above `max_rolls_length` fails before any roll entry
      is read. */
  lemma RollsAboveMaxFails(hash: HashFn, cycle: U64, complete: bool, count: U64, tail: seq<byte>,
                           maxRollsLength: U64, maxProductionStatsLength: U64)
    requires maxRollsLength < count
    ensures DecodeCycleInfo(hash, VarInt.Encode(cycle) + [CompleteByte(complete)] + VarInt.Encode(count) + tail,
                            maxRollsLength, maxProductionStatsLength)
         == Fail(DecodeError(RollsLength))
  {
    var t2 := VarInt.Encode(count) + tail;
    Nest4(VarInt.Encode(cycle), [CompleteByte(complete)], VarInt.Encode(count), tail);
    VarInt.RoundTrip(cycle, [CompleteByte(complete)] + t2, U64_MAX, Cycle);
    CompleteRoundTrip(complete, t2);
    RollsLengthAboveMax(count, tail, maxRollsLength);
  }

  /** A declared statistics count above `max_production_stats_length` fails
      before any statistics entry is read. */
  lemma StatsAboveMaxFails(hash: HashFn, cycle: U64, complete: bool, rolls: seq<(Address, U64)>,
                           rngSeed: seq<bool>, count: U64, tail: seq<byte>,
                           maxRollsLength: U64, maxProductionStatsLength: U64)
    requires |rolls| <= maxRollsLength && |rngSeed| <= U64_MAX
    requires maxProductionStatsLength < count
    ensures DecodeCycleInfo(hash, VarInt.Encode(cycle) + [CompleteByte(complete)] + EncodeRollList(rolls)
                                  + BitVecCodec.Encode(rngSeed) + VarInt.Encode(count) + tail,
                            maxRollsLength, maxProductionStatsLength)
         == Fail(DecodeError(StatsLength))
  {
    var t4 := VarInt.Encode(count) + tail;
    var t3 := BitVecCodec.Encode(rngSeed) + t4;
    var t2 := EncodeRollList(rolls) + t3;
    var t1 := [CompleteByte(complete)] + t2;
    Nest6(VarInt.Encode(cycle), [CompleteByte(complete)], EncodeRollList(rolls),
          BitVecCodec.Encode(rngSeed), VarInt.Encode(count), tail);
    VarInt.RoundTrip(cycle, t1, U64_MAX, Cycle);
    CompleteRoundTrip(complete, t2);
    RollListRoundTrip(rolls, t3, maxRollsLength);
    BitVecCodec.RoundTrip(rngSeed, t4);
    StatsLengthAboveMax(count, tail, maxProductionStatsLength);
  }
}

/** The wire format of the cycle history (`CycleHistorySerializer`,
    `CycleHistoryDeserializer`): the number of cycles as a varint bounded by
    `max_cycle_history_length`, then each `CycleInfo` encoding, oldest first. */
module CycleHistoryCodec {
  import opened Bytes
  import opened Parsing
  import opened CycleInfos
  import opened CycleInfoCodec
  import VarInt

  /** The cycle encodings one after the other, each with its own map orders. */
  function CycleInfoListBytes(history: seq<CycleInfo>, orders: seq<MapOrder>): seq<byte>
    requires |orders| == |history|
    decreases |history|
  {
    if |history| == 0 then []
    else EncodeCycleInfo(history[0], orders[0]) + CycleInfoListBytes(history[1..], orders[1..])
  }

  /** Writing one more cycle appends its encoding. */
  lemma {:induction false} CycleInfoListBytesAppend(history: seq<CycleInfo>, orders: seq<MapOrder>,
                                                    c: CycleInfo, order: MapOrder)
    requires |orders| == |history|
    ensures CycleInfoListBytes(history + [c], orders + [order])
         == CycleInfoListBytes(history, orders) + EncodeCycleInfo(c, order)
    decreases |history|
  {
    if |history| == 0 {
      assert (history + [c])[1..] == [] && (orders + [order])[1..] == [];
    } else {
      assert (history + [c])[1..] == history[1..] + [c];
      assert (orders + [order])[1..] == orders[1..] + [order];
      CycleInfoListBytesAppend(history[1..], orders[1..], c, order);
      AppendAssociates(EncodeCycleInfo(history[0], orders[0]), CycleInfoListBytes(history[1..], orders[1..]),
                       EncodeCycleInfo(c, order));
    }
  }

  /** The bytes `CycleHistorySerializer` writes for `history` when it visits the
      maps of cycle `i` in `orders[i]`. */
  function EncodeCycleHistory(history: seq<CycleInfo>, orders: seq<MapOrder>): seq<byte>
    requires |orders| == |history|
  {
    VarInt.Encode(|history|) + CycleInfoListBytes(history, orders)
  }

  /** `CycleHistorySerializer::serialize`: the length, then every cycle front to
      back. */
  method SerializeCycleHistory(history: seq<CycleInfo>, buffer: ByteBuffer) returns (ghost orders: seq<MapOrder>)
    modifies buffer
    ensures |orders| == |history|
    ensures forall i :: 0 <= i < |history| ==> SerializerOrder(orders[i], history[i])
    ensures buffer.data == old(buffer.data) + EncodeCycleHistory(history, orders)
  {
    buffer.Extend(VarInt.Encode(|history|));
    ghost var start := buffer.data;
    orders := [];
    var i := 0;
    while i < |history|
      invariant 0 <= i <= |history| && |orders| == i
      invariant forall j :: 0 <= j < i ==> SerializerOrder(orders[j], history[j])
      invariant buffer.data == start + CycleInfoListBytes(history[..i], orders)
    {
      ghost var order;
      order := SerializeCycleInfo(history[i], buffer);
      CycleWritten(start, history, orders, i, order, buffer.data);
      OrdersExtend(history, orders, i, order);
      orders := orders + [order];
      i := i + 1;
    }
    assert history[..i] == history;
    AppendAssociates(old(buffer.data), VarInt.Encode(|history|), CycleInfoListBytes(history, orders));
  }

  lemma CycleWritten(start: seq<byte>, history: seq<CycleInfo>, orders: seq<MapOrder>, i: nat,
                     order: MapOrder, data: seq<byte>)
    requires i < |history| && |orders| == i
    requires data == start + CycleInfoListBytes(history[..i], orders) + EncodeCycleInfo(history[i], order)
    ensures data == start + CycleInfoListBytes(history[..i + 1], orders + [order])
  {
    var done, next := CycleInfoListBytes(history[..i], orders), EncodeCycleInfo(history[i], order);
    assert CycleInfoListBytes(history[..i + 1], orders + [order]) == done + next by {
      TakeOneMore(history, i);
      CycleInfoListBytesAppend(history[..i], orders, history[i], order);
    }
    AppendAssociates(start, done, next);
  }

  lemma OrdersExtend(history: seq<CycleInfo>, orders: seq<MapOrder>, i: nat, order: MapOrder)
    requires i < |history| && |orders| == i
    requires forall j :: 0 <= j < i ==> SerializerOrder(orders[j], history[j])
    requires SerializerOrder(order, history[i])
    ensures forall j :: 0 <= j < i + 1 ==> SerializerOrder((orders + [order])[j], history[j])
  {
    forall j | 0 <= j < i + 1
      ensures SerializerOrder((orders + [order])[j], history[j])
    {
      if j < i {
        assert (orders + [order])[j] == orders[j];
      }
    }
  }

  /** Every cycle's hashes agree with its data, as `new_with_hash` leaves them. */
  ghost predicate AllConsistent(hash: HashFn, cycles: seq<CycleInfo>)
    decreases |cycles|
  {
    |cycles| > 0 ==> HashesConsistent(hash, cycles[0]) && AllConsistent(hash, cycles[1..])
  }

  /** The item parser `length_count` applies: one `CycleInfoDeserializer` pass. */
  ghost function CycleItem(hash: HashFn, maxRollsLength: U64, maxProductionStatsLength: U64)
    : seq<byte> -> ParseResult<CycleInfo>
  {
    s => DecodeCycleInfo(hash, s, maxRollsLength, maxProductionStatsLength)
  }

  /** Every cycle `length_count` yields was rebuilt by `new_with_hash`. */
  lemma {:induction false} DecodedCyclesConsistent(hash: HashFn, s: seq<byte>, count: nat,
                                                   maxRollsLength: U64, maxProductionStatsLength: U64)
    ensures var r := LengthCount(CycleItem(hash, maxRollsLength, maxProductionStatsLength), s, count);
            r.Done? ==> AllConsistent(hash, r.value)
    decreases count
  {
    var item := CycleItem(hash, maxRollsLength, maxProductionStatsLength);
    if count > 0 && item(s).Done? {
      var s1 := item(s).rest;
      DecodedCyclesConsistent(hash, s1, count - 1, maxRollsLength, maxProductionStatsLength);
      var r := LengthCount(item, s1, count - 1);
      if r.Done? {
        assert ([item(s).value] + r.value)[1..] == r.value;
      }
    }
  }

  /** `CycleHistoryDeserializer::deserialize`: at most `maxCycleHistoryLength`
      cycles, each rebuilt with hashes that agree with its data. */
  ghost function DecodeCycleHistory(hash: HashFn, s: seq<byte>, maxCycleHistoryLength: U64,
                                    maxRollsLength: U64, maxProductionStatsLength: U64): (r: ParseResult<seq<CycleInfo>>)
    ensures r.Done? ==> |r.value| <= maxCycleHistoryLength
    ensures r.Done? ==> AllConsistent(hash, r.value)
  {
    var (count, s1) :- VarInt.Decode(s, maxCycleHistoryLength, HistoryLength);
    DecodedCyclesConsistent(hash, s1, count, maxRollsLength, maxProductionStatsLength);
    LengthCount(CycleItem(hash, maxRollsLength, maxProductionStatsLength), s1, count)
  }

  /** A cycle that `new_with_hash` could build, listed in `order`, within the
      decoder's bounds. */
  ghost predicate CycleDecodable(hash: HashFn, c: CycleInfo, order: MapOrder,
                                 maxRollsLength: U64, maxProductionStatsLength: U64)
  {
    HashesConsistent(hash, c) && Lists(order, c) && WithinBounds(c, maxRollsLength, maxProductionStatsLength)
  }

  /** Every cycle of the history is decodable with its orders. */
  ghost predicate Decodable(hash: HashFn, history: seq<CycleInfo>, orders: seq<MapOrder>,
                            maxRollsLength: U64, maxProductionStatsLength: U64)
    decreases |history|
  {
    && |orders| == |history|
    && (|history| > 0 ==>
          && CycleDecodable(hash, history[0], orders[0], maxRollsLength, maxProductionStatsLength)
          && Decodable(hash, history[1..], orders[1..], maxRollsLength, maxProductionStatsLength))
  }

  /** A decodable first cycle is read back by the item parser. */
  lemma CycleItemReadsBack(hash: HashFn, c: CycleInfo, order: MapOrder, rest: seq<byte>,
                           maxRollsLength: U64, maxProductionStatsLength: U64)
    requires CycleDecodable(hash, c, order, maxRollsLength, maxProductionStatsLength)
    ensures CycleItem(hash, maxRollsLength, maxProductionStatsLength)(EncodeCycleInfo(c, order) + rest)
         == Done(c, rest)
  {
    CycleInfoCodec.RoundTrip(hash, c, order, rest, maxRollsLength, maxProductionStatsLength);
  }

  lemma {:induction false} CycleInfosRoundTrip(hash: HashFn, history: seq<CycleInfo>, orders: seq<MapOrder>,
                                               rest: seq<byte>, maxRollsLength: U64, maxProductionStatsLength: U64)
    requires Decodable(hash, history, orders, maxRollsLength, maxProductionStatsLength)
    ensures LengthCount(CycleItem(hash, maxRollsLength, maxProductionStatsLength),
                        CycleInfoListBytes(history, orders) + rest, |history|)
         == Done(history, rest)
    decreases |history|
  {
    if |history| > 0 {
      var item := CycleItem(hash, maxRollsLength, maxProductionStatsLength);
      var c, more, order, moreOrders := history[0], history[1..], orders[0], orders[1..];
      var first, moreBytes := EncodeCycleInfo(c, order), CycleInfoListBytes(more, moreOrders);
      CycleInfosRoundTrip(hash, more, moreOrders, rest, maxRollsLength, maxProductionStatsLength);
      CycleItemReadsBack(hash, c, order, moreBytes + rest, maxRollsLength, maxProductionStatsLength);
      LengthCountCons(item, first + (moreBytes + rest), c, moreBytes + rest, more, rest, |more|);
      AppendAssociates(first, moreBytes, rest);
      HeadTail(history);
    }
  }

  /** Round trip: a history of at most `maxCycleHistoryLength` decodable cycles is
      decoded from its serialization as the same cycles in the same order, and
      exactly the bytes written are consumed. */
  lemma RoundTrip(hash: HashFn, history: seq<CycleInfo>, orders: seq<MapOrder>, rest: seq<byte>,
                  maxCycleHistoryLength: U64, maxRollsLength: U64, maxProductionStatsLength: U64)
    requires |history| <= maxCycleHistoryLength
    requires Decodable(hash, history, orders, maxRollsLength, maxProductionStatsLength)
    ensures DecodeCycleHistory(hash, EncodeCycleHistory(history, orders) + rest,
                               maxCycleHistoryLength, maxRollsLength, maxProductionStatsLength)
         == Done(history, rest)
  {
    var t := CycleInfoListBytes(history, orders) + rest;
    AppendAssociates(VarInt.Encode(|history|), CycleInfoListBytes(history, orders), rest);
    VarInt.RoundTrip(|history|, t, maxCycleHistoryLength, HistoryLength);
    CycleInfosRoundTrip(hash, history, orders, rest, maxRollsLength, maxProductionStatsLength);
  }

  /** The orders `SerializeCycleHistory` reports make any history of
      `new_with_hash` cycles within the bounds decodable. */
  lemma {:induction false} SerializerOrdersDecodable(hash: HashFn, history: seq<CycleInfo>, orders: seq<MapOrder>,
                                                     maxRollsLength: U64, maxProductionStatsLength: U64)
    requires |orders| == |history|
    requires forall i :: 0 <= i < |history| ==> SerializerOrder(orders[i], history[i])
    requires forall i :: 0 <= i < |history| ==>
               HashesConsistent(hash, history[i]) && WithinBounds(history[i], maxRollsLength, maxProductionStatsLength)
    ensures Decodable(hash, history, orders, maxRollsLength, maxProductionStatsLength)
    decreases |history|
  {
    if |history| > 0 {
      forall i | 0 <= i < |history| - 1
        ensures SerializerOrder(orders[1..][i], history[1..][i])
        ensures HashesConsistent(hash, history[1..][i])
        ensures WithinBounds(history[1..][i], maxRollsLength, maxProductionStatsLength)
      {
        assert orders[1..][i] == orders[i + 1] && history[1..][i] == history[i + 1];
      }
      SerializerOrdersDecodable(hash, history[1..], orders[1..], maxRollsLength, maxProductionStatsLength);
    }
  }

  /** What `SerializeCycleHistory` writes for a history of at most
      `maxCycleHistoryLength` cycles built by `new_with_hash` within the bounds is
      decoded as that history, with exactly the written bytes consumed. */
  lemma SerializedHistoryRoundTrip(hash: HashFn, history: seq<CycleInfo>, orders: seq<MapOrder>, rest: seq<byte>,
                                   maxCycleHistoryLength: U64, maxRollsLength: U64, maxProductionStatsLength: U64)
    requires |history| <= maxCycleHistoryLength
    requires |orders| == |history|
    requires forall i :: 0 <= i < |history| ==> SerializerOrder(orders[i], history[i])
    requires forall i :: 0 <= i < |history| ==>
               HashesConsistent(hash, history[i]) && WithinBounds(history[i], maxRollsLength, maxProductionStatsLength)
    ensures DecodeCycleHistory(hash, EncodeCycleHistory(history, orders) + rest,
                               maxCycleHistoryLength, maxRollsLength, maxProductionStatsLength)
         == Done(history, rest)
  {
    SerializerOrdersDecodable(hash, history, orders, maxRollsLength, maxProductionStatsLength);
    RoundTrip(hash, history, orders, rest, maxCycleHistoryLength, maxRollsLength, maxProductionStatsLength);
  }

  /** A declared history length above `max_cycle_history_length` fails before any
      cycle is read. */
  lemma HistoryAboveMaxFails(hash: HashFn, count: U64, tail: seq<byte>, maxCycleHistoryLength: U64,
                             maxRollsLength: U64, maxProductionStatsLength: U64)
    requires maxCycleHistoryLength < count
    ensures DecodeCycleHistory(hash, VarInt.Encode(count) + tail, maxCycleHistoryLength,
                               maxRollsLength, maxProductionStatsLength)
         == Fail(DecodeError(HistoryLength))
  {
    VarInt.AboveMaxFails(count, tail, maxCycleHistoryLength, HistoryLength);
  }
}

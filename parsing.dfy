/** The shape every deserializer returns: the decoded value and the input it left
    unread, or a failure tagged with the field being decoded. */
module Parsing {
  import opened Bytes

  datatype Option<+T> = None | Some(value: T)

  /** The innermost context label active when decoding fails. */
  datatype Field =
    | Cycle
    | Complete
    | RollsLength
    | RollAddress
    | RollNumber
    | RngSeed
    | StatsLength
    | StatsAddress
    | StatsSuccessCount
    | StatsFailureCount
    | FinalStateHashSnapshot
    | HistoryLength

  datatype DecodeError = DecodeError(field: Field)

  datatype ParseResult<+T> = Done(value: T, rest: seq<byte>) | Fail(error: DecodeError) {

    predicate IsFailure() {
      Fail?
    }

    function PropagateFailure<U>(): ParseResult<U>
      requires Fail?
    {
      Fail(error)
    }

    function Extract(): (T, seq<byte>)
      requires Done?
    {
      (value, rest)
    }
  }

  /** nom's `length_count` once the count is read: `count` items, each parsed
      from what the previous one left, failing with the first failing item's
      error. */
  function LengthCount<T>(item: seq<byte> -> ParseResult<T>, s: seq<byte>, count: nat): (r: ParseResult<seq<T>>)
    ensures r.Done? ==> |r.value| == count
    decreases count
  {
    if count == 0 then Done([], s)
    else
      var (x, s1) :- item(s);
      var (more, s2) :- LengthCount(item, s1, count - 1);
      Done([x] + more, s2)
  }

  /** `length_count` reads an item, then the remaining items from what it left. */
  lemma LengthCountCons<T>(item: seq<byte> -> ParseResult<T>, s: seq<byte>, x: T, s1: seq<byte>,
                           more: seq<T>, rest: seq<byte>, count: nat)
    requires item(s) == Done(x, s1)
    requires LengthCount(item, s1, count) == Done(more, rest)
    ensures LengthCount(item, s, count + 1) == Done([x] + more, rest)
  {
  }
}

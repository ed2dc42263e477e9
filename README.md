# Cycle state of the Massa Proof-of-Stake, in Dafny

A model of `massa-pos-exports/src/cycle_info.rs`. That file holds one
Proof-of-Stake cycle's state (a `CycleInfo`), which consists of:

- the cycle number;
- whether the cycle is complete;
- the roll count of every staking address;
- the random seed bits;
- the per-address block production statistics;
- three hashes that summarize the cycle.

The file covers four things:

- how `CycleInfo::new_with_hash` derives the three hashes;
- `ProductionStats::extend` and `ProductionStats::is_satisfying`;
- the binary codec of a `CycleInfo`, of a production-statistics map and of a roll list;
- the codec of the cycle history.

The modules follow that structure:

| module | file | contents |
|---|---|---|
| `Bytes` | `bytes.dfy` | bytes, `u64`, 32-byte digests and their bytewise XOR with its algebra, and the `Vec<u8>` buffer the serializers push into (a class) |
| `Parsing` | `parsing.dfy` | the result of a deserializer (value and unread input, or a failure tagged with the field), and nom's `length_count` |
| `VarInt`, `Addresses`, `BitVecCodec`, `OptionHashCodec` | `varint.dfy`, `address.dfy`, `bitvec.dfy`, `option_hash.dfy` | stand-ins for the codecs of the collaborating crates |
| `Entries` | `entries.dfy` | enumerations of a map (the order an iterator yields its entries in) and `collect()` into a map |
| `XorFold` | `xor_fold.dfy` | the XOR aggregate of a map, and its independence from iteration order |
| `Stats` | `production_stats.dfy` | the `ProductionStats` datatype, the class `ProductionStatsCell` whose `Extend` updates the two counters in place, and the miss-ratio predicate |
| `CycleInfos` | `cycle_info.dfy` | the field hashes of `CycleInfoHashComputer`, the `CycleInfo` datatype, and `NewWithHash` with its two accumulator loops |
| `CycleInfoCodec` | `cycle_info_codec.dfy` | the `CycleInfo`, roll-list and statistics-map serializers as methods over the buffer, and the deserializers as functions |
| `CycleHistoryCodec` | `cycle_history_codec.dfy` | the history serializer (a loop over the cycles) and the history deserializer |

Hashing goes through `hash: HashFn`, a parameter that stands for
`Hash::compute_from`. Every result holds whatever that function is.

The aggregates are specified by `XorFold.Fold`, a fold over a map that takes its
entries in an arbitrary order. The loops of `new_with_hash`
(`CycleInfos.ComputeRollCountsHash`, `CycleInfos.ComputeProductionStatsHash`)
take the entries in any order and are proved to end at `Fold`.

Each serializer returns, as a ghost out-parameter, the order in which it wrote
the entries:

- `SerializeRollCounts` and `SerializeProductionStats` return an entry sequence;
- `SerializeCycleInfo` returns a `MapOrder` holding both sequences;
- `SerializeCycleHistory` returns one `MapOrder` per cycle.

Every encoder is a function of the value *and* that order.

Three decoders are ghost functions, because they rebuild the value with
`CycleInfos.NewCycleInfo`, whose aggregates are the ghost `Fold`:

- `CycleInfoCodec.DecodeCycleInfo`;
- `CycleHistoryCodec.DecodeCycleHistory`;
- its item parser `CycleHistoryCodec.CycleItem`.

The other decoders are compiled functions:

- `DecodeComplete`;
- `DecodeRolls`;
- `DecodeStatsList`;
- `DecodeProductionStats`;
- the stand-in codecs.

The executable computation of the aggregates is `CycleInfos.NewWithHash`.

The production-statistics map is a hash map with no fixed iteration order.
The aggregate is an XOR, so any order gives the same value
(`CycleInfos.ProductionStatsHashOrderIndependent`). The serializer writes the
entries in the map's own order, and `CycleInfoCodec.RoundTrip` holds for every
order.

## Model

| member | source | states |
|---|---|---|
| `CycleInfos.CycleHash` | massa-pos-exports/src/cycle_info.rs:43-48 | the hash of the varint encoding of the cycle number |
| `CycleInfos.CompleteHash` | massa-pos-exports/src/cycle_info.rs:50-56 | the hash of the varint encoding of `complete as u64`, 1 or 0 |
| `CycleInfos.SeedHash` | massa-pos-exports/src/cycle_info.rs:58-62 | the hash of the bit-vector encoding of the seed |
| `CycleInfos.RollEntryHash` | massa-pos-exports/src/cycle_info.rs:64-69 | the hash of the address encoding followed by the varint of the roll count |
| `CycleInfos.ProdStatsEntryHash` | massa-pos-exports/src/cycle_info.rs:71-85 | the hash of the address encoding followed by the varints of the success count and then the failure count |
| `CycleInfoCodec.EntryHashesOfWrittenEntries` | massa-pos-exports/src/cycle_info.rs:64-85 | each entry hash of the hash computer is the hash of exactly the bytes the serializer loops write for that entry |
| `CycleInfos.ComputeRollCountsHash` | massa-pos-exports/src/cycle_info.rs:130-132 | the accumulator loop over the roll counts, starting from the all-zero hash and visiting the entries in any order, ends with the XOR of every entry hash of the map |
| `CycleInfos.ComputeProductionStatsHash` | massa-pos-exports/src/cycle_info.rs:134-136 | the same for the production statistics |
| `CycleInfos.NewWithHash` | massa-pos-exports/src/cycle_info.rs:114-154 | the inputs are stored unchanged; the two aggregates are the XOR folds of the entry hashes; the global hash is the hash of the cycle, flag and seed hashes followed by both aggregates; the snapshot is unset |
| `CycleInfos.RollCountsHashOrderIndependent` | massa-pos-exports/src/cycle_info.rs:130-132 | folding the roll entries in any enumeration of the map gives the same aggregate |
| `CycleInfos.ProductionStatsHashOrderIndependent` | massa-pos-exports/src/cycle_info.rs:134-136 | folding the statistics in any enumeration gives the same aggregate, so the unordered map needs no canonical order |
| `CycleInfos.RollCountsHashInsertRemove` | massa-pos-exports/src/cycle_info.rs:130-132 | adding a roll entry under a fresh address XORs its entry hash into the aggregate; XORing it again restores the previous aggregate |
| `CycleInfos.RollCountsHashReplace` | massa-pos-exports/src/cycle_info.rs:130-132 | changing an address's roll count XORs the old entry hash out and the new one in |
| `CycleInfos.ProductionStatsHashInsertRemove` | massa-pos-exports/src/cycle_info.rs:134-136 | the same insert/remove law for the statistics aggregate |
| `CycleInfos.ProductionStatsHashReplace` | massa-pos-exports/src/cycle_info.rs:134-136 | the same replace law for the statistics aggregate |
| `XorFold.FoldAnyFirst` | massa-pos-exports/src/cycle_info.rs:130-136 | any entry may be folded in first: the aggregate does not depend on the order of the XORs |
| `XorFold.FoldEntriesOfEnumeration` | massa-pos-exports/src/cycle_info.rs:130-136 | the loop's left-to-right XOR over an enumeration of a map equals the map's aggregate |
| `XorFold.OrderIndependent` | massa-pos-exports/src/cycle_info.rs:130-136 | two iteration orders of one map give the same aggregate |
| `XorFold.FoldInsert` | massa-pos-exports/src/cycle_info.rs:131 | inserting a fresh key XORs its entry hash in |
| `XorFold.FoldRemove` | massa-pos-exports/src/cycle_info.rs:131 | removing a key XORs its entry hash out |
| `XorFold.FoldReplace` | massa-pos-exports/src/cycle_info.rs:131 | replacing a value XORs the old entry hash out and the new one in |
| `Bytes.XorCommutes` | massa-pos-exports/src/cycle_info.rs:131 | `^=` on hashes is commutative |
| `Bytes.XorAssociates` | massa-pos-exports/src/cycle_info.rs:131 | `^=` on hashes is associative |
| `Bytes.XorZero` | massa-pos-exports/src/cycle_info.rs:122 | the all-zero initial accumulator is the identity of `^=` |
| `Bytes.XorSelfCancels` | massa-pos-exports/src/cycle_info.rs:131 | a hash XORed with itself is zero, so XORing a hash in twice restores the accumulator |
| `Bytes.XorCancelsAcross` | massa-pos-exports/src/cycle_info.rs:131 | XORing the same hash into both operands leaves their XOR unchanged |
| `Stats.ProductionStatsCell.Extend` | massa-pos-exports/src/cycle_info.rs:310-317 | `extend` updates both counters of `self` in place to the saturating sums |
| `Stats.ExtendSaturates` | massa-pos-exports/src/cycle_info.rs:310-317 | each counter ends at `min(old + other, u64::MAX)`: never wrapped, never below either summand |
| `Stats.ExtendCommutesAndAssociates` | massa-pos-exports/src/cycle_info.rs:310-317 | merging partial statistics does not depend on the order or grouping of the merges |
| `Stats.IsSatisfying` | massa-pos-exports/src/cycle_info.rs:301-307 | with success + failure as the opportunity count: true when there were none; otherwise the exact comparison `failure * denom <= numer * opportunities`, which is `failure / opportunities <= numer / denom` |
| `Stats.IsSatisfyingMeansMissRatioAtMost` | massa-pos-exports/src/cycle_info.rs:301-307 | true when there was no opportunity; otherwise true exactly when `failure / (success + failure)`, as a rational, is at most the maximum miss ratio |
| `CycleInfoCodec.CompleteHashOfWireByte` | massa-pos-exports/src/cycle_info.rs:50-56 | the flag hashed as the varint of `complete as u64` is the very byte the serializer writes |
| `CycleInfoCodec.DecodeComplete` | massa-pos-exports/src/cycle_info.rs:251-254 | the flag decoder succeeds exactly on a leading byte 0 or 1, and what it read is the encoding of the flag it returns |
| `CycleInfoCodec.CompleteRoundTrip` | massa-pos-exports/src/cycle_info.rs:193 | the byte written for a flag is read back as that flag |
| `CycleInfoCodec.SerializeRollCounts` | massa-pos-exports/src/cycle_info.rs:196-201 | the roll loop writes the count, then every entry of the map once, in strictly ascending address order |
| `CycleInfoCodec.SerializeProductionStats` | massa-pos-exports/src/cycle_info.rs:344-365 | the statistics serializer writes the count, then every entry of the map once, in some order |
| `CycleInfoCodec.SerializeCycleInfo` | massa-pos-exports/src/cycle_info.rs:188-215 | appends cycle, flag byte, roll list, seed, statistics list and snapshot to the buffer, in that order, and nothing else; the hashes are not written |
| `CycleInfoCodec.DecodeRollEntries` | massa-pos-exports/src/cycle_info.rs:462-474 | the pairs read are exactly `count` and are what the consumed bytes encode |
| `CycleInfoCodec.LengthCountEntryBytes` | massa-pos-exports/src/cycle_info.rs:397-411 | `length_count` over an entry parser that consumes exactly its entry's encoding consumes exactly the encoding of the entry list it returns |
| `CycleInfoCodec.DecodeRolls` | massa-pos-exports/src/cycle_info.rs:455-478 | a decoded roll list is no longer than `max_rolls_length`, and the consumed bytes are its encoding |
| `CycleInfoCodec.DecodeStatsList` | massa-pos-exports/src/cycle_info.rs:395-413 | a decoded triple list is no longer than `max_production_stats_length`, and the consumed bytes are its encoding |
| `CycleInfoCodec.DecodeStatsEntries` | massa-pos-exports/src/cycle_info.rs:397-411 | reads exactly `count` triples whose consumed bytes are their encoding |
| `CycleInfoCodec.DecodeProductionStats` | massa-pos-exports/src/cycle_info.rs:390-430 | the collected statistics map has at most `max_production_stats_length` entries |
| `CycleInfoCodec.RollListRoundTrip` | massa-pos-exports/src/cycle_info.rs:455-478 | any roll list within the bound is read back as written, and the bytes after it are left unread |
| `CycleInfoCodec.StatsListRoundTrip` | massa-pos-exports/src/cycle_info.rs:390-430 | any statistics list within the bound is read back; collected into a map, a repeated address keeps its last statistics |
| `CycleInfoCodec.RollsLengthAboveMax` | massa-pos-exports/src/cycle_info.rs:445-448 | a declared roll count above `max_rolls_length` fails on the length, whatever follows |
| `CycleInfoCodec.StatsLengthAboveMax` | massa-pos-exports/src/cycle_info.rs:380-383 | a declared statistics count above `max_production_stats_length` fails on the length, whatever follows |
| `CycleInfoCodec.DecodeCycleInfo` | massa-pos-exports/src/cycle_info.rs:242-287 | a decoded `CycleInfo` always has hashes consistent with its data, because none is read from the input; its maps respect the two bounds |
| `CycleInfoCodec.DecodeEncoded` | massa-pos-exports/src/cycle_info.rs:267-283 | decoding any encoding gives `new_with_hash` of the decoded fields, with the rolls collected (last value wins) and the snapshot from the input; no hash of the encoded value matters |
| `CycleInfoCodec.RoundTrip` | massa-pos-exports/src/cycle_info.rs:188-287 | a `CycleInfo` built by `new_with_hash`, with any snapshot and within the bounds, is decoded from its serialization in any entry order as an equal value, with exactly the written bytes consumed |
| `CycleInfoCodec.BadCompleteFlagFails` | massa-pos-exports/src/cycle_info.rs:251-254 | a missing flag byte, or one other than 0 and 1, is a decode error on the flag |
| `CycleInfoCodec.RollsAboveMaxFails` | massa-pos-exports/src/cycle_info.rs:462-465 | inside a `CycleInfo`, a roll count above the bound fails before any roll entry is read |
| `CycleInfoCodec.StatsAboveMaxFails` | massa-pos-exports/src/cycle_info.rs:397-400 | inside a `CycleInfo`, a statistics count above the bound fails before any statistics entry is read |
| `CycleHistoryCodec.SerializeCycleHistory` | massa-pos-exports/src/cycle_info.rs:504-517 | writes the number of cycles, then every cycle's encoding front to back, each with the roll order of its `BTreeMap` |
| `CycleHistoryCodec.DecodedCyclesConsistent` | massa-pos-exports/src/cycle_info.rs:554-561 | every cycle read by `length_count` has hashes consistent with its data |
| `CycleHistoryCodec.DecodeCycleHistory` | massa-pos-exports/src/cycle_info.rs:547-565 | a decoded history has at most `max_cycle_history_length` cycles, each with consistent hashes |
| `CycleHistoryCodec.CycleInfosRoundTrip` | massa-pos-exports/src/cycle_info.rs:554-561 | the cycle encodings written one after another are read back as the same cycles in the same order |
| `CycleHistoryCodec.RoundTrip` | massa-pos-exports/src/cycle_info.rs:504-565 | a history within the bound, of cycles built by `new_with_hash`, is decoded from its serialization as the same sequence, with exactly the written bytes consumed |
| `CycleHistoryCodec.SerializerOrdersDecodable` | massa-pos-exports/src/cycle_info.rs:504-517 | the per-cycle orders the history serializer reports, for cycles built by `new_with_hash` within the bounds, satisfy what the history decoder needs |
| `CycleHistoryCodec.SerializedHistoryRoundTrip` | massa-pos-exports/src/cycle_info.rs:504-565 | whatever the history serializer writes, for a bounded history of `new_with_hash` cycles, is decoded as that history with exactly the written bytes consumed |
| `CycleHistoryCodec.HistoryAboveMaxFails` | massa-pos-exports/src/cycle_info.rs:535-538 | a declared history length above `max_cycle_history_length` fails before any cycle is read |
| `Parsing.LengthCount` | massa-pos-exports/src/cycle_info.rs:554-561 | `length_count` yields exactly the requested number of items |
| `Entries.CollectKeepsLast` | massa-pos-exports/src/cycle_info.rs:278 | `collect()` keeps, for each address, the value of its last occurrence |
| `Entries.CollectEnumeration` | massa-pos-exports/src/cycle_info.rs:278 | collecting an enumeration of a map gives the map back |
| `Entries.CollectSize` | massa-pos-exports/src/cycle_info.rs:426 | collecting never yields more keys than there were pairs |
| `Addresses.LeastExists` | massa-pos-exports/src/cycle_info.rs:198 | a non-empty address set has a least element under the stand-in order |
| `VarInt.Decode` | massa-pos-exports/src/cycle_info.rs:445-448 | a bounded varint decode returns a value in `[0, max]`, and the bytes consumed are its canonical encoding |
| `VarInt.RoundTrip` | massa-pos-exports/src/cycle_info.rs:190 | a written `u64` within the bound is read back, and the bytes after it are left unread |
| `VarInt.AboveMaxFails` | massa-pos-exports/src/cycle_info.rs:445-448 | a value above the bound is rejected |
| `BitVecCodec.RoundTrip` | massa-pos-exports/src/cycle_info.rs:204 | a written seed is read back bit for bit |
| `BitVecCodec.UnpackPack` | massa-pos-exports/src/cycle_info.rs:204 | unpacking the packed bytes gives the bits back |
| `OptionHashCodec.Decode` | massa-pos-exports/src/cycle_info.rs:260-262 | the snapshot decoder fails exactly on a missing or invalid presence byte or a truncated hash, and otherwise consumes the snapshot's encoding |
| `OptionHashCodec.RoundTrip` | massa-pos-exports/src/cycle_info.rs:211-212 | a written snapshot is read back |
| `Addresses.RoundTrip` | massa-pos-exports/src/cycle_info.rs:199 | a written address is read back |

## Left out

- `Hash::compute_from` is the parameter `hash`. Its internals (the external `massa_hash` crate) are not part of this model. Nothing is said about collision resistance, so the model shows only that equal data gives equal hashes.
- The varint, address, bit-vector and optional-hash codecs live in crates that are not part of this model, so they are stand-ins.
  - The varint is unsigned LEB128, at most ten bytes, minimal encodings only.
  - An address is 32 raw bytes, ordered lexicographically; that order stands in for the `BTreeMap` key order.
  - The bit vector is a varint bit count, then the bits packed least-significant first. The decoder ignores the unused bits of the last byte, so a decoded seed is hashed over its zero-padded encoding, which need not be the bytes it was read from.
  - The optional hash is a presence byte 0 or 1, then the 32 bytes.
  - They are not claimed bit-exact.
- nom's errors and context labels become one `DecodeError` tagged with the innermost field that failed. The history decoder returns the failing cycle's own error instead of wrapping it in two more context labels.
- `PreHashMap` is a plain map. Its pre-hashing and iteration order are not modelled, which is why the statistics serializer is proved for every order.
- Serializer errors (`?`) are left out: the collaborators' serializers never fail, so every serializer method always succeeds.
- Lengths are written as `usize as u64`. The model writes the exact length and does not model a length above `u64::MAX`.
- `Ratio::new` reduces the fraction and panics on a zero denominator. `Stats.MissRatio` excludes a zero denominator, and the comparison is exact, so reduction changes nothing.
- `Stats.IsSatisfying`: requires `success + failure` to fit in a `u64`. The source adds them with a plain `+`, which panics in debug builds and wraps in release builds; neither behaviour is modelled.
- The constructors of the hash computer, serializers and deserializers only record configuration. The bounds they store are parameters of the decoders.
- `CycleInfos.NewWithHash`: the loops visit the map entries in any order, not only the `BTreeMap`'s ascending order. The result is proved for all of them.

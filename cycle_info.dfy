/** `CycleInfo`, the state of one Proof-of-Stake cycle, the per-field hashes of
    `CycleInfoHashComputer`, and the constructor `new_with_hash`, which derives the
    roll-count aggregate, the production-stats aggregate and the global cycle hash
    from the data it is given. */
module CycleInfos {
  import opened Bytes
  import opened Parsing
  import opened Addresses
  import opened Stats
  import opened Entries
  import opened XorFold
  import VarInt
  import BitVecCodec

  // CycleInfoHashComputer: each hash is taken over the wire encoding of its value.

  function CycleHash(hash: HashFn, cycle: U64): Digest
  {
    hash(VarInt.Encode(cycle))
  }

  /** `complete as u64`, which is also `u8::from(complete)`, the byte the
      serializer writes. */
  function CompleteByte(complete: bool): byte
  {
    if complete then 1 else 0
  }

  /** The flag is hashed as the varint of `complete as u64`. */
  function CompleteHash(hash: HashFn, complete: bool): Digest
  {
    hash(VarInt.Encode(CompleteByte(complete)))
  }

  function SeedHash(hash: HashFn, seed: seq<bool>): Digest
  {
    hash(BitVecCodec.Encode(seed))
  }

  function RollEntryHash(hash: HashFn, address: Address, rollCount: U64): Digest
  {
    hash(Addresses.Encode(address) + VarInt.Encode(rollCount))
  }

  function ProdStatsEntryHash(hash: HashFn, address: Address, stats: ProductionStats): Digest
  {
    hash(Addresses.Encode(address) + VarInt.Encode(stats.blockSuccessCount) + VarInt.Encode(stats.blockFailureCount))
  }

  function RollEntryHasher(hash: HashFn): (Address, U64) -> Digest
  {
    (address: Address, rollCount: U64) => RollEntryHash(hash, address, rollCount)
  }

  function ProdStatsEntryHasher(hash: HashFn): (Address, ProductionStats) -> Digest
  {
    (address: Address, stats: ProductionStats) => ProdStatsEntryHash(hash, address, stats)
  }

  /** The roll-count aggregate: the XOR of every roll entry's hash. */
  ghost function RollCountsHash(hash: HashFn, rollCounts: map<Address, U64>): Digest
  {
    Fold(rollCounts, RollEntryHasher(hash))
  }

  /** The production-stats aggregate: the XOR of every stats entry's hash. */
  ghost function ProductionStatsHash(hash: HashFn, productionStats: map<Address, ProductionStats>): Digest
  {
    Fold(productionStats, ProdStatsEntryHasher(hash))
  }

  function CycleGlobalHash(hash: HashFn, cycle: U64, complete: bool, rngSeed: seq<bool>,
                           rollCountsHash: Digest, productionStatsHash: Digest): Digest
  {
    hash(CycleHash(hash, cycle) + CompleteHash(hash, complete) + SeedHash(hash, rngSeed)
         + rollCountsHash + productionStatsHash)
  }

  datatype CycleInfo = CycleInfo(
    cycle: U64,
    complete: bool,
    rollCounts: map<Address, U64>,
    rngSeed: seq<bool>,
    productionStats: map<Address, ProductionStats>,
    rollCountsHash: Digest,
    productionStatsHash: Digest,
    cycleGlobalHash: Digest,
    finalStateHashSnapshot: Option<Digest>)

  /** The value `new_with_hash` builds from its arguments. */
  ghost function NewCycleInfo(hash: HashFn, cycle: U64, complete: bool, rollCounts: map<Address, U64>,
                              rngSeed: seq<bool>, productionStats: map<Address, ProductionStats>): CycleInfo
  {
    var rollCountsHash := RollCountsHash(hash, rollCounts);
    var productionStatsHash := ProductionStatsHash(hash, productionStats);
    CycleInfo(cycle, complete, rollCounts, rngSeed, productionStats, rollCountsHash, productionStatsHash,
              CycleGlobalHash(hash, cycle, complete, rngSeed, rollCountsHash, productionStatsHash), None)
  }

  /** `c` could have come out of `new_with_hash` followed by setting the snapshot,
      the one field set after construction: its three hashes agree with its data. */
  ghost predicate HashesConsistent(hash: HashFn, c: CycleInfo)
  {
    && c.rollCountsHash == RollCountsHash(hash, c.rollCounts)
    && c.productionStatsHash == ProductionStatsHash(hash, c.productionStats)
    && c.cycleGlobalHash == CycleGlobalHash(hash, c.cycle, c.complete, c.rngSeed,
                                            c.rollCountsHash, c.productionStatsHash)
  }

  lemma RollCountsHashStep(hash: HashFn, rollCounts: map<Address, U64>, address: Address)
    requires address in rollCounts
    ensures RollCountsHash(hash, rollCounts - {address})
         == Xor(RollCountsHash(hash, rollCounts), RollEntryHash(hash, address, rollCounts[address]))
  {
    FoldRemove(rollCounts, RollEntryHasher(hash), address);
  }

  lemma ProductionStatsHashStep(hash: HashFn, productionStats: map<Address, ProductionStats>, address: Address)
    requires address in productionStats
    ensures ProductionStatsHash(hash, productionStats - {address})
         == Xor(ProductionStatsHash(hash, productionStats), ProdStatsEntryHash(hash, address, productionStats[address]))
  {
    FoldRemove(productionStats, ProdStatsEntryHasher(hash), address);
  }

  /** The loop of `new_with_hash` that XORs every roll entry's hash into the
      zero accumulator, visiting the entries in an unspecified order. */
  method ComputeRollCountsHash(hash: HashFn, rollCounts: map<Address, U64>) returns (rollCountsHash: Digest)
    ensures rollCountsHash == RollCountsHash(hash, rollCounts)
  {
    rollCountsHash := ZERO_HASH;
    var rolls := rollCounts;
    XorZero(RollCountsHash(hash, rollCounts));
    while rolls != map[]
      invariant Xor(rollCountsHash, RollCountsHash(hash, rolls)) == RollCountsHash(hash, rollCounts)
      decreases |rolls|
    {
      var address :| address in rolls;
      var entryHash := RollEntryHash(hash, address, rolls[address]);
      RollCountsHashStep(hash, rolls, address);
      XorCancelsAcross(rollCountsHash, RollCountsHash(hash, rolls), entryHash);
      rollCountsHash := Xor(rollCountsHash, entryHash);
      assert (rolls - {address}).Keys == rolls.Keys - {address};
      rolls := rolls - {address};
    }
    XorZero(rollCountsHash);
  }

  /** The loop of `new_with_hash` over the production statistics. */
  method ComputeProductionStatsHash(hash: HashFn, productionStats: map<Address, ProductionStats>)
    returns (productionStatsHash: Digest)
    ensures productionStatsHash == ProductionStatsHash(hash, productionStats)
  {
    productionStatsHash := ZERO_HASH;
    var stats := productionStats;
    XorZero(ProductionStatsHash(hash, productionStats));
    while stats != map[]
      invariant Xor(productionStatsHash, ProductionStatsHash(hash, stats)) == ProductionStatsHash(hash, productionStats)
      decreases |stats|
    {
      var address :| address in stats;
      var entryHash := ProdStatsEntryHash(hash, address, stats[address]);
      ProductionStatsHashStep(hash, stats, address);
      XorCancelsAcross(productionStatsHash, ProductionStatsHash(hash, stats), entryHash);
      productionStatsHash := Xor(productionStatsHash, entryHash);
      assert (stats - {address}).Keys == stats.Keys - {address};
      stats := stats - {address};
    }
    XorZero(productionStatsHash);
  }

  /** `CycleInfo::new_with_hash`: the inputs are stored unchanged, the two
      aggregates are the XOR folds of the entry hashes (whatever order the maps are
      iterated in), the global hash is the hash of the concatenated field hashes,
      and the snapshot starts unset. */
  method NewWithHash(hash: HashFn, cycle: U64, complete: bool, rollCounts: map<Address, U64>,
                     rngSeed: seq<bool>, productionStats: map<Address, ProductionStats>) returns (c: CycleInfo)
    ensures c.cycle == cycle && c.complete == complete && c.rngSeed == rngSeed
    ensures c.rollCounts == rollCounts && c.productionStats == productionStats
    ensures c.rollCountsHash == RollCountsHash(hash, rollCounts)
    ensures c.productionStatsHash == ProductionStatsHash(hash, productionStats)
    ensures c.cycleGlobalHash == hash(CycleHash(hash, cycle) + CompleteHash(hash, complete) + SeedHash(hash, rngSeed)
                                      + c.rollCountsHash + c.productionStatsHash)
    ensures c.finalStateHashSnapshot == None
    ensures c == NewCycleInfo(hash, cycle, complete, rollCounts, rngSeed, productionStats)
  {
    var hashConcat: seq<byte> := [];
    hashConcat := hashConcat + CycleHash(hash, cycle);
    hashConcat := hashConcat + CompleteHash(hash, complete);
    hashConcat := hashConcat + SeedHash(hash, rngSeed);
    var rollCountsHash := ComputeRollCountsHash(hash, rollCounts);
    hashConcat := hashConcat + rollCountsHash;
    var productionStatsHash := ComputeProductionStatsHash(hash, productionStats);
    hashConcat := hashConcat + productionStatsHash;
    assert hashConcat == CycleHash(hash, cycle) + CompleteHash(hash, complete) + SeedHash(hash, rngSeed)
                         + rollCountsHash + productionStatsHash;

    var cycleGlobalHash := hash(hashConcat);
    c := CycleInfo(cycle, complete, rollCounts, rngSeed, productionStats,
                   rollCountsHash, productionStatsHash, cycleGlobalHash, None);
  }

  /** The roll-count aggregate is the same whatever order the entries are folded
      in: folding any enumeration of the map, as the loop in `new_with_hash` does,
      gives `RollCountsHash`. */
  lemma RollCountsHashOrderIndependent(hash: HashFn, entries: seq<(Address, U64)>, rollCounts: map<Address, U64>)
    requires Enumerates(entries, rollCounts)
    ensures FoldEntries(entries, RollEntryHasher(hash)) == RollCountsHash(hash, rollCounts)
  {
    FoldEntriesOfEnumeration(entries, rollCounts, RollEntryHasher(hash));
  }

  lemma ProductionStatsHashOrderIndependent(hash: HashFn, entries: seq<(Address, ProductionStats)>,
                                            productionStats: map<Address, ProductionStats>)
    requires Enumerates(entries, productionStats)
    ensures FoldEntries(entries, ProdStatsEntryHasher(hash)) == ProductionStatsHash(hash, productionStats)
  {
    FoldEntriesOfEnumeration(entries, productionStats, ProdStatsEntryHasher(hash));
  }

  /** Adding a roll entry under a fresh address XORs its entry hash in; removing it
      XORs the same hash back out, restoring the previous aggregate. */
  lemma RollCountsHashInsertRemove(hash: HashFn, rollCounts: map<Address, U64>, address: Address, rollCount: U64)
    requires address !in rollCounts
    ensures RollCountsHash(hash, rollCounts[address := rollCount])
         == Xor(RollCountsHash(hash, rollCounts), RollEntryHash(hash, address, rollCount))
    ensures Xor(RollCountsHash(hash, rollCounts[address := rollCount]), RollEntryHash(hash, address, rollCount))
         == RollCountsHash(hash, rollCounts)
  {
    FoldInsert(rollCounts, RollEntryHasher(hash), address, rollCount);
    XorSelfCancels(RollCountsHash(hash, rollCounts), RollEntryHash(hash, address, rollCount));
  }

  /** Changing the roll count of an address XORs out the old entry hash and XORs in
      the new one. */
  lemma RollCountsHashReplace(hash: HashFn, rollCounts: map<Address, U64>, address: Address, rollCount: U64)
    requires address in rollCounts
    ensures RollCountsHash(hash, rollCounts[address := rollCount])
         == Xor(Xor(RollCountsHash(hash, rollCounts), RollEntryHash(hash, address, rollCounts[address])),
                RollEntryHash(hash, address, rollCount))
  {
    FoldReplace(rollCounts, RollEntryHasher(hash), address, rollCount);
  }

  lemma ProductionStatsHashInsertRemove(hash: HashFn, productionStats: map<Address, ProductionStats>,
                                        address: Address, stats: ProductionStats)
    requires address !in productionStats
    ensures ProductionStatsHash(hash, productionStats[address := stats])
         == Xor(ProductionStatsHash(hash, productionStats), ProdStatsEntryHash(hash, address, stats))
    ensures Xor(ProductionStatsHash(hash, productionStats[address := stats]), ProdStatsEntryHash(hash, address, stats))
         == ProductionStatsHash(hash, productionStats)
  {
    FoldInsert(productionStats, ProdStatsEntryHasher(hash), address, stats);
    XorSelfCancels(ProductionStatsHash(hash, productionStats), ProdStatsEntryHash(hash, address, stats));
  }

  lemma ProductionStatsHashReplace(hash: HashFn, productionStats: map<Address, ProductionStats>,
                                   address: Address, stats: ProductionStats)
    requires address in productionStats
    ensures ProductionStatsHash(hash, productionStats[address := stats])
         == Xor(Xor(ProductionStatsHash(hash, productionStats), ProdStatsEntryHash(hash, address, productionStats[address])),
                ProdStatsEntryHash(hash, address, stats))
  {
    FoldReplace(productionStats, ProdStatsEntryHasher(hash), address, stats);
  }
}

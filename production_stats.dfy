/** `ProductionStats`: per-address counts of produced and missed blocks, merged
    with saturating addition and judged against a maximum miss ratio. */
module Stats {
  import opened Bytes

  datatype ProductionStats = ProductionStats(blockSuccessCount: U64, blockFailureCount: U64)

  /** `u64::saturating_add`. */
  function SaturatingAdd(a: U64, b: U64): U64
  {
    if a + b <= U64_MAX then a + b else U64_MAX
  }

  /** The value `ProductionStats::extend` leaves in `self`. */
  function Extended(self: ProductionStats, stats: ProductionStats): ProductionStats
  {
    ProductionStats(
      SaturatingAdd(self.blockSuccessCount, stats.blockSuccessCount),
      SaturatingAdd(self.blockFailureCount, stats.blockFailureCount))
  }

  /** Extending never wraps and never decreases a counter: each counter ends at
      `min(old + other, u64::MAX)`, at least both summands. */
  lemma ExtendSaturates(self: ProductionStats, stats: ProductionStats)
    ensures var r := Extended(self, stats);
      && r.blockSuccessCount == Min(self.blockSuccessCount + stats.blockSuccessCount, U64_MAX)
      && r.blockFailureCount == Min(self.blockFailureCount + stats.blockFailureCount, U64_MAX)
      && self.blockSuccessCount <= r.blockSuccessCount && stats.blockSuccessCount <= r.blockSuccessCount
      && self.blockFailureCount <= r.blockFailureCount && stats.blockFailureCount <= r.blockFailureCount
  {
  }

  /** Merging partial statistics does not depend on the order or grouping of the
      merges. */
  lemma ExtendCommutesAndAssociates(a: ProductionStats, b: ProductionStats, c: ProductionStats)
    ensures Extended(a, b) == Extended(b, a)
    ensures Extended(Extended(a, b), c) == Extended(a, Extended(b, c))
  {
  }

  /** A `ProductionStats` held in place, whose `extend` updates both counters of
      `self`. */
  class ProductionStatsCell {
    var blockSuccessCount: U64
    var blockFailureCount: U64

    constructor (stats: ProductionStats)
      ensures Value() == stats
    {
      blockSuccessCount := stats.blockSuccessCount;
      blockFailureCount := stats.blockFailureCount;
    }

    function Value(): ProductionStats
      reads this
    {
      ProductionStats(blockSuccessCount, blockFailureCount)
    }

    /** `ProductionStats::extend`: each counter is increased by the other's,
        saturating at `u64::MAX`. */
    method Extend(stats: ProductionStats)
      modifies this
      ensures Value() == Extended(old(Value()), stats)
    {
      blockSuccessCount := SaturatingAdd(blockSuccessCount, stats.blockSuccessCount);
      blockFailureCount := SaturatingAdd(blockFailureCount, stats.blockFailureCount);
    }
  }

  /** A `Ratio<u64>`; `Ratio::new` refuses a zero denominator. */
  datatype Ratio = Ratio(numer: U64, denom: U64)

  type MissRatio = r: Ratio | r.denom > 0 witness Ratio(0, 1)

  /** `ProductionStats::is_satisfying`: no opportunity yet, or a miss ratio
      `failure / (success + failure)` at most `maxMissRatio`, compared exactly by
      cross-multiplication. The source adds the two counts with a plain `+`, so
      their sum must fit a `u64`. */
  function IsSatisfying(self: ProductionStats, maxMissRatio: MissRatio): bool
    requires self.blockSuccessCount + self.blockFailureCount <= U64_MAX
  {
    var opportunities := self.blockSuccessCount + self.blockFailureCount;
    opportunities == 0 || self.blockFailureCount * maxMissRatio.denom <= maxMissRatio.numer * opportunities
  }

  lemma CrossMultiplication(a: nat, b: nat, c: nat, d: nat)
    requires b > 0 && d > 0
    ensures (a as real) / (b as real) <= (c as real) / (d as real) <==> a * d <= c * b
  {
    var x, y := (a as real) / (b as real), (c as real) / (d as real);
    assert a as real == x * (b as real);
    assert c as real == y * (d as real);
    assert (a * d) as real == x * (b as real) * (d as real);
    assert (c * b) as real == y * (d as real) * (b as real);
    if x <= y {
      assert x * ((b as real) * (d as real)) <= y * ((b as real) * (d as real));
    } else {
      assert x * ((b as real) * (d as real)) > y * ((b as real) * (d as real));
    }
  }

  /** Against the rational reading of the source: true when both counts are zero,
      otherwise true exactly when the miss ratio is at most the maximum. */
  lemma IsSatisfyingMeansMissRatioAtMost(self: ProductionStats, maxMissRatio: MissRatio)
    requires self.blockSuccessCount + self.blockFailureCount <= U64_MAX
    ensures self.blockSuccessCount == 0 && self.blockFailureCount == 0 ==> IsSatisfying(self, maxMissRatio)
    ensures var total := self.blockSuccessCount + self.blockFailureCount;
      total != 0 ==>
        (IsSatisfying(self, maxMissRatio) <==>
          (self.blockFailureCount as real) / (total as real)
            <= (maxMissRatio.numer as real) / (maxMissRatio.denom as real))
  {
    var total := self.blockSuccessCount + self.blockFailureCount;
    if total != 0 {
      CrossMultiplication(self.blockFailureCount, total, maxMissRatio.numer, maxMissRatio.denom);
    }
  }
}

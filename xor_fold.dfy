/** The aggregate hash of a map: the exclusive-or of one hash per entry, starting
    from the all-zero hash. */
module XorFold {
  import opened Bytes
  import opened Entries

  /** The aggregate of `m` under the entry hash `h`, taking the entries in an
      arbitrary order. */
  ghost function Fold<K, V>(m: map<K, V>, h: (K, V) -> Digest): Digest
    decreases |m|
  {
    if |m| == 0 then ZERO_HASH
    else
      var k :| k in m;
      assert |m - {k}| < |m| by { assert (m - {k}).Keys == m.Keys - {k}; }
      Xor(h(k, m[k]), Fold(m - {k}, h))
  }

  /** The aggregate as the source's loop computes it: `acc ^= h(entry)` for each
      entry in the iteration order `entries`. */
  function FoldEntries<K, V>(entries: seq<(K, V)>, h: (K, V) -> Digest): Digest
    decreases |entries|
  {
    if |entries| == 0 then ZERO_HASH
    else Xor(FoldEntries(entries[..|entries| - 1], h), h(entries[|entries| - 1].0, entries[|entries| - 1].1))
  }

  lemma RemoveTwice<K, V>(m: map<K, V>, j: K, k: K)
    requires j in m && k in m && j != k
    ensures k in m - {j} && j in m - {k}
    ensures |m - {j}| < |m| && |m - {k}| < |m|
    ensures (m - {j}) - {k} == (m - {k}) - {j}
  {
    assert (m - {j}).Keys == m.Keys - {j};
    assert (m - {k}).Keys == m.Keys - {k};
  }

  /** Any entry can be taken out first: the aggregate does not depend on the order
      in which the entries are folded in. */
  lemma {:induction false} FoldAnyFirst<K, V>(m: map<K, V>, h: (K, V) -> Digest, k: K)
    requires k in m
    ensures Fold(m, h) == Xor(h(k, m[k]), Fold(m - {k}, h))
    decreases |m|
  {
    var j :| j in m && Fold(m, h) == Xor(h(j, m[j]), Fold(m - {j}, h));
    if j != k {
      RemoveTwice(m, j, k);
      var rest := (m - {j}) - {k};
      var hj, hk := h(j, m[j]), h(k, m[k]);
      FoldAnyFirst(m - {j}, h, k);
      FoldAnyFirst(m - {k}, h, j);
      calc {
        Fold(m, h);
        Xor(hj, Xor(hk, Fold(rest, h)));
        { XorAssociates(hj, hk, Fold(rest, h)); XorCommutes(hj, hk); }
        Xor(Xor(hk, hj), Fold(rest, h));
        { XorAssociates(hk, hj, Fold(rest, h)); }
        Xor(hk, Fold(m - {k}, h));
      }
    }
  }

  /** Adding an entry under a fresh key XORs its hash into the aggregate. */
  lemma FoldInsert<K, V>(m: map<K, V>, h: (K, V) -> Digest, k: K, v: V)
    requires k !in m
    ensures Fold(m[k := v], h) == Xor(Fold(m, h), h(k, v))
  {
    FoldAnyFirst(m[k := v], h, k);
    assert m[k := v] - {k} == m;
    XorCommutes(h(k, v), Fold(m, h));
  }

  /** Removing an entry XORs its hash back out of the aggregate. */
  lemma FoldRemove<K, V>(m: map<K, V>, h: (K, V) -> Digest, k: K)
    requires k in m
    ensures Fold(m - {k}, h) == Xor(Fold(m, h), h(k, m[k]))
  {
    FoldAnyFirst(m, h, k);
    XorCommutes(h(k, m[k]), Fold(m - {k}, h));
    XorSelfCancels(Fold(m - {k}, h), h(k, m[k]));
    XorAssociates(Fold(m - {k}, h), h(k, m[k]), h(k, m[k]));
  }

  /** Replacing the value under a key XORs the old entry hash out and the new one in. */
  lemma FoldReplace<K, V>(m: map<K, V>, h: (K, V) -> Digest, k: K, v: V)
    requires k in m
    ensures Fold(m[k := v], h) == Xor(Xor(Fold(m, h), h(k, m[k])), h(k, v))
  {
    FoldRemove(m, h, k);
    FoldInsert(m - {k}, h, k, v);
    assert (m - {k})[k := v] == m[k := v];
  }

  /** Folding the entries in any iteration order gives the aggregate of the map. */
  lemma {:induction false} FoldEntriesOfEnumeration<K, V>(entries: seq<(K, V)>, m: map<K, V>, h: (K, V) -> Digest)
    requires Enumerates(entries, m)
    ensures FoldEntries(entries, h) == Fold(m, h)
    decreases |entries|
  {
    if |entries| == 0 {
      EnumerationLength(entries, m);
    } else {
      var last := entries[|entries| - 1];
      var init, m' := entries[..|entries| - 1], m - {last.0};
      assert Fold(m', h) == FoldEntries(init, h) by {
        EnumeratesDropLast(entries, m);
        FoldEntriesOfEnumeration(init, m', h);
      }
      assert Fold(m, h) == Xor(Fold(m', h), h(last.0, last.1)) by {
        assert last.0 in m && m[last.0] == last.1;
        FoldRemove(m, h, last.0);
        XorSelfCancels(Fold(m, h), h(last.0, last.1));
      }
    }
  }

  /** Two iteration orders of the same map give the same aggregate. */
  lemma OrderIndependent<K, V>(e1: seq<(K, V)>, e2: seq<(K, V)>, m: map<K, V>, h: (K, V) -> Digest)
    requires Enumerates(e1, m) && Enumerates(e2, m)
    ensures FoldEntries(e1, h) == FoldEntries(e2, h)
  {
    FoldEntriesOfEnumeration(e1, m, h);
    FoldEntriesOfEnumeration(e2, m, h);
  }
}

/** Maps seen as sequences of entries: the order a map iterator may yield them
    in, and `collect()` of a sequence of pairs back into a map. */
module Entries {

  /** `entries` lists every entry of `m` exactly once, in some order. */
  ghost predicate Enumerates<K, V>(entries: seq<(K, V)>, m: map<K, V>)
  {
    && (forall i, j :: 0 <= i < j < |entries| ==> entries[i].0 != entries[j].0)
    && (forall i :: 0 <= i < |entries| ==> entries[i].0 in m && m[entries[i].0] == entries[i].1)
    && (forall k :: k in m ==> exists i :: 0 <= i < |entries| && entries[i].0 == k)
  }

  /** `Iterator::collect` into a map: pairs are inserted front to back, so a key
      that occurs more than once keeps its last value. */
  function Collect<K, V>(entries: seq<(K, V)>): (m: map<K, V>)
    ensures m.Keys == set i | 0 <= i < |entries| :: entries[i].0
    decreases |entries|
  {
    if |entries| == 0 then map[]
    else
      var last := entries[|entries| - 1];
      var m' := Collect(entries[..|entries| - 1])[last.0 := last.1];
      assert forall i :: 0 <= i < |entries| - 1 ==> entries[..|entries| - 1][i] == entries[i];
      m'
  }

  /** The value `Collect` keeps for a key is the one of its last occurrence. */
  lemma {:induction false} CollectKeepsLast<K, V>(entries: seq<(K, V)>, i: nat)
    requires i < |entries|
    requires forall j :: i < j < |entries| ==> entries[j].0 != entries[i].0
    ensures entries[i].0 in Collect(entries) && Collect(entries)[entries[i].0] == entries[i].1
    decreases |entries|
  {
    if i < |entries| - 1 {
      var init := entries[..|entries| - 1];
      assert init[i] == entries[i];
      CollectKeepsLast(init, i);
    }
  }

  /** Collecting an enumeration of `m` gives back `m`. */
  lemma CollectEnumeration<K, V>(entries: seq<(K, V)>, m: map<K, V>)
    requires Enumerates(entries, m)
    ensures Collect(entries) == m
  {
    var c := Collect(entries);
    forall k | k in m
      ensures k in c && c[k] == m[k]
    {
      var i :| 0 <= i < |entries| && entries[i].0 == k;
      CollectKeepsLast(entries, i);
    }
    assert c.Keys == m.Keys;
  }

  lemma EnumeratesDropLast<K, V>(entries: seq<(K, V)>, m: map<K, V>)
    requires Enumerates(entries, m) && |entries| > 0
    ensures entries[|entries| - 1].0 in m
    ensures Enumerates(entries[..|entries| - 1], m - {entries[|entries| - 1].0})
  {
    var n := |entries| - 1;
    var init, m' := entries[..n], m - {entries[n].0};
    forall k | k in m'
      ensures exists i :: 0 <= i < |init| && init[i].0 == k
    {
      var i :| 0 <= i < |entries| && entries[i].0 == k;
      assert i != n;
      assert init[i].0 == k;
    }
  }

  lemma EnumeratesAppend<K, V>(entries: seq<(K, V)>, m: map<K, V>, k: K, v: V)
    requires Enumerates(entries, m) && k !in m
    ensures Enumerates(entries + [(k, v)], m[k := v])
  {
    var e := entries + [(k, v)];
    forall x | x == k || x in m
      ensures exists i :: 0 <= i < |e| && e[i].0 == x
    {
      if x == k {
        assert e[|entries|].0 == x;
      } else {
        var i :| 0 <= i < |entries| && entries[i].0 == x;
        assert e[i].0 == x;
      }
    }
  }

  /** An enumeration has exactly one entry per key. */
  lemma {:induction false} EnumerationLength<K, V>(entries: seq<(K, V)>, m: map<K, V>)
    requires Enumerates(entries, m)
    ensures |entries| == |m|
    decreases |entries|
  {
    if |entries| > 0 {
      var last := entries[|entries| - 1];
      EnumeratesDropLast(entries, m);
      EnumerationLength(entries[..|entries| - 1], m - {last.0});
      assert (m - {last.0}).Keys == m.Keys - {last.0};
    }
  }

  /** Collecting never yields more keys than there were pairs. */
  lemma {:induction false} CollectSize<K, V>(entries: seq<(K, V)>)
    ensures |Collect(entries)| <= |entries|
    decreases |entries|
  {
    if |entries| > 0 {
      var init, last := entries[..|entries| - 1], entries[|entries| - 1];
      CollectSize(init);
      var m := Collect(init);
      assert m[last.0 := last.1].Keys == m.Keys + {last.0};
    }
  }
}

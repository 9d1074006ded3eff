/**
 * Collecting a sequence of key/value pairs into a map, as Rust's
 * `Iterator::collect` into a `BTreeMap` or `HashMap` does: every pair is
 * inserted in turn, so a later pair overwrites an earlier one with the
 * same key.
 */
module KeyedIndex {

  /** `map(|v| (key(v), v))`: the i-th pair is the i-th value under its key.
      A plain `map`, whose contract only lists its elements; the map the
      pairs are collected into is described by `IndexLastWins`. */
  function Entries<K, V>(vs: seq<V>, key: V -> K): (r: seq<(K, V)>)
    ensures |r| == |vs| && forall i :: 0 <= i < |vs| ==> r[i] == (key(vs[i]), vs[i])
  {
    seq(|vs|, i requires 0 <= i < |vs| => (key(vs[i]), vs[i]))
  }

  function Index<K, V>(entries: seq<(K, V)>): (m: map<K, V>)
    ensures m.Keys == set i | 0 <= i < |entries| :: entries[i].0
  {
    if entries == [] then map[]
    else
      var last := entries[|entries| - 1];
      var m := Index(entries[..|entries| - 1]);
      assert forall i | 0 <= i < |entries| - 1 :: entries[..|entries| - 1][i] == entries[i];
      m[last.0 := last.1]
  }

  /** The value stored under a key is the one of the LAST pair with that key. */
  lemma {:induction false} IndexLastWins<K, V>(entries: seq<(K, V)>, k: K)
    requires k in Index(entries)
    ensures exists i :: 0 <= i < |entries| && entries[i] == (k, Index(entries)[k]) &&
                        forall j :: i < j < |entries| ==> entries[j].0 != k
  {
    var n := |entries|;
    var last := entries[n - 1];
    if last.0 == k {
      assert entries[n - 1] == (k, Index(entries)[k]);
    } else {
      var front := entries[..n - 1];
      assert Index(entries)[k] == Index(front)[k];
      IndexLastWins(front, k);
      var i :| 0 <= i < |front| && front[i] == (k, Index(front)[k]) &&
               forall j :: i < j < |front| ==> front[j].0 != k;
      assert entries[i] == front[i];
      forall j | i < j < n ensures entries[j].0 != k {
        if j < n - 1 { assert entries[j] == front[j]; }
      }
    }
  }

  /** Every stored value comes from some pair of the input. */
  lemma IndexValueFromEntries<K, V>(entries: seq<(K, V)>, k: K)
    requires k in Index(entries)
    ensures (k, Index(entries)[k]) in entries
  {
    IndexLastWins(entries, k);
  }
}

/** Removal of duplicate municipality-day rows that overlapping pages can
    produce: `data.groupby(["Concelho", "Data"]).last()`. */
module Deduplication {
  import opened Order
  import opened Records
  import opened Grouping

  /** The key of every row, in order. */
  function Keys(rows: seq<RawRecord>, key: RawRecord -> Key): (ks: seq<Key>)
    ensures |ks| == |rows| && forall i :: 0 <= i < |rows| ==> ks[i] == key(rows[i])
  {
    seq(|rows| , i requires 0 <= i < |rows| => key(rows[i]))
  }

  /** Row `j` is the last one in `rows` with its (Concelho, Data) key. */
  predicate IsLastOccurrence(rows: seq<RawRecord>, j: nat)
    requires j < |rows|
  {
    forall i :: j < i < |rows| ==> ConcelhoKey(rows[i]) != ConcelhoKey(rows[j])
  }

  /** `r` is the last row of `rows` with its (Concelho, Data) key. */
  predicate LastOfItsKey(rows: seq<RawRecord>, r: RawRecord)
  {
    var g := Filter(rows, ConcelhoKey, ConcelhoKey(r)); |g| > 0 && r == g[|g| - 1]
  }

  /** The last row of every group. */
  function LastOfEach(gs: seq<seq<RawRecord>>): (d: seq<RawRecord>)
    requires forall i :: 0 <= i < |gs| ==> |gs[i]| > 0
    ensures |d| == |gs| && forall i :: 0 <= i < |gs| ==> d[i] == gs[i][|gs[i]| - 1]
  {
    seq(|gs|, i requires 0 <= i < |gs| => gs[i][|gs[i]| - 1])
  }

  /** Taking the last row of each group keeps the groups' keys. */
  lemma LastOfEachKeys(gs: seq<seq<RawRecord>>)
    requires WellFormed(gs, ConcelhoKey)
    ensures Keys(LastOfEach(gs), ConcelhoKey) == GroupKeys(gs, ConcelhoKey)
  {
    var d := LastOfEach(gs);
    forall i | 0 <= i < |d|
      ensures ConcelhoKey(d[i]) == GroupKey(gs[i], ConcelhoKey)
    {
      assert d[i] == gs[i][|gs[i]| - 1];
    }
  }

  /** Taking the last row of each group of `rows` gives, for every group,
      the last input row with the group's key. */
  lemma LastOfEachLast(rows: seq<RawRecord>, gs: seq<seq<RawRecord>>)
    requires WellFormed(gs, ConcelhoKey)
    requires forall i :: 0 <= i < |gs| ==> gs[i] == Filter(rows, ConcelhoKey, GroupKey(gs[i], ConcelhoKey))
    ensures forall i :: 0 <= i < |gs| ==> LastOfItsKey(rows, LastOfEach(gs)[i])
  {
    var d := LastOfEach(gs);
    forall i | 0 <= i < |d|
      ensures LastOfItsKey(rows, d[i])
    {
      var g := gs[i];
      assert d[i] == g[|g| - 1];
      assert ConcelhoKey(g[|g| - 1]) == GroupKey(g, ConcelhoKey);
    }
  }

  /** One row per (Concelho, Data) key, keys ascending; each row is the last
      input row with its key, and every key of the input is kept. */
  function Dedup(rows: seq<RawRecord>): (d: seq<RawRecord>)
    ensures StrictlyIncreasing(Keys(d, ConcelhoKey))
    ensures forall i :: 0 <= i < |d| ==> LastOfItsKey(rows, d[i])
    ensures forall j :: 0 <= j < |rows| ==> ConcelhoKey(rows[j]) in Keys(d, ConcelhoKey)
  {
    var gs := Groups(rows, ConcelhoKey);
    GroupsSpec(rows, ConcelhoKey);
    LastOfEachKeys(gs);
    LastOfEachLast(rows, gs);
    LastOfEach(gs)
  }

  /** No (Concelho, Data) key occurs twice in the de-duplicated rows. */
  lemma DedupUnique(rows: seq<RawRecord>)
    ensures var d := Dedup(rows);
      forall i, j :: 0 <= i < j < |d| ==> ConcelhoKey(d[i]) != ConcelhoKey(d[j])
  {
    var d := Dedup(rows);
    StrictlyIncreasingDistinct(Keys(d, ConcelhoKey));
  }

  /** Last write wins: the last occurrence of every key is the row kept. */
  lemma DedupKeepsLastOccurrence(rows: seq<RawRecord>, j: nat)
    requires j < |rows| && IsLastOccurrence(rows, j)
    ensures rows[j] in Dedup(rows)
  {
    var k := ConcelhoKey(rows[j]);
    FilterLastIsLastOccurrence(rows, ConcelhoKey, j);
    var g := Filter(rows, ConcelhoKey, k);
    assert g[|g| - 1] == rows[j];
    DedupHasKey(rows, k, j);
  }

  lemma DedupHasKey(rows: seq<RawRecord>, k: Key, j: nat)
    requires j < |rows| && ConcelhoKey(rows[j]) == k
    ensures var g := Filter(rows, ConcelhoKey, k); |g| > 0 && g[|g| - 1] in Dedup(rows)
  {
    KeptRowOfKey(rows, Dedup(rows), k);
  }

  /** When `d` holds a row of key `k` and each row of `d` is the last row of
      its key, the last row of `k` is in `d`. */
  lemma KeptRowOfKey(rows: seq<RawRecord>, d: seq<RawRecord>, k: Key)
    requires forall i :: 0 <= i < |d| ==> LastOfItsKey(rows, d[i])
    requires k in Keys(d, ConcelhoKey)
    ensures var g := Filter(rows, ConcelhoKey, k); |g| > 0 && g[|g| - 1] in d
  {
    var i :| 0 <= i < |d| && Keys(d, ConcelhoKey)[i] == k;
    assert ConcelhoKey(d[i]) == k;
  }

  /** An earlier row that differs from the last occurrence of its
      (Concelho, Data) key is dropped. */
  lemma DedupDropsOverridden(rows: seq<RawRecord>, j: nat, l: nat)
    requires j < l < |rows| && ConcelhoKey(rows[j]) == ConcelhoKey(rows[l]) && IsLastOccurrence(rows, l)
    requires rows[j] != rows[l]
    ensures rows[j] !in Dedup(rows)
  {
    FilterLastIsLastOccurrence(rows, ConcelhoKey, l);
    LastRowsExclude(rows, Dedup(rows), rows[j], rows[l]);
  }

  /** Rows that are each the last of their key's rows exclude every other
      row with the key of `last`, when `last` is that key's last row. */
  lemma LastRowsExclude(rows: seq<RawRecord>, d: seq<RawRecord>, x: RawRecord, last: RawRecord)
    requires forall i :: 0 <= i < |d| ==> LastOfItsKey(rows, d[i])
    requires var g := Filter(rows, ConcelhoKey, ConcelhoKey(last)); |g| > 0 && g[|g| - 1] == last
    requires ConcelhoKey(x) == ConcelhoKey(last) && x != last
    ensures x !in d
  {
    forall i | 0 <= i < |d|
      ensures d[i] != x
    {
      if ConcelhoKey(d[i]) == ConcelhoKey(last) {
        assert d[i] == last;
      }
    }
  }
}

/** District aggregation: `_group_distrito` applied to every
    (Distrito, Data) group of the de-duplicated municipality rows. */
module Aggregation {
  import opened Order
  import opened Records
  import opened Grouping

  /** Sum of cumulative confirmed counts over a group. */
  function SumConfirmed(g: seq<RawRecord>): int
  {
    if |g| == 0 then 0 else SumConfirmed(g[..|g| - 1]) + g[|g| - 1].confirmed
  }

  /** Sum of cumulative awaiting-results counts over a group. */
  function SumAwaiting(g: seq<RawRecord>): int
  {
    if |g| == 0 then 0 else SumAwaiting(g[..|g| - 1]) + g[|g| - 1].awaiting
  }

  /** `group.iloc[0]` on an empty group raises. */
  datatype GroupError = EmptyGroup

  /** `_group_distrito`: the group's count fields summed, stamped with the
      `Data_Conc` of the group's first row. */
  function GroupDistrito(g: seq<RawRecord>): (r: Result<DistrictRow, GroupError>)
    ensures r.Err? <==> |g| == 0
    ensures r.Ok? ==> r.value.region == g[0].distrito && r.value.date == g[0].dataConc
  {
    if |g| == 0 then Err(EmptyGroup)
    else Ok(DistrictRow(g[0].distrito, g[0].dataConc, SumConfirmed(g), SumAwaiting(g)))
  }

  lemma {:induction false} SumsSplit(a: seq<RawRecord>, b: seq<RawRecord>)
    ensures SumConfirmed(a + b) == SumConfirmed(a) + SumConfirmed(b)
    ensures SumAwaiting(a + b) == SumAwaiting(a) + SumAwaiting(b)
    decreases |b|
  {
    if |b| == 0 {
      assert a + b == a;
    } else {
      assert (a + b)[..|a + b| - 1] == a + b[..|b| - 1];
      SumsSplit(a, b[..|b| - 1]);
    }
  }

  /** Aggregation is associative: aggregating a group at once equals
      aggregating two consecutive parts of it and adding the sub-totals;
      the date comes from the first part. */
  lemma GroupDistritoSplit(a: seq<RawRecord>, b: seq<RawRecord>)
    requires |a| > 0 && |b| > 0
    ensures var whole, left, right := GroupDistrito(a + b), GroupDistrito(a), GroupDistrito(b);
      && whole.Ok? && left.Ok? && right.Ok?
      && whole.value.positive == left.value.positive + right.value.positive
      && whole.value.total == left.value.total + right.value.total
      && whole.value.date == left.value.date
      && whole.value.region == left.value.region
  {
    SumsSplit(a, b);
  }

  /** A single-row group is that row's counts. */
  lemma GroupDistritoSingle(x: RawRecord)
    ensures GroupDistrito([x]) == Ok(DistrictRow(x.distrito, x.dataConc, x.confirmed, x.awaiting))
  {
    assert [x][..0] == [];
    assert SumConfirmed([x]) == SumConfirmed([]) + x.confirmed;
    assert SumAwaiting([x]) == SumAwaiting([]) + x.awaiting;
  }

  /** The count fields of a group are the sums over its rows, one row at a time. */
  lemma {:induction false} GroupDistritoSums(g: seq<RawRecord>, x: RawRecord)
    requires |g| > 0
    ensures GroupDistrito(g + [x]).value.positive == GroupDistrito(g).value.positive + x.confirmed
    ensures GroupDistrito(g + [x]).value.total == GroupDistrito(g).value.total + x.awaiting
  {
    SumsSplit(g, [x]);
    GroupDistritoSingle(x);
  }

  /** Two municipalities of one district on one date, with 10 and 5 cumulative
      confirmed cases, aggregate to 15. */
  lemma TwoMunicipalities()
    ensures var a := RawRecord("Aveiro", "Aveiro", 3, 3, 10, 40);
            var b := RawRecord("Ilhavo", "Aveiro", 3, 3, 5, 7);
            GroupDistrito([a, b]) == Ok(DistrictRow("Aveiro", 3, 15, 47))
  {
    var a := RawRecord("Aveiro", "Aveiro", 3, 3, 10, 40);
    var b := RawRecord("Ilhavo", "Aveiro", 3, 3, 5, 7);
    GroupDistritoSplit([a], [b]);
    GroupDistritoSingle(a);
    GroupDistritoSingle(b);
    assert [a] + [b] == [a, b];
  }

  /** The district keys (Distrito, Data) of `rows`, ascending, one each. */
  function DistrictKeys(rows: seq<RawRecord>): seq<Key>
  {
    GroupKeys(Groups(rows, DistritoKey), DistritoKey)
  }

  /** `groupby(["Distrito", "Data"]).apply(_group_distrito)`: one row per
      district key, keys ascending; row `i` aggregates exactly the input rows
      that have the `i`-th key, and every key of the input has its row. */
  function Aggregate(rows: seq<RawRecord>): (agg: seq<DistrictRow>)
    ensures var ks := DistrictKeys(rows);
      && |agg| == |ks|
      && StrictlyIncreasing(ks)
      && (forall i :: 0 <= i < |agg| ==> GroupDistrito(Filter(rows, DistritoKey, ks[i])) == Ok(agg[i]))
      && (forall i :: 0 <= i < |agg| ==> agg[i].region == ks[i].name)
      && (forall j :: 0 <= j < |rows| ==> DistritoKey(rows[j]) in ks)
  {
    var gs := Groups(rows, DistritoKey);
    GroupsSpec(rows, DistritoKey);
    seq(|gs|, i requires 0 <= i < |gs| => GroupDistrito(gs[i]).value)
  }
}

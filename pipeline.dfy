/** `get_sinave_data` (page, concatenate, de-duplicate, aggregate per
    district) and `get_and_process_sinave_data` (that, then normalise). */
module Pipeline {
  import opened Order
  import opened Records
  import opened Deduplication
  import opened Aggregation
  import opened Normalize
  import opened Paging

  /** `pd.concat([])` raises: there are no objects to concatenate. */
  datatype FetchError = NoObjectsToConcatenate

  /** `pd.concat(dfs, axis=0)`: the rows of all pages, page after page. */
  function Concat(dfs: seq<seq<RawRecord>>): (rows: seq<RawRecord>)
    ensures |dfs| > 0 && |dfs[0]| > 0 ==> |rows| > 0
  {
    if |dfs| == 0 then [] else dfs[0] + Concat(dfs[1..])
  }

  /** The rows of page `k` appear in the concatenation, right after the
      rows of the pages before it. */
  lemma {:induction false} ConcatAt(dfs: seq<seq<RawRecord>>, k: nat)
    requires k < |dfs|
    ensures Concat(dfs) == Concat(dfs[..k]) + dfs[k] + Concat(dfs[k + 1..])
  {
    if k > 0 {
      ConcatAt(dfs[1..], k - 1);
      assert dfs[1..][..k - 1] == dfs[..k][1..];
      assert dfs[1..][k - 1 + 1..] == dfs[k + 1..];
      assert Concat(dfs[..k]) == dfs[0] + Concat(dfs[..k][1..]);
    } else {
      assert dfs[..0] == [];
      assert dfs[1..] == dfs[k + 1..];
    }
  }

  /** The district rows of everything the service returned before the first
      stop: there are some exactly when at least one page was kept. */
  function DistrictData(rs: seq<Response>): (rows: seq<DistrictRow>)
    requires StopsWithin(rs)
    ensures |rows| > 0 <==> FirstStop(rs) > 0
  {
    var data := Concat(Pages(rs));
    var deduped := Dedup(data);
    assert |data| > 0 ==> ConcelhoKey(data[0]) in Keys(deduped, ConcelhoKey);
    var agg := Aggregate(deduped);
    assert |deduped| > 0 ==> DistritoKey(deduped[0]) in DistrictKeys(deduped);
    agg
  }

  /** `get_sinave_data(offset)`: the paging loop, then concatenation, last-wins
      de-duplication by (Concelho, Data) and aggregation by (Distrito, Data).
      Fails when the first reply is already a stop, as `pd.concat([])` does. */
  method GetSinaveData(offset: int, responses: seq<Response>)
    returns (res: Result<seq<DistrictRow>, FetchError>, queries: seq<Query>)
    requires StopsWithin(responses)
    ensures |queries| == FirstStop(responses) + 1
    ensures forall k :: 0 <= k < |queries| ==> queries[k] == Query(k * offset, offset)
    ensures res.Err? <==> FirstStop(responses) == 0
    ensures res.Ok? ==> res.value == DistrictData(responses) && |res.value| > 0
  {
    var dfs;
    dfs, queries := FetchPages(offset, responses);
    if |dfs| == 0 {
      return Err(NoObjectsToConcatenate), queries;
    }
    var data := Concat(dfs);
    var deduped := Dedup(data);
    var pt := Aggregate(deduped);
    res := Ok(pt);
  }

  /** `get_and_process_sinave_data(run_date)`: the district data fetched with
      the default page size, normalised as of `runDate`. Every returned row
      holds non-negative daily counts, fewer positives than tests unless both
      are zero, and a date before `runDate`; rows are sorted by (region, date). */
  method GetAndProcessSinaveData(runDate: int, responses: seq<Response>)
    returns (res: Result<seq<DistrictRow>, FetchError>, queries: seq<Query>)
    requires StopsWithin(responses)
    ensures |queries| == FirstStop(responses) + 1
    ensures forall k :: 0 <= k < |queries| ==> queries[k] == Query(k * DefaultOffset, DefaultOffset)
    ensures res.Err? <==> FirstStop(responses) == 0
    ensures res.Ok? ==> res.value == ProcessSinaveData(DistrictData(responses), runDate)
    ensures res.Ok? ==> forall i :: 0 <= i < |res.value| ==> UsableRow(res.value[i], runDate)
    ensures res.Ok? ==> NonDecreasing(IndexKeys(res.value))
  {
    var data;
    data, queries := GetSinaveData(DefaultOffset, responses);
    match data
    case Err(e) =>
      res := Err(e);
    case Ok(rows) =>
      res := Ok(ProcessSinaveData(rows, runDate));
  }
}

/** The page-accumulation loop of `get_sinave_data`: fixed-size pages are
    requested one after another until the service answers with an error, an
    undecodable body or an empty page. The service is a parameter: the
    sequence of its replies, one per request, in request order. */
module Paging {
  import opened Records

  /** One reply: its HTTP status and, when the body decodes to a feature
      list, the `attributes` of every feature (`None` when decoding or the
      lookup of `features`/`attributes` raises). */
  datatype Response = Response(status: int, records: Option<seq<RawRecord>>)

  /** The paging parameters of one query URL. */
  datatype Query = Query(resultOffset: int, resultRecordCount: int)

  /** The default page size of `get_sinave_data`. */
  const DefaultOffset: int := 2000

  /** A reply that ends the loop: a status other than 200, a body that does
      not decode, or a page without records. */
  predicate IsStop(r: Response)
  {
    r.status != 200 || r.records.None? || |r.records.value| == 0
  }

  /** The service eventually answers with a stop; the loop has no other exit. */
  predicate StopsWithin(rs: seq<Response>)
  {
    exists k :: 0 <= k < |rs| && IsStop(rs[k])
  }

  /** The number of the first request answered with a stop. */
  function FirstStop(rs: seq<Response>): (n: nat)
    requires StopsWithin(rs)
    ensures n < |rs| && IsStop(rs[n])
    ensures forall k :: 0 <= k < n ==> !IsStop(rs[k])
    decreases |rs|
  {
    if IsStop(rs[0]) then 0
    else
      var k :| 0 <= k < |rs| && IsStop(rs[k]);
      assert IsStop(rs[1..][k - 1]);
      1 + FirstStop(rs[1..])
  }

  /** The pages the loop keeps: one per reply before the first stop, in
      request order, each being that reply's non-empty decoded records. */
  function Pages(rs: seq<Response>): (pages: seq<seq<RawRecord>>)
    requires StopsWithin(rs)
    ensures |pages| == FirstStop(rs)
    ensures forall k :: 0 <= k < |pages| ==>
      rs[k].records.Some? && pages[k] == rs[k].records.value && |pages[k]| > 0
    decreases |rs|
  {
    if IsStop(rs[0]) then []
    else
      var k :| 0 <= k < |rs| && IsStop(rs[k]);
      assert IsStop(rs[1..][k - 1]);
      [rs[0].records.value] + Pages(rs[1..])
  }

  /** Nothing after the first stop is read: two reply sequences that agree up
      to and including the first stop give the same pages. */
  lemma {:induction false} PagesIgnoreLaterReplies(rs: seq<Response>, rs': seq<Response>)
    requires StopsWithin(rs)
    requires FirstStop(rs) < |rs'| && rs'[..FirstStop(rs) + 1] == rs[..FirstStop(rs) + 1]
    ensures StopsWithin(rs') && Pages(rs') == Pages(rs)
    decreases |rs|
  {
    var n := FirstStop(rs);
    assert rs'[n] == rs[n];
    if !IsStop(rs[0]) {
      assert rs'[0] == rs[0];
      var k :| 0 <= k < |rs| && IsStop(rs[k]);
      assert IsStop(rs[1..][k - 1]);
      assert rs'[1..][..n] == rs[1..][..n];
      PagesIgnoreLaterReplies(rs[1..], rs'[1..]);
    }
  }

  /** The loop of `get_sinave_data`: request page `i` at offset `i * offset`
      with `offset` records, keep it if the reply is a non-empty decoded page,
      stop otherwise. Returns the kept pages and every query sent. */
  method FetchPages(offset: int, responses: seq<Response>) returns (dfs: seq<seq<RawRecord>>, queries: seq<Query>)
    requires StopsWithin(responses)
    ensures dfs == Pages(responses)
    ensures |queries| == FirstStop(responses) + 1
    ensures forall k :: 0 <= k < |queries| ==> queries[k] == Query(k * offset, offset)
  {
    var n := FirstStop(responses);
    dfs := [];
    queries := [];
    var i := 0;
    while true
      invariant 0 <= i <= n
      invariant |queries| == i
      invariant forall k :: 0 <= k < i ==> queries[k] == Query(k * offset, offset)
      invariant dfs == Pages(responses)[..i]
      decreases n - i
    {
      queries := queries + [Query(i * offset, offset)];
      var r := responses[i];
      if r.status != 200 {
        break;
      }
      if r.records.None? {
        break;
      }
      var records := r.records.value;
      if |records| == 0 {
        break;
      }
      dfs := dfs + [records];
      i := i + 1;
    }
    assert Pages(responses)[..n] == Pages(responses);
  }
}

/** `process_sinave_data`: cumulative district counts to cleaned daily
    deltas, truncated to the days before the run date. */
module Normalize {
  import opened Order
  import opened Records

  // ---------------------------------------------------------------- diff

  /** Row `cur` minus row `prev`, column by column, under `cur`'s index label. */
  function Delta(prev: DistrictRow, cur: DistrictRow): DistrictRow
  {
    DistrictRow(cur.region, cur.date, cur.positive - prev.positive, cur.total - prev.total)
  }

  /** `data.diff().dropna()` over the whole frame, rows as given: every row
      after the first minus the row before it (whatever its region); the
      first row has no predecessor and is dropped. The result has one row
      fewer than the input, and row `i` is input row `i + 1` minus input row
      `i`, labelled as row `i + 1`. */
  function Diff(s: seq<DistrictRow>): (d: seq<DistrictRow>)
    ensures |d| == if |s| == 0 then 0 else |s| - 1
    ensures forall i :: 0 <= i < |d| ==>
      && d[i].region == s[i + 1].region && d[i].date == s[i + 1].date
      && d[i].positive == s[i + 1].positive - s[i].positive
      && d[i].total == s[i + 1].total - s[i].total
  {
    if |s| < 2 then [] else [Delta(s[0], s[1])] + Diff(s[1..])
  }

  /** Running sums of daily deltas on top of a starting row, labelled as the deltas. */
  function Accumulate(start: DistrictRow, ds: seq<DistrictRow>): seq<DistrictRow>
    decreases |ds|
  {
    if |ds| == 0 then []
    else
      var next := DistrictRow(ds[0].region, ds[0].date, start.positive + ds[0].positive, start.total + ds[0].total);
      [next] + Accumulate(next, ds[1..])
  }

  /** Differencing loses only the first row: accumulating the deltas on top
      of it gives back the rest of the cumulative series. */
  lemma {:induction false} AccumulateDiff(s: seq<DistrictRow>)
    requires |s| > 0
    ensures Accumulate(s[0], Diff(s)) == s[1..]
  {
    if |s| >= 2 {
      AccumulateDiff(s[1..]);
      assert s[1..][1..] == s[2..];
    }
  }

  // ---------------------------------------------------------------- clip

  function ClipRow(r: DistrictRow): DistrictRow
  {
    DistrictRow(r.region, r.date, if r.positive < 0 then 0 else r.positive, if r.total < 0 then 0 else r.total)
  }

  /** `.clip(0, None)`: negative counts become 0, the others are kept. */
  function Clip(s: seq<DistrictRow>): (c: seq<DistrictRow>)
    ensures |c| == |s|
    ensures forall i :: 0 <= i < |s| ==> IndexKey(c[i]) == IndexKey(s[i])
    ensures forall i :: 0 <= i < |s| ==> c[i].positive >= 0 && c[i].total >= 0
    ensures forall i :: 0 <= i < |s| ==>
      && (s[i].positive >= 0 ==> c[i].positive == s[i].positive)
      && (s[i].total >= 0 ==> c[i].total == s[i].total)
      && (s[i].positive < 0 ==> c[i].positive == 0)
      && (s[i].total < 0 ==> c[i].total == 0)
  {
    seq(|s|, i requires 0 <= i < |s| => ClipRow(s[i]))
  }

  /** A cumulative series 10, 12, 11 (a downward correction on the third
      day) gives deltas 2, -1, clipped to 2, 0. */
  lemma ClipCorrection()
    ensures var s := [DistrictRow("Porto", 1, 10, 100), DistrictRow("Porto", 2, 12, 110), DistrictRow("Porto", 3, 11, 120)];
      && Diff(s) == [DistrictRow("Porto", 2, 2, 10), DistrictRow("Porto", 3, -1, 10)]
      && Clip(Diff(s)) == [DistrictRow("Porto", 2, 2, 10), DistrictRow("Porto", 3, 0, 10)]
  {
    var s := [DistrictRow("Porto", 1, 10, 100), DistrictRow("Porto", 2, 12, 110), DistrictRow("Porto", 3, 11, 120)];
    assert s[1..][1..] == [s[2]];
    assert Diff(s[1..]) == [Delta(s[1], s[2])];
    var d := [DistrictRow("Porto", 2, 2, 10), DistrictRow("Porto", 3, -1, 10)];
    assert Diff(s) == d;
    assert Clip(d) == [ClipRow(d[0]), ClipRow(d[1])];
  }

  // ---------------------------------------------------------------- sort_index

  /** Inserts `x` behind every row whose label is not above its own. */
  function Insert(x: DistrictRow, s: seq<DistrictRow>): seq<DistrictRow>
  {
    if |s| == 0 || KeyLt(IndexKey(x), IndexKey(s[0])) then [x] + s
    else [s[0]] + Insert(x, s[1..])
  }

  /** `.sort_index()` on the (region, date) index, keeping frame order among
      equal labels: the result is sorted by label and is a permutation of the
      input. */
  function SortIndex(s: seq<DistrictRow>): (r: seq<DistrictRow>)
    ensures NonDecreasing(IndexKeys(r))
    ensures multiset(r) == multiset(s)
  {
    if |s| == 0 then []
    else
      var sorted := SortIndex(s[..|s| - 1]);
      InsertSorted(s[|s| - 1], sorted);
      InsertPermutes(s[|s| - 1], sorted);
      assert s == s[..|s| - 1] + [s[|s| - 1]];
      Insert(s[|s| - 1], sorted)
  }

  /** A row whose label is not above any label of a sorted frame can be put
      in front of it. */
  lemma ConsSorted(y: DistrictRow, t: seq<DistrictRow>)
    requires NonDecreasing(IndexKeys(t))
    requires forall k :: 0 <= k < |t| ==> !KeyLt(IndexKey(t[k]), IndexKey(y))
    ensures NonDecreasing(IndexKeys([y] + t))
  {
    var r := [y] + t;
    forall i, j | 0 <= i < j < |r|
      ensures !KeyLt(IndexKeys(r)[j], IndexKeys(r)[i])
    {
      assert r[j] == t[j - 1];
      if i > 0 {
        assert r[i] == t[i - 1];
        assert IndexKeys(t)[i - 1] == IndexKey(t[i - 1]) && IndexKeys(t)[j - 1] == IndexKey(t[j - 1]);
      }
    }
  }

  /** Every slice of a sorted frame is sorted. */
  lemma SortedSlice(s: seq<DistrictRow>, lo: nat, hi: nat)
    requires lo <= hi <= |s|
    requires NonDecreasing(IndexKeys(s))
    ensures NonDecreasing(IndexKeys(s[lo..hi]))
  {
    var t := s[lo..hi];
    forall i, j | 0 <= i < j < |t|
      ensures !KeyLt(IndexKeys(t)[j], IndexKeys(t)[i])
    {
      assert IndexKeys(t)[i] == IndexKeys(s)[lo + i] && IndexKeys(t)[j] == IndexKeys(s)[lo + j];
    }
  }

  /** Inserting adds the row and nothing else. */
  lemma InsertPermutes(x: DistrictRow, s: seq<DistrictRow>)
    ensures multiset(Insert(x, s)) == multiset(s) + multiset{x}
  {
    var p := InsertSplit(x, s);
    assert s == s[..p] + s[p..];
  }

  /** Inserting into a sorted frame keeps it sorted. */
  lemma {:induction false} InsertSorted(x: DistrictRow, s: seq<DistrictRow>)
    requires NonDecreasing(IndexKeys(s))
    ensures NonDecreasing(IndexKeys(Insert(x, s)))
  {
    if |s| == 0 || KeyLt(IndexKey(x), IndexKey(s[0])) {
      forall k | 0 <= k < |s|
        ensures !KeyLt(IndexKey(s[k]), IndexKey(x))
      {
        if k == 0 {
          KeyLtIrreflexive(IndexKey(s[0]));
        } else {
          assert IndexKeys(s)[0] == IndexKey(s[0]) && IndexKeys(s)[k] == IndexKey(s[k]);
        }
        if KeyLt(IndexKey(s[k]), IndexKey(x)) {
          KeyLtTransitive(IndexKey(s[k]), IndexKey(x), IndexKey(s[0]));
        }
      }
      ConsSorted(x, s);
    } else {
      var t := s[1..];
      SortedSlice(s, 1, |s|);
      InsertSorted(x, t);
      var rest := Insert(x, t);
      InsertPermutes(x, t);
      forall k | 0 <= k < |rest|
        ensures !KeyLt(IndexKey(rest[k]), IndexKey(s[0]))
      {
        assert rest[k] in multiset(rest);
        if rest[k] != x {
          assert rest[k] in t;
          var m :| 0 <= m < |t| && t[m] == rest[k];
          assert IndexKeys(s)[0] == IndexKey(s[0]) && IndexKeys(s)[m + 1] == IndexKey(t[m]);
        }
      }
      ConsSorted(s[0], rest);
    }
  }

  lemma {:induction false} InsertLast(x: DistrictRow, s: seq<DistrictRow>)
    requires forall i :: 0 <= i < |s| ==> !KeyLt(IndexKey(x), IndexKey(s[i]))
    ensures Insert(x, s) == s + [x]
  {
    if |s| > 0 {
      InsertLast(x, s[1..]);
      assert s == [s[0]] + s[1..];
    }
  }

  /** `.sort_index()` leaves a frame that is already sorted unchanged. */
  lemma {:induction false} SortIndexSorted(s: seq<DistrictRow>)
    requires NonDecreasing(IndexKeys(s))
    ensures SortIndex(s) == s
  {
    if |s| > 0 {
      var p := s[..|s| - 1];
      SortedSlice(s, 0, |s| - 1);
      assert s[0..|s| - 1] == p;
      SortIndexSorted(p);
      forall i | 0 <= i < |p|
        ensures !KeyLt(IndexKey(s[|s| - 1]), IndexKey(p[i]))
      {
        assert IndexKeys(s)[i] == IndexKey(p[i]);
      }
      InsertLast(s[|s| - 1], p);
      assert p + [s[|s| - 1]] == s;
    }
  }

  // ---------------------------------------------------------------- zeroing

  /** A row is plausible when fewer cases were confirmed than tests were
      counted, or when both counts are zero. */
  predicate Plausible(r: DistrictRow)
  {
    r.positive < r.total || (r.positive == 0 && r.total == 0)
  }

  function ZeroRow(r: DistrictRow): DistrictRow
  {
    if r.positive >= r.total then DistrictRow(r.region, r.date, 0, 0) else r
  }

  /** `data.loc[data.positive >= data.total, :] = 0`: every column of a row
      with at least as many positives as tests becomes 0; the other rows are
      kept; index labels do not change. */
  function ZeroImplausible(s: seq<DistrictRow>): (z: seq<DistrictRow>)
    ensures |z| == |s|
    ensures forall i :: 0 <= i < |s| ==> IndexKey(z[i]) == IndexKey(s[i])
    ensures forall i :: 0 <= i < |s| ==> (s[i].positive < s[i].total ==> z[i] == s[i])
    ensures forall i :: 0 <= i < |s| ==> (s[i].positive >= s[i].total ==> z[i].positive == 0 && z[i].total == 0)
  {
    seq(|s|, i requires 0 <= i < |s| => ZeroRow(s[i]))
  }

  /** After zeroing every row is plausible, and zeroing keeps counts non-negative. */
  lemma ZeroImplausibleSpec(s: seq<DistrictRow>)
    ensures forall i :: 0 <= i < |s| ==> Plausible(ZeroImplausible(s)[i])
    ensures (forall i :: 0 <= i < |s| ==> s[i].positive >= 0 && s[i].total >= 0) ==>
      forall i :: 0 <= i < |s| ==> ZeroImplausible(s)[i].positive >= 0 && ZeroImplausible(s)[i].total >= 0
  {
  }

  /** 5 positives against 3 tests is zeroed. */
  lemma ZeroFiveOverThree()
    ensures ZeroImplausible([DistrictRow("Lisboa", 9, 5, 3)]) == [DistrictRow("Lisboa", 9, 0, 0)]
  {
  }

  // ---------------------------------------------------------------- truncation

  /** `data.loc[idx[:, :(run_date - DateOffset(1))], ["positive", "total"]]`:
      the rows dated up to and including the day before `runDate`, in frame
      order. */
  function Truncate(s: seq<DistrictRow>, runDate: int): (t: seq<DistrictRow>)
    ensures forall i :: 0 <= i < |t| ==> t[i].date < runDate
    ensures |t| <= |s|
  {
    if |s| == 0 then []
    else (if s[0].date <= runDate - 1 then [s[0]] else []) + Truncate(s[1..], runDate)
  }

  /** Truncation keeps exactly the rows dated before `runDate`. */
  lemma {:induction false} TruncateMembers(s: seq<DistrictRow>, runDate: int)
    ensures forall r :: r in Truncate(s, runDate) <==> r in s && r.date < runDate
  {
    if |s| > 0 {
      TruncateMembers(s[1..], runDate);
      assert s == [s[0]] + s[1..];
    }
  }

  /** Truncating a frame that starts with `x` is deciding on `x`, then
      truncating the rest. */
  lemma TruncateCons(x: DistrictRow, s: seq<DistrictRow>, runDate: int)
    ensures Truncate([x] + s, runDate) == (if x.date <= runDate - 1 then [x] else []) + Truncate(s, runDate)
  {
    assert ([x] + s)[0] == x && ([x] + s)[1..] == s;
  }

  /** Truncation keeps rows in order: truncating two consecutive parts is
      truncating the whole. */
  lemma {:induction false} TruncateConcat(a: seq<DistrictRow>, b: seq<DistrictRow>, runDate: int)
    ensures Truncate(a + b, runDate) == Truncate(a, runDate) + Truncate(b, runDate)
  {
    if |a| == 0 {
      assert a + b == b;
    } else {
      var rest := a[1..];
      var head := if a[0].date <= runDate - 1 then [a[0]] else [];
      calc {
        Truncate(a + b, runDate);
        { assert a + b == [a[0]] + (rest + b); }
        Truncate([a[0]] + (rest + b), runDate);
        { TruncateCons(a[0], rest + b, runDate); }
        head + Truncate(rest + b, runDate);
        { TruncateConcat(rest, b, runDate); }
        head + (Truncate(rest, runDate) + Truncate(b, runDate));
        (head + Truncate(rest, runDate)) + Truncate(b, runDate);
        { TruncateCons(a[0], rest, runDate); assert a == [a[0]] + rest; }
        Truncate(a, runDate) + Truncate(b, runDate);
      }
    }
  }

  /** A frame with no row on or after `runDate` is returned whole. */
  lemma {:induction false} TruncateKeepsEarlier(s: seq<DistrictRow>, runDate: int)
    requires forall i :: 0 <= i < |s| ==> s[i].date < runDate
    ensures Truncate(s, runDate) == s
  {
    if |s| > 0 {
      TruncateKeepsEarlier(s[1..], runDate);
    }
  }

  /** Truncation keeps a sorted frame sorted. */
  lemma {:induction false} TruncateSorted(s: seq<DistrictRow>, runDate: int)
    requires NonDecreasing(IndexKeys(s))
    ensures NonDecreasing(IndexKeys(Truncate(s, runDate)))
  {
    if |s| > 0 {
      assert IndexKeys(s[1..]) == IndexKeys(s)[1..];
      TruncateSorted(s[1..], runDate);
      var rest := Truncate(s[1..], runDate);
      if s[0].date <= runDate - 1 {
        var t := [s[0]] + rest;
        forall i, j | 0 <= i < j < |t|
          ensures !KeyLt(IndexKey(t[j]), IndexKey(t[i]))
        {
          if i == 0 {
            TruncateMembers(s[1..], runDate);
            assert t[j] in rest;
            var m :| 0 <= m < |s| - 1 && s[1..][m] == t[j];
            assert IndexKeys(s)[m + 1] == IndexKey(t[j]);
          } else {
            assert t[i] == rest[i - 1] && t[j] == rest[j - 1];
            assert IndexKeys(rest)[i - 1] == IndexKey(rest[i - 1]);
            assert IndexKeys(rest)[j - 1] == IndexKey(rest[j - 1]);
          }
        }
      }
    }
  }

  // ------------------------------------------- zeroing and truncation after sorting

  /** Zeroing works row by row, so it distributes over consecutive parts. */
  lemma ZeroConcat(a: seq<DistrictRow>, b: seq<DistrictRow>)
    ensures ZeroImplausible(a + b) == ZeroImplausible(a) + ZeroImplausible(b)
  {
  }

  /** Zeroing then truncating two consecutive parts is zeroing then
      truncating each part and joining the results. */
  lemma ZeroTruncateConcat(a: seq<DistrictRow>, b: seq<DistrictRow>, runDate: int)
    ensures Truncate(ZeroImplausible(a + b), runDate)
      == Truncate(ZeroImplausible(a), runDate) + Truncate(ZeroImplausible(b), runDate)
  {
    ZeroConcat(a, b);
    TruncateConcat(ZeroImplausible(a), ZeroImplausible(b), runDate);
  }

  /** `Insert` places `x` at some position and keeps the rest in order. */
  lemma {:induction false} InsertSplit(x: DistrictRow, s: seq<DistrictRow>) returns (p: nat)
    ensures p <= |s| && Insert(x, s) == s[..p] + [x] + s[p..]
  {
    if |s| == 0 || KeyLt(IndexKey(x), IndexKey(s[0])) {
      p := 0;
    } else {
      var q := InsertSplit(x, s[1..]);
      p := q + 1;
      assert s[..p] == [s[0]] + s[1..][..q];
      assert s[p..] == s[1..][q..];
    }
  }

  /** Moving one row out of the middle of a frame to its end does not change
      which zeroed rows survive truncation. */
  lemma MoveToEnd(a: seq<DistrictRow>, x: DistrictRow, b: seq<DistrictRow>, runDate: int)
    ensures multiset(Truncate(ZeroImplausible(a + [x] + b), runDate))
      == multiset(Truncate(ZeroImplausible(a + b + [x]), runDate))
  {
    ZeroTruncateConcat(a + [x], b, runDate);
    ZeroTruncateConcat(a, [x], runDate);
    ZeroTruncateConcat(a + b, [x], runDate);
    ZeroTruncateConcat(a, b, runDate);
  }

  /** Inserting a row anywhere adds it, zeroed, to the rows that survive
      truncation when it survives itself. */
  lemma InsertThenZeroTruncate(x: DistrictRow, s: seq<DistrictRow>, runDate: int)
    ensures multiset(Truncate(ZeroImplausible(Insert(x, s)), runDate))
      == multiset(Truncate(ZeroImplausible(s + [x]), runDate))
  {
    var p := InsertSplit(x, s);
    MoveToEnd(s[..p], x, s[p..], runDate);
    assert s[..p] + s[p..] == s;
  }

  /** Zeroing is a row-by-row map and truncation a filter, so both commute
      with the permutation `sort_index` performs: sorting first changes the
      order of the surviving rows and nothing else. */
  lemma {:induction false} SortCommutesWithZeroTruncate(s: seq<DistrictRow>, runDate: int)
    ensures multiset(Truncate(ZeroImplausible(SortIndex(s)), runDate))
      == multiset(Truncate(ZeroImplausible(s), runDate))
  {
    if |s| > 0 {
      var q := s[..|s| - 1];
      var x := s[|s| - 1];
      var sorted := SortIndex(q);
      assert SortIndex(s) == Insert(x, sorted);
      InsertThenZeroTruncate(x, sorted, runDate);
      SortCommutesWithZeroTruncate(q, runDate);
      ZeroTruncateConcat(sorted, [x], runDate);
      ZeroTruncateConcat(q, [x], runDate);
      assert q + [x] == s;
    }
  }

  // ---------------------------------------------------------------- pipeline

  /** What every returned row satisfies: non-negative daily counts, fewer
      positives than tests unless both are zero, and a date before `runDate`. */
  predicate UsableRow(r: DistrictRow, runDate: int)
  {
    r.positive >= 0 && r.total >= 0 && Plausible(r) && r.date < runDate
  }

  /** A permutation of a frame with non-negative counts has non-negative counts. */
  lemma PermutationNonNegative(c: seq<DistrictRow>, s: seq<DistrictRow>)
    requires multiset(s) == multiset(c)
    requires forall i :: 0 <= i < |c| ==> c[i].positive >= 0 && c[i].total >= 0
    ensures |s| == |c|
    ensures forall i :: 0 <= i < |s| ==> s[i].positive >= 0 && s[i].total >= 0
  {
    assert |s| == |multiset(s)| == |multiset(c)| == |c|;
    forall i | 0 <= i < |s|
      ensures s[i].positive >= 0 && s[i].total >= 0
    {
      assert s[i] in multiset(c);
      var m :| 0 <= m < |c| && c[m] == s[i];
    }
  }

  /** Zeroing keeps labels, so it keeps a sorted frame sorted. */
  lemma ZeroKeepsSorted(s: seq<DistrictRow>)
    requires NonDecreasing(IndexKeys(s))
    ensures NonDecreasing(IndexKeys(ZeroImplausible(s)))
  {
    assert IndexKeys(ZeroImplausible(s)) == IndexKeys(s);
  }

  /** Truncating a frame of rows with non-negative, plausible counts leaves
      rows usable as of `runDate`. */
  lemma TruncateUsable(z: seq<DistrictRow>, runDate: int)
    requires forall i :: 0 <= i < |z| ==> z[i].positive >= 0 && z[i].total >= 0 && Plausible(z[i])
    ensures forall i :: 0 <= i < |Truncate(z, runDate)| ==> UsableRow(Truncate(z, runDate)[i], runDate)
  {
    var t := Truncate(z, runDate);
    TruncateMembers(z, runDate);
    forall i | 0 <= i < |t|
      ensures UsableRow(t[i], runDate)
    {
      assert t[i] in z;
      var m :| 0 <= m < |z| && z[m] == t[i];
    }
  }

  /** The clipped, sorted and zeroed frame before truncation. */
  function Cleaned(d: seq<DistrictRow>): (z: seq<DistrictRow>)
    ensures |z| == |d|
    ensures NonDecreasing(IndexKeys(z))
    ensures forall i :: 0 <= i < |z| ==> z[i].positive >= 0 && z[i].total >= 0 && Plausible(z[i])
  {
    var c := Clip(d);
    var s := SortIndex(c);
    PermutationNonNegative(c, s);
    ZeroKeepsSorted(s);
    ZeroImplausibleSpec(s);
    ZeroImplausible(s)
  }

  /** `process_sinave_data`: diff, drop the first row, clip, sort by
      (region, date), zero implausible rows, keep the rows before `runDate`. */
  function ProcessSinaveData(data: seq<DistrictRow>, runDate: int): (out: seq<DistrictRow>)
    ensures forall i :: 0 <= i < |out| ==> UsableRow(out[i], runDate)
    ensures NonDecreasing(IndexKeys(out))
    ensures |out| < |data| || |data| == 0
    ensures multiset(out) == multiset(Truncate(ZeroImplausible(Clip(Diff(data))), runDate))
  {
    var d := Diff(data);
    var c := Clip(d);
    var z := Cleaned(d);
    assert z == ZeroImplausible(SortIndex(c));
    SortCommutesWithZeroTruncate(c, runDate);
    assert |z| == |d| < |data| || |data| == 0;
    TruncateSorted(z, runDate);
    TruncateUsable(z, runDate);
    Truncate(z, runDate)
  }

  /** On a frame already sorted by (region, date), `sort_index` changes
      nothing: the result is diff, clip, zero, truncate. */
  lemma SortedInputSkipsSort(data: seq<DistrictRow>, runDate: int)
    requires NonDecreasing(IndexKeys(data))
    ensures ProcessSinaveData(data, runDate) == Truncate(ZeroImplausible(Clip(Diff(data))), runDate)
  {
    var d := Diff(data);
    assert NonDecreasing(IndexKeys(Clip(d))) by {
      forall i, j | 0 <= i < j < |d|
        ensures !KeyLt(IndexKey(Clip(d)[j]), IndexKey(Clip(d)[i]))
      {
        assert IndexKeys(data)[i + 1] == IndexKey(d[i]) && IndexKeys(data)[j + 1] == IndexKey(d[j]);
      }
    }
    SortIndexSorted(Clip(d));
  }

  // ------------------------------------------------- per-region differencing

  /** Differencing each region as its own series, on a frame whose rows are
      grouped by region (as the key-sorted district frame is): a row is
      differenced against the row directly before it when both belong to the
      same region, so the first row of every region is dropped. A region whose
      rows are not contiguous is not differenced across the gap. */
  function DiffPerRegion(s: seq<DistrictRow>): (d: seq<DistrictRow>)
    ensures |d| <= if |s| == 0 then 0 else |s| - 1
  {
    if |s| < 2 then []
    else (if s[0].region == s[1].region then [Delta(s[0], s[1])] else []) + DiffPerRegion(s[1..])
  }

  /** The rows of per-region differencing are exactly the differences of
      consecutive rows of one region. */
  lemma {:induction false} DiffPerRegionMembers(s: seq<DistrictRow>)
    ensures forall j :: 0 <= j < |s| - 1 && s[j].region == s[j + 1].region ==> Delta(s[j], s[j + 1]) in DiffPerRegion(s)
    ensures forall r :: r in DiffPerRegion(s) ==>
      exists j :: 0 <= j < |s| - 1 && s[j].region == s[j + 1].region && r == Delta(s[j], s[j + 1])
  {
    if |s| >= 2 {
      var t := s[1..];
      DiffPerRegionMembers(t);
      forall j | 1 <= j < |s| - 1
        ensures s[j] == t[j - 1] && s[j + 1] == t[j]
      {
      }
      forall r | r in DiffPerRegion(s)
        ensures exists j :: 0 <= j < |s| - 1 && s[j].region == s[j + 1].region && r == Delta(s[j], s[j + 1])
      {
        if r !in DiffPerRegion(t) {
          assert s[0].region == s[1].region && r == Delta(s[0], s[1]);
        } else {
          var j :| 0 <= j < |t| - 1 && t[j].region == t[j + 1].region && r == Delta(t[j], t[j + 1]);
          assert s[j + 1] == t[j] && s[j + 2] == t[j + 1];
        }
      }
    }
  }

  /** Within one region, per-region differencing is plain differencing. */
  lemma {:induction false} DiffPerRegionOneRegion(s: seq<DistrictRow>)
    requires forall i :: 0 <= i < |s| ==> s[i].region == s[0].region
    ensures DiffPerRegion(s) == Diff(s)
  {
    if |s| >= 2 {
      DiffPerRegionOneRegion(s[1..]);
    }
  }

  /** Regions are independent: differencing two consecutive blocks of
      different regions is differencing each block alone. */
  lemma {:induction false} DiffPerRegionSplit(a: seq<DistrictRow>, b: seq<DistrictRow>)
    requires |a| > 0 && |b| > 0 && a[|a| - 1].region != b[0].region
    ensures DiffPerRegion(a + b) == DiffPerRegion(a) + DiffPerRegion(b)
  {
    if |a| == 1 {
      calc {
        DiffPerRegion(a + b);
        { assert (a + b)[0] == a[0] && (a + b)[1] == b[0] && (a + b)[1..] == b; }
        [] + DiffPerRegion(b);
        DiffPerRegion(a) + DiffPerRegion(b);
      }
    } else {
      var head := if a[0].region == a[1].region then [Delta(a[0], a[1])] else [];
      calc {
        DiffPerRegion(a + b);
        { assert (a + b)[0] == a[0] && (a + b)[1] == a[1] && (a + b)[1..] == a[1..] + b; }
        head + DiffPerRegion(a[1..] + b);
        { DiffPerRegionSplit(a[1..], b); }
        head + (DiffPerRegion(a[1..]) + DiffPerRegion(b));
        (head + DiffPerRegion(a[1..])) + DiffPerRegion(b);
        DiffPerRegion(a) + DiffPerRegion(b);
      }
    }
  }

  /** `process_sinave_data` with each region differenced on its own. */
  function ProcessSinaveDataPerRegion(data: seq<DistrictRow>, runDate: int): (out: seq<DistrictRow>)
    ensures forall i :: 0 <= i < |out| ==> UsableRow(out[i], runDate)
    ensures NonDecreasing(IndexKeys(out))
    ensures |out| < |data| || |data| == 0
    ensures multiset(out) == multiset(Truncate(ZeroImplausible(Clip(DiffPerRegion(data))), runDate))
  {
    var d := DiffPerRegion(data);
    var c := Clip(d);
    SortCommutesWithZeroTruncate(c, runDate);
    var z := Cleaned(d);
    assert z == ZeroImplausible(SortIndex(c));
    assert |z| == |d| < |data| || |data| == 0;
    TruncateSorted(z, runDate);
    TruncateUsable(z, runDate);
    Truncate(z, runDate)
  }

  /** The whole-frame `diff` differences the first row of a region against
      the last row of the region before it: Braga's first day comes out as
      (3 - 10, 50 - 20), clipped to (0, 30), where per-region differencing
      drops it. */
  lemma DiffCrossesRegions()
    ensures var data := [DistrictRow("Aveiro", 1, 10, 20), DistrictRow("Braga", 1, 3, 50)];
      && Diff(data) == [DistrictRow("Braga", 1, -7, 30)]
      && ProcessSinaveData(data, 5) == [DistrictRow("Braga", 1, 0, 30)]
      && ProcessSinaveDataPerRegion(data, 5) == []
  {
    var data := [DistrictRow("Aveiro", 1, 10, 20), DistrictRow("Braga", 1, 3, 50)];
    var c := [DistrictRow("Braga", 1, 0, 30)];
    assert Diff(data) == [DistrictRow("Braga", 1, -7, 30)];
    assert Clip(Diff(data)) == c;
    assert SortIndex(c) == c by {
      assert c[..0] == [];
    }
  }
}

/** pandas `groupby` on raw records: one group per key, groups in increasing
    key order, each group holding the rows with that key in frame order.
    De-duplication (`groupby([...]).last()`) and district aggregation
    (`groupby(...).apply(_group_distrito)`) are both built on it. */
module Grouping {
  import opened Order
  import opened Records

  /** The rows of `rows` whose key is `k`, in frame order. */
  function Filter(rows: seq<RawRecord>, key: RawRecord -> Key, k: Key): seq<RawRecord>
  {
    if |rows| == 0 then []
    else
      var last := rows[|rows| - 1];
      Filter(rows[..|rows| - 1], key, k) + (if key(last) == k then [last] else [])
  }

  /** `Filter` keeps exactly the rows with key `k`. */
  lemma {:induction false} FilterMembers(rows: seq<RawRecord>, key: RawRecord -> Key, k: Key)
    ensures forall r :: r in Filter(rows, key, k) <==> r in rows && key(r) == k
  {
    if |rows| > 0 {
      FilterMembers(rows[..|rows| - 1], key, k);
      assert rows == rows[..|rows| - 1] + [rows[|rows| - 1]];
    }
  }

  /** The last row of `Filter(rows, key, k)` is the last occurrence of `k` in `rows`. */
  lemma {:induction false} FilterLastIsLastOccurrence(rows: seq<RawRecord>, key: RawRecord -> Key, j: nat)
    requires j < |rows|
    requires forall i :: j < i < |rows| ==> key(rows[i]) != key(rows[j])
    ensures var g := Filter(rows, key, key(rows[j])); |g| > 0 && g[|g| - 1] == rows[j]
  {
    if j < |rows| - 1 {
      FilterLastIsLastOccurrence(rows[..|rows| - 1], key, j);
    }
  }

  /** The key of a group: that of its first row. */
  function GroupKey(g: seq<RawRecord>, key: RawRecord -> Key): Key
  {
    if |g| > 0 then key(g[0]) else Key([], 0)
  }

  function GroupKeys(gs: seq<seq<RawRecord>>, key: RawRecord -> Key): (ks: seq<Key>)
    ensures |ks| == |gs| && forall i :: 0 <= i < |gs| ==> ks[i] == GroupKey(gs[i], key)
  {
    seq(|gs|, i requires 0 <= i < |gs| => GroupKey(gs[i], key))
  }

  /** Groups are non-empty, every row of a group has the group's key, and
      group keys strictly increase. */
  predicate WellFormed(gs: seq<seq<RawRecord>>, key: RawRecord -> Key)
  {
    && (forall i :: 0 <= i < |gs| ==> |gs[i]| > 0)
    && (forall i, j :: 0 <= i < |gs| && 0 <= j < |gs[i]| ==> key(gs[i][j]) == GroupKey(gs[i], key))
    && StrictlyIncreasing(GroupKeys(gs, key))
  }

  /** The group with key `k`, or the empty sequence when there is none. */
  function GroupAt(gs: seq<seq<RawRecord>>, key: RawRecord -> Key, k: Key): seq<RawRecord>
  {
    if |gs| == 0 then []
    else if |gs[0]| > 0 && key(gs[0][0]) == k then gs[0]
    else GroupAt(gs[1..], key, k)
  }

  lemma {:induction false} GroupAtFound(gs: seq<seq<RawRecord>>, key: RawRecord -> Key, i: nat)
    requires WellFormed(gs, key) && i < |gs|
    ensures GroupAt(gs, key, GroupKey(gs[i], key)) == gs[i]
  {
    if i > 0 {
      KeyLtIrreflexive(GroupKey(gs[i], key));
      assert GroupKeys(gs[1..], key) == GroupKeys(gs, key)[1..];
      GroupAtFound(gs[1..], key, i - 1);
    }
  }

  lemma {:induction false} GroupAtMissing(gs: seq<seq<RawRecord>>, key: RawRecord -> Key, k: Key)
    requires k !in GroupKeys(gs, key)
    ensures GroupAt(gs, key, k) == []
  {
    if |gs| > 0 {
      assert GroupKeys(gs[1..], key) == GroupKeys(gs, key)[1..];
      GroupAtMissing(gs[1..], key, k);
    }
  }

  lemma {:induction false} GroupAtPresent(gs: seq<seq<RawRecord>>, key: RawRecord -> Key, k: Key)
    requires GroupAt(gs, key, k) != []
    ensures k in GroupKeys(gs, key)
  {
    if |gs| > 0 && !(|gs[0]| > 0 && key(gs[0][0]) == k) {
      GroupAtPresent(gs[1..], key, k);
      assert GroupKeys(gs[1..], key) == GroupKeys(gs, key)[1..];
    }
  }

  lemma PrependIncreasing(k: Key, ks: seq<Key>)
    requires StrictlyIncreasing(ks)
    requires forall j :: 0 <= j < |ks| ==> KeyLt(k, ks[j])
    ensures StrictlyIncreasing([k] + ks)
  {
  }

  /** Adds one row, appended at the end of the frame, to its group. */
  function AddToGroups(x: RawRecord, gs: seq<seq<RawRecord>>, key: RawRecord -> Key): seq<seq<RawRecord>>
    decreases |gs|
  {
    if |gs| == 0 || |gs[0]| == 0 || KeyLt(key(x), key(gs[0][0])) then [[x]] + gs
    else if key(x) == key(gs[0][0]) then [gs[0] + [x]] + gs[1..]
    else [gs[0]] + AddToGroups(x, gs[1..], key)
  }

  /** The post-state promised by `AddToGroupsSpec`. */
  ghost predicate AddedTo(gs': seq<seq<RawRecord>>, x: RawRecord, gs: seq<seq<RawRecord>>, key: RawRecord -> Key)
  {
    && WellFormed(gs', key)
    && (forall k :: k in GroupKeys(gs', key) <==> k in GroupKeys(gs, key) || k == key(x))
    && (forall k :: GroupAt(gs', key, k) == GroupAt(gs, key, k) + (if key(x) == k then [x] else []))
  }

  /** A row whose key is below every group's key starts a new first group. */
  lemma AddNewFirst(x: RawRecord, gs: seq<seq<RawRecord>>, key: RawRecord -> Key)
    requires WellFormed(gs, key)
    requires |gs| == 0 || KeyLt(key(x), key(gs[0][0]))
    ensures AddedTo([[x]] + gs, x, gs, key)
  {
    var gs' := [[x]] + gs;
    var ks := GroupKeys(gs, key);
    assert GroupKeys(gs', key) == [key(x)] + ks;
    forall j | 0 <= j < |ks|
      ensures KeyLt(key(x), ks[j]) && ks[j] != key(x)
    {
      if j > 0 {
        KeyLtTransitive(key(x), ks[0], ks[j]);
      }
      KeyLtIrreflexive(key(x));
    }
    PrependIncreasing(key(x), ks);
    GroupAtMissing(gs, key, key(x));
    assert gs'[1..] == gs;
  }

  /** A row with the first group's key joins the end of that group. */
  lemma AddToFirst(x: RawRecord, gs: seq<seq<RawRecord>>, key: RawRecord -> Key)
    requires WellFormed(gs, key)
    requires |gs| > 0 && key(x) == key(gs[0][0])
    ensures AddedTo([gs[0] + [x]] + gs[1..], x, gs, key)
  {
    var gs' := [gs[0] + [x]] + gs[1..];
    assert GroupKeys(gs', key) == GroupKeys(gs, key);
    assert gs'[1..] == gs[1..];
  }

  /** A row above the first group's key goes into the remaining groups. */
  lemma AddBehindFirst(x: RawRecord, gs: seq<seq<RawRecord>>, rest: seq<seq<RawRecord>>, key: RawRecord -> Key)
    requires WellFormed(gs, key)
    requires |gs| > 0 && KeyLt(key(gs[0][0]), key(x))
    requires AddedTo(rest, x, gs[1..], key)
    ensures AddedTo([gs[0]] + rest, x, gs, key)
  {
    var gs' := [gs[0]] + rest;
    var ks := GroupKeys(gs, key);
    assert GroupKeys(gs[1..], key) == ks[1..];
    var rks := GroupKeys(rest, key);
    assert GroupKeys(gs', key) == [ks[0]] + rks;
    forall j | 0 <= j < |rks|
      ensures KeyLt(ks[0], rks[j])
    {
      if rks[j] != key(x) {
        assert rks[j] in ks[1..];
      }
    }
    PrependIncreasing(ks[0], rks);
    assert gs'[1..] == rest;
    KeyLtIrreflexive(key(x));
    forall k
      ensures GroupAt(gs', key, k) == GroupAt(gs, key, k) + (if key(x) == k then [x] else [])
    {
      if k == ks[0] {
        assert key(x) != k;
      }
    }
  }

  lemma {:induction false} AddToGroupsSpec(x: RawRecord, gs: seq<seq<RawRecord>>, key: RawRecord -> Key)
    requires WellFormed(gs, key)
    ensures AddedTo(AddToGroups(x, gs, key), x, gs, key)
    decreases |gs|
  {
    if |gs| == 0 || KeyLt(key(x), key(gs[0][0])) {
      AddNewFirst(x, gs, key);
    } else if key(x) == key(gs[0][0]) {
      AddToFirst(x, gs, key);
    } else {
      assert GroupKeys(gs[1..], key) == GroupKeys(gs, key)[1..];
      AddToGroupsSpec(x, gs[1..], key);
      KeyLtTotal(key(x), key(gs[0][0]));
      AddBehindFirst(x, gs, AddToGroups(x, gs[1..], key), key);
    }
  }

  /** All rows of all groups, group after group. */
  function Flatten(gs: seq<seq<RawRecord>>): seq<RawRecord>
  {
    if |gs| == 0 then [] else gs[0] + Flatten(gs[1..])
  }

  /** Adding a row to the groups adds it to their rows and changes nothing else. */
  lemma {:induction false} AddToGroupsFlatten(x: RawRecord, gs: seq<seq<RawRecord>>, key: RawRecord -> Key)
    ensures multiset(Flatten(AddToGroups(x, gs, key))) == multiset(Flatten(gs)) + multiset{x}
    decreases |gs|
  {
    var gs' := AddToGroups(x, gs, key);
    if |gs| == 0 || |gs[0]| == 0 || KeyLt(key(x), key(gs[0][0])) {
      assert gs'[0] == [x] && gs'[1..] == gs;
    } else if key(x) == key(gs[0][0]) {
      assert gs'[0] == gs[0] + [x] && gs'[1..] == gs[1..];
    } else {
      AddToGroupsFlatten(x, gs[1..], key);
      assert gs'[0] == gs[0] && gs'[1..] == AddToGroups(x, gs[1..], key);
    }
  }

  /** `rows.groupby(key)`: the groups of `rows`, built one row at a time.
      The groups partition the rows: together they hold every input row
      exactly as often as the input does. */
  function Groups(rows: seq<RawRecord>, key: RawRecord -> Key): (gs: seq<seq<RawRecord>>)
    ensures multiset(Flatten(gs)) == multiset(rows)
  {
    if |rows| == 0 then []
    else
      var earlier := Groups(rows[..|rows| - 1], key);
      AddToGroupsFlatten(rows[|rows| - 1], earlier, key);
      assert rows == rows[..|rows| - 1] + [rows[|rows| - 1]];
      AddToGroups(rows[|rows| - 1], earlier, key)
  }

  lemma {:induction false} GroupsInvariant(rows: seq<RawRecord>, key: RawRecord -> Key)
    ensures WellFormed(Groups(rows, key), key)
    ensures forall k :: GroupAt(Groups(rows, key), key, k) == Filter(rows, key, k)
  {
    if |rows| > 0 {
      GroupsInvariant(rows[..|rows| - 1], key);
      AddToGroupsSpec(rows[|rows| - 1], Groups(rows[..|rows| - 1], key), key);
    }
  }

  /** What `groupby` promises: one non-empty group per key of the input,
      in increasing key order, each group being exactly the input rows with
      that key, in input order. */
  lemma GroupsSpec(rows: seq<RawRecord>, key: RawRecord -> Key)
    ensures var gs := Groups(rows, key);
      && WellFormed(gs, key)
      && (forall i :: 0 <= i < |gs| ==> gs[i] == Filter(rows, key, GroupKey(gs[i], key)))
      && (forall j :: 0 <= j < |rows| ==> key(rows[j]) in GroupKeys(gs, key))
  {
    var gs := Groups(rows, key);
    GroupsInvariant(rows, key);
    forall i | 0 <= i < |gs|
      ensures gs[i] == Filter(rows, key, GroupKey(gs[i], key))
    {
      GroupAtFound(gs, key, i);
    }
    forall j | 0 <= j < |rows|
      ensures key(rows[j]) in GroupKeys(gs, key)
    {
      FilterMembers(rows, key, key(rows[j]));
      GroupAtPresent(gs, key, key(rows[j]));
    }
  }
}

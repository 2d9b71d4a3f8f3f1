/** The order pandas sorts group keys and index labels in: strings compare
    code point by code point (a proper prefix comes first), and a two-level
    key (name, day) compares by name, then by day. */
module Order {

  /** Lexicographic "strictly less" on strings. */
  predicate StrLt(a: string, b: string)
    decreases |a|
  {
    if |a| == 0 then |b| > 0
    else if |b| == 0 then false
    else if a[0] != b[0] then a[0] < b[0]
    else StrLt(a[1..], b[1..])
  }

  lemma {:induction false} StrLtIrreflexive(a: string)
    ensures !StrLt(a, a)
    decreases |a|
  {
    if |a| > 0 {
      StrLtIrreflexive(a[1..]);
    }
  }

  lemma {:induction false} StrLtTransitive(a: string, b: string, c: string)
    requires StrLt(a, b) && StrLt(b, c)
    ensures StrLt(a, c)
    decreases |a|
  {
    if |a| > 0 && |b| > 0 && |c| > 0 && a[0] == b[0] == c[0] {
      StrLtTransitive(a[1..], b[1..], c[1..]);
    }
  }

  lemma {:induction false} StrLtTotal(a: string, b: string)
    ensures StrLt(a, b) || a == b || StrLt(b, a)
    decreases |a|
  {
    if |a| > 0 && |b| > 0 && a[0] == b[0] {
      StrLtTotal(a[1..], b[1..]);
      if a[1..] == b[1..] {
        assert a == [a[0]] + a[1..] && b == [b[0]] + b[1..];
      }
    }
  }

  /** A two-level index label: a name (municipality or district) and a day number. */
  datatype Key = Key(name: string, day: int)

  predicate KeyLt(a: Key, b: Key)
  {
    StrLt(a.name, b.name) || (a.name == b.name && a.day < b.day)
  }

  lemma KeyLtIrreflexive(a: Key)
    ensures !KeyLt(a, a)
  {
    StrLtIrreflexive(a.name);
  }

  lemma KeyLtTransitive(a: Key, b: Key, c: Key)
    requires KeyLt(a, b) && KeyLt(b, c)
    ensures KeyLt(a, c)
  {
    if StrLt(a.name, b.name) && StrLt(b.name, c.name) {
      StrLtTransitive(a.name, b.name, c.name);
    }
  }

  lemma KeyLtTotal(a: Key, b: Key)
    ensures KeyLt(a, b) || a == b || KeyLt(b, a)
  {
    StrLtTotal(a.name, b.name);
  }

  /** Keys in strictly increasing order: sorted, and no key twice. */
  predicate StrictlyIncreasing(ks: seq<Key>)
  {
    forall i, j :: 0 <= i < j < |ks| ==> KeyLt(ks[i], ks[j])
  }

  /** Keys in non-decreasing order. */
  predicate NonDecreasing(ks: seq<Key>)
  {
    forall i, j :: 0 <= i < j < |ks| ==> !KeyLt(ks[j], ks[i])
  }

  lemma StrictlyIncreasingDistinct(ks: seq<Key>)
    requires StrictlyIncreasing(ks)
    ensures forall i, j :: 0 <= i < j < |ks| ==> ks[i] != ks[j]
  {
    forall i, j | 0 <= i < j < |ks|
      ensures ks[i] != ks[j]
    {
      KeyLtIrreflexive(ks[i]);
    }
  }
}

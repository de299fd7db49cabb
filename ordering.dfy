/** The query shapes the listings use: `ORDER BY key`, `ORDER BY key DESC`
    and `ORDER BY key DESC LIMIT 1`. Rows with equal keys may come in any
    order, so each is specified up to ties. */
module Ordering {
  import opened Basics

  predicate SortedDesc<T>(s: seq<T>, key: T -> int) {
    forall i, j :: 0 <= i < j < |s| ==> key(s[i]) >= key(s[j])
  }

  /** `x` placed before the first row with a smaller key. */
  function InsertDesc<T(==)>(x: T, s: seq<T>, key: T -> int): (r: seq<T>)
    requires SortedDesc(s, key)
    ensures SortedDesc(r, key)
    ensures multiset(r) == multiset(s) + multiset{x}
    ensures forall i :: 0 <= i < |r| ==> r[i] == x || r[i] in s
  {
    if s == [] then [x]
    else if key(x) >= key(s[0]) then [x] + s
    else
      assert s == [s[0]] + s[1..];
      [s[0]] + InsertDesc(x, s[1..], key)
  }

  /** The rows of `s` in descending key order: a sorted permutation. */
  function SortDesc<T(==)>(s: seq<T>, key: T -> int): (r: seq<T>)
    ensures SortedDesc(r, key)
    ensures multiset(r) == multiset(s)
    ensures |r| == |s|
  {
    if s == [] then []
    else
      assert s == [s[0]] + s[1..];
      InsertDesc(s[0], SortDesc(s[1..], key), key)
  }

  predicate SortedAsc<T>(s: seq<T>, key: T -> int) {
    forall i, j :: 0 <= i < j < |s| ==> key(s[i]) <= key(s[j])
  }

  /** The rows of `s` in ascending key order: a sorted permutation. */
  function SortAsc<T(==)>(s: seq<T>, key: T -> int): (r: seq<T>)
    ensures SortedAsc(r, key)
    ensures multiset(r) == multiset(s)
    ensures |r| == |s|
  {
    SortDesc(s, x => -key(x))
  }

  /** No row occurs twice. */
  predicate Distinct<T(==)>(s: seq<T>) {
    forall i, j :: 0 <= i < j < |s| ==> s[i] != s[j]
  }

  /** Distinct rows are rows that each occur at most once. */
  lemma {:induction false} DistinctCounts<T>(s: seq<T>)
    ensures Distinct(s) <==> forall x :: multiset(s)[x] <= 1
  {
    if s != [] {
      var t := s[1..];
      assert s == [s[0]] + t;
      DistinctCounts(t);
      if Distinct(s) {
        assert Distinct(t) by {
          forall i, j | 0 <= i < j < |t| ensures t[i] != t[j] {
            assert t[i] == s[i + 1] && t[j] == s[j + 1];
          }
        }
      }
      if forall x :: multiset(s)[x] <= 1 {
        assert forall x :: multiset(t)[x] <= multiset(s)[x];
        assert multiset(t)[s[0]] == 0;
        forall i, j | 0 <= i < j < |s| ensures s[i] != s[j] {
          if i == 0 {
            assert s[j] in t;
          } else {
            assert s[i] == t[i - 1] && s[j] == t[j - 1];
          }
        }
      }
    }
  }

  /** Sorting neither duplicates nor merges rows. */
  lemma SortDescKeepsDistinct<T>(s: seq<T>, key: T -> int)
    ensures Distinct(s) ==> Distinct(SortDesc(s, key))
  {
    DistinctCounts(s);
    DistinctCounts(SortDesc(s, key));
  }

  /** A row with the greatest key, none for no rows. */
  function MaxBy<T>(s: seq<T>, key: T -> int): (r: Option<T>)
    ensures r.None? <==> s == []
    ensures r.Some? ==> r.value in s && forall x :: x in s ==> key(x) <= key(r.value)
  {
    if s == [] then None
    else
      var rest := MaxBy(s[1..], key);
      if rest.None? || key(s[0]) >= key(rest.value) then Some(s[0]) else rest
  }

  /** Sorting and then taking the first row gives a row with the greatest
      key: the two query shapes agree up to ties. */
  lemma FirstOfSortedIsMax<T>(s: seq<T>, key: T -> int)
    requires s != []
    ensures var r := SortDesc(s, key);
      r[0] in s && key(r[0]) == key(MaxBy(s, key).value)
  {
    var r := SortDesc(s, key);
    assert r[0] in multiset(r);
    var m := MaxBy(s, key).value;
    assert m in multiset(r);
    var k :| 0 <= k < |r| && r[k] == m;
    if k > 0 {
      assert key(r[0]) >= key(r[k]);
    }
  }
}

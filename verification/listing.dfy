/**
 * The Index actions: every row of a table that passes a filter, as a list,
 * optionally in the order of an `OrderBy`. Sorting is insertion sort on
 * sequences, proved to return the same entries in order.
 */
module Listing {

  /** No key is listed twice. */
  predicate DistinctKeys<T>(xs: seq<(int, T)>) {
    forall i, j :: 0 <= i < j < |xs| ==> xs[i].0 != xs[j].0
  }

  /** Every listed entry is a row of `m`, paired with its key. */
  ghost predicate RowsOf<T>(xs: seq<(int, T)>, m: map<int, T>) {
    forall i :: 0 <= i < |xs| ==> xs[i].0 in m && m[xs[i].0] == xs[i].1
  }

  /** `xs` is in the order `le`. */
  ghost predicate Sorted<A>(xs: seq<A>, le: (A, A) -> bool) {
    forall i, j :: 0 <= i < j < |xs| ==> le(xs[i], xs[j])
  }

  /** `le` compares every pair and chains: an `OrderBy` key order. */
  ghost predicate TotalPreorder<A(!new)>(le: (A, A) -> bool) {
    && (forall a, b :: le(a, b) || le(b, a))
    && (forall a, b, c :: le(a, b) && le(b, c) ==> le(a, c))
  }

  function InsertSorted<T(!new)>(x: (int, T), xs: seq<(int, T)>, le: ((int, T), (int, T)) -> bool): (r: seq<(int, T)>)
    ensures |r| == |xs| + 1
    ensures forall y :: y in r <==> y == x || y in xs
    decreases |xs|
  {
    if |xs| == 0 then [x]
    else if le(x, xs[0]) then [x] + xs
    else [xs[0]] + InsertSorted(x, xs[1..], le)
  }

  /** Insertion sort: the same entries, as many of them. */
  function SortBy<T(!new)>(xs: seq<(int, T)>, le: ((int, T), (int, T)) -> bool): (r: seq<(int, T)>)
    ensures |r| == |xs|
    ensures forall y :: y in r <==> y in xs
  {
    if |xs| == 0 then [] else InsertSorted(xs[0], SortBy(xs[1..], le), le)
  }

  lemma {:induction false} InsertSortedSorted<T(!new)>(x: (int, T), xs: seq<(int, T)>, le: ((int, T), (int, T)) -> bool)
    requires TotalPreorder(le) && Sorted(xs, le)
    ensures Sorted(InsertSorted(x, xs, le), le)
    decreases |xs|
  {
    if |xs| > 0 {
      var r := InsertSorted(x, xs, le);
      if le(x, xs[0]) {
        assert r == [x] + xs;
        forall i, j | 0 <= i < j < |r|
          ensures le(r[i], r[j])
        {
          if i == 0 && j > 1 {
            assert le(xs[0], xs[j - 1]);
          }
        }
      } else {
        var rest := InsertSorted(x, xs[1..], le);
        assert le(xs[0], x);
        InsertSortedSorted(x, xs[1..], le);
        assert r == [xs[0]] + rest;
        forall i, j | 0 <= i < j < |r|
          ensures le(r[i], r[j])
        {
          if i == 0 {
            assert r[j] in rest;
            if r[j] != x {
              assert r[j] in xs[1..];
              var k :| 0 <= k < |xs[1..]| && xs[1..][k] == r[j];
              assert xs[k + 1] == r[j];
            }
          } else {
            assert r[i] == rest[i - 1] && r[j] == rest[j - 1];
          }
        }
      }
    }
  }

  /** The sorted list is in `le` order. */
  lemma {:induction false} SortBySorted<T(!new)>(xs: seq<(int, T)>, le: ((int, T), (int, T)) -> bool)
    requires TotalPreorder(le)
    ensures Sorted(SortBy(xs, le), le)
  {
    if |xs| > 0 {
      SortBySorted(xs[1..], le);
      InsertSortedSorted(xs[0], SortBy(xs[1..], le), le);
    }
  }

  lemma {:induction false} InsertSortedDistinct<T(!new)>(x: (int, T), xs: seq<(int, T)>, le: ((int, T), (int, T)) -> bool)
    requires DistinctKeys(xs)
    requires forall i :: 0 <= i < |xs| ==> xs[i].0 != x.0
    ensures DistinctKeys(InsertSorted(x, xs, le))
    decreases |xs|
  {
    if |xs| > 0 && !le(x, xs[0]) {
      var rest := InsertSorted(x, xs[1..], le);
      InsertSortedDistinct(x, xs[1..], le);
      var r := InsertSorted(x, xs, le);
      assert r == [xs[0]] + rest;
      forall j | 0 < j < |r|
        ensures r[0].0 != r[j].0
      {
        assert r[j] in rest;
        if r[j] != x {
          assert r[j] in xs[1..];
          var k :| 0 <= k < |xs[1..]| && xs[1..][k] == r[j];
          assert xs[k + 1] == r[j];
        }
      }
      forall i, j | 0 < i < j < |r|
        ensures r[i].0 != r[j].0
      {
        assert r[i] == rest[i - 1] && r[j] == rest[j - 1];
      }
    }
  }

  /** Sorting lists no key twice if the input listed none twice. */
  lemma {:induction false} SortByDistinct<T(!new)>(xs: seq<(int, T)>, le: ((int, T), (int, T)) -> bool)
    requires DistinctKeys(xs)
    ensures DistinctKeys(SortBy(xs, le))
  {
    if |xs| > 0 {
      SortByDistinct(xs[1..], le);
      var s := SortBy(xs[1..], le);
      forall i | 0 <= i < |s|
        ensures s[i].0 != xs[0].0
      {
        assert s[i] in xs[1..];
        var k :| 0 <= k < |xs[1..]| && xs[1..][k] == s[i];
        assert xs[k + 1] == s[i];
      }
      InsertSortedDistinct(xs[0], s, le);
    }
  }

  /** A non-empty key set has a member. */
  lemma HasKey(s: set<int>)
    requires s != {}
    ensures exists k :: k in s
  {
    if forall x :: x !in s {
      assert false;
    }
  }

  /** `Where(keep).ToListAsync()` with no `OrderBy`: each kept row once, in no promised order. */
  method Select<T>(m: map<int, T>, keep: T -> bool) returns (xs: seq<(int, T)>)
    ensures RowsOf(xs, m) && DistinctKeys(xs)
    ensures forall i :: 0 <= i < |xs| ==> keep(xs[i].1)
    ensures forall k :: k in m && keep(m[k]) ==> (k, m[k]) in xs
  {
    var todo := m.Keys;
    xs := [];
    while todo != {}
      invariant todo <= m.Keys
      invariant RowsOf(xs, m) && DistinctKeys(xs)
      invariant forall i :: 0 <= i < |xs| ==> keep(xs[i].1) && xs[i].0 !in todo
      invariant forall k :: k in m.Keys - todo && keep(m[k]) ==> (k, m[k]) in xs
      decreases todo
    {
      HasKey(todo);
      var k :| k in todo;
      if keep(m[k]) {
        xs := xs + [(k, m[k])];
      }
      todo := todo - {k};
    }
  }

  /** `Where(keep).OrderBy(...).ToListAsync()`: each kept row once, in `le` order. */
  method Query<T(!new)>(m: map<int, T>, keep: T -> bool, le: ((int, T), (int, T)) -> bool) returns (r: seq<(int, T)>)
    requires TotalPreorder(le)
    ensures RowsOf(r, m) && DistinctKeys(r) && Sorted(r, le)
    ensures forall i :: 0 <= i < |r| ==> keep(r[i].1)
    ensures forall k :: k in m && keep(m[k]) ==> (k, m[k]) in r
  {
    var xs := Select(m, keep);
    r := SortBy(xs, le);
    SortBySorted(xs, le);
    SortByDistinct(xs, le);
    forall i | 0 <= i < |r|
      ensures r[i].0 in m && m[r[i].0] == r[i].1 && keep(r[i].1)
    {
      assert r[i] in xs;
    }
  }
}

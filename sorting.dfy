/**
  Stable insertion sort under a caller-supplied "sorts no later than"
  relation. PHP 8's `usort` and `ksort` are stable, and a stable sort under a
  total preorder has exactly one possible result, so this sort stands for
  both whenever their comparator is a total preorder.
 */
module Sorting {
  import opened OrderedMaps

  /** `le` is total and transitive. */
  ghost predicate TotalPreorder<T(!new)>(le: (T, T) -> bool) {
    && (forall a, b :: le(a, b) || le(b, a))
    && (forall a, b, c :: le(a, b) && le(b, c) ==> le(a, c))
  }

  ghost predicate Sorted<T>(s: seq<T>, le: (T, T) -> bool) {
    forall i, j :: 0 <= i < j < |s| ==> le(s[i], s[j])
  }

  /** Insert `x` after every element that may sort before it. */
  function InsertBy<T>(x: T, s: seq<T>, le: (T, T) -> bool): (r: seq<T>)
    ensures |r| == |s| + 1
    ensures multiset(r) == multiset(s) + multiset{x}
    decreases |s|
  {
    if s == [] then [x]
    else if !le(s[0], x) then [x] + s
    else
      var t := InsertBy(x, s[1..], le);
      assert s == [s[0]] + s[1..];
      [s[0]] + t
  }

  /** Stable insertion sort: each element in turn is inserted into the sorted
      prefix. Whatever `le` is, the result is a permutation of the input. */
  function SortBy<T>(s: seq<T>, le: (T, T) -> bool): (r: seq<T>)
    ensures |r| == |s|
    ensures multiset(r) == multiset(s)
    decreases |s|
  {
    if s == [] then []
    else
      var n := |s| - 1;
      assert s == s[..n] + [s[n]];
      InsertBy(s[n], SortBy(s[..n], le), le)
  }

  lemma {:induction false} InsertBySorted<T(!new)>(x: T, s: seq<T>, le: (T, T) -> bool)
    requires TotalPreorder(le)
    requires Sorted(s, le)
    ensures Sorted(InsertBy(x, s, le), le)
    decreases |s|
  {
    if s != [] {
      if !le(s[0], x) {
        assert le(x, s[0]);
      } else {
        var t := InsertBy(x, s[1..], le);
        InsertBySorted(x, s[1..], le);
        forall k | 0 <= k < |t| ensures le(s[0], t[k]) {
          assert t[k] in multiset(t);
          assert t[k] in multiset(s[1..]) + multiset{x};
          if t[k] != x {
            assert t[k] in s[1..];
          }
        }
      }
    }
  }

  /** Under a total preorder the sort's output is ordered. */
  lemma {:induction false} SortBySorted<T(!new)>(s: seq<T>, le: (T, T) -> bool)
    requires TotalPreorder(le)
    ensures Sorted(SortBy(s, le), le)
    decreases |s|
  {
    if s != [] {
      var n := |s| - 1;
      SortBySorted(s[..n], le);
      InsertBySorted(s[n], SortBy(s[..n], le), le);
    }
  }

  lemma {:induction false} InsertByDistinct<K, V>(x: (K, V), s: seq<(K, V)>, le: ((K, V), (K, V)) -> bool)
    requires UniqueKeys(s)
    requires forall i :: 0 <= i < |s| ==> s[i].0 != x.0
    ensures UniqueKeys(InsertBy(x, s, le))
    decreases |s|
  {
    if s != [] && le(s[0], x) {
      var t := InsertBy(x, s[1..], le);
      InsertByDistinct(x, s[1..], le);
      forall k | 0 <= k < |t| ensures t[k].0 != s[0].0 {
        assert t[k] in multiset(t);
        assert t[k] in multiset(s[1..]) + multiset{x};
        if t[k] != x {
          var q :| 0 <= q < |s[1..]| && s[1..][q] == t[k];
          assert s[q + 1] == t[k];
        }
      }
    }
  }

  /** Sorting entries with distinct keys keeps the keys distinct. */
  lemma {:induction false} SortByDistinct<K, V>(s: seq<(K, V)>, le: ((K, V), (K, V)) -> bool)
    requires UniqueKeys(s)
    ensures UniqueKeys(SortBy(s, le))
    decreases |s|
  {
    if s != [] {
      var n := |s| - 1;
      var t := SortBy(s[..n], le);
      SortByDistinct(s[..n], le);
      forall i | 0 <= i < |t| ensures t[i].0 != s[n].0 {
        assert t[i] in multiset(s[..n]);
        var q :| 0 <= q < n && s[..n][q] == t[i];
        assert s[q] == t[i];
      }
      InsertByDistinct(s[n], t, le);
    }
  }
}

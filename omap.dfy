/**
  A PHP array with string (or integer) keys is an ordered dictionary: keys are
  unique, iteration follows insertion order, and `$a[$k] = $v` overwrites the
  value in place when `$k` is present and appends `($k, $v)` otherwise.
  This module models such arrays as sequences of pairs.
 */
module OrderedMaps {
  import opened Wrappers

  type OMap<K, V> = seq<(K, V)>

  function Keys<K, V>(m: OMap<K, V>): (ks: seq<K>)
    ensures |ks| == |m|
    ensures forall i :: 0 <= i < |m| ==> ks[i] == m[i].0
  {
    seq(|m|, i requires 0 <= i < |m| => m[i].0)
  }

  /** `array_values`: the values in iteration order. */
  function Values<K, V>(m: OMap<K, V>): (vs: seq<V>)
    ensures |vs| == |m|
    ensures forall i :: 0 <= i < |m| ==> vs[i] == m[i].1
  {
    seq(|m|, i requires 0 <= i < |m| => m[i].1)
  }

  /** The invariant every PHP array satisfies: no key occurs twice. */
  ghost predicate UniqueKeys<K, V>(m: OMap<K, V>) {
    forall i, j :: 0 <= i < j < |m| ==> m[i].0 != m[j].0
  }

  predicate HasKey<K(==), V>(m: OMap<K, V>, k: K) {
    exists i :: 0 <= i < |m| && m[i].0 == k
  }

  /** Position of the first entry whose key is `k`. */
  function IndexOf<K(==), V>(m: OMap<K, V>, k: K): (r: Option<nat>)
    ensures r.Some? ==> r.value < |m| && m[r.value].0 == k
    ensures r.Some? ==> forall j :: 0 <= j < r.value ==> m[j].0 != k
    ensures r.None? <==> !HasKey(m, k)
  {
    if |m| == 0 then None
    else if m[0].0 == k then Some(0)
    else
      match IndexOf(m[1..], k)
      case None => None
      case Some(i) => Some(i + 1)
  }

  /** `$a[$k] ?? null` */
  function Get<K(==), V>(m: OMap<K, V>, k: K): (r: Option<V>)
    ensures r.Some? <==> HasKey(m, k)
    ensures r.Some? ==> exists i :: 0 <= i < |m| && m[i] == (k, r.value)
  {
    match IndexOf(m, k)
    case None => None
    case Some(i) => Some(m[i].1)
  }

  /** `$a[$k] = $v` */
  function Put<K(==), V>(m: OMap<K, V>, k: K, v: V): (r: OMap<K, V>)
    ensures Keys(r) == if HasKey(m, k) then Keys(m) else Keys(m) + [k]
    ensures HasKey(r, k)
  {
    match IndexOf(m, k)
    case None =>
      var r := m + [(k, v)];
      assert r[|m|].0 == k;
      r
    case Some(i) => m[i := (k, v)]
  }

  /** `unset($a[$k])` */
  function Remove<K(==), V>(m: OMap<K, V>, k: K): (r: OMap<K, V>)
    ensures |r| <= |m|
    ensures !HasKey(r, k)
    ensures forall i :: 0 <= i < |r| ==> r[i] in m
    ensures forall i :: 0 <= i < |m| && m[i].0 != k ==> m[i] in r
  {
    if |m| == 0 then []
    else if m[0].0 == k then Remove(m[1..], k)
    else [m[0]] + Remove(m[1..], k)
  }

  lemma {:induction false} PutValue<K, V>(m: OMap<K, V>, k: K, v: V, k': K)
    requires UniqueKeys(m)
    ensures UniqueKeys(Put(m, k, v))
    ensures Get(Put(m, k, v), k') == if k' == k then Some(v) else Get(m, k')
  {
    var r := Put(m, k, v);
    match IndexOf(m, k)
    case None =>
      assert r == m + [(k, v)];
      if k' != k && HasKey(m, k') {
        var i := IndexOf(m, k').value;
        assert IndexOf(r, k') == Some(i) by { UniqueIndex(r, k', i); }
      } else if k' != k {
        assert !HasKey(r, k');
      } else {
        UniqueIndex(r, k, |m|);
      }
    case Some(i) =>
      assert r == m[i := (k, v)];
      if k' == k {
        UniqueIndex(r, k, i);
      } else if HasKey(m, k') {
        var j := IndexOf(m, k').value;
        UniqueIndex(r, k', j);
      } else {
        assert !HasKey(r, k');
      }
  }

  /** Assigning a key the map does not hold appends it. */
  lemma PutAbsent<K, V>(m: OMap<K, V>, k: K, v: V)
    requires !HasKey(m, k)
    ensures Put(m, k, v) == m + [(k, v)]
  {
  }

  /** Appending an entry never changes the lookup of a key already present. */
  lemma GetSnoc<K, V>(m: OMap<K, V>, e: (K, V), k: K)
    ensures Get(m + [e], k) == if HasKey(m, k) then Get(m, k) else if e.0 == k then Some(e.1) else None
  {
    var r := m + [e];
    match IndexOf(m, k)
    case Some(i) =>
      assert r[i] == m[i];
      var j := IndexOf(r, k).value;
      assert j == i;
    case None =>
      if e.0 == k {
        assert r[|m|].0 == k;
        var j := IndexOf(r, k).value;
        assert j == |m|;
      } else {
        assert !HasKey(r, k);
      }
  }

  /** Every entry of `Put(m, k, v)` is the new one or the old one at that place. */
  lemma PutEntry<K, V>(m: OMap<K, V>, k: K, v: V, i: nat)
    requires i < |Put(m, k, v)|
    ensures Put(m, k, v)[i] == (k, v) || (i < |m| && Put(m, k, v)[i] == m[i])
  {
  }

  /** In a map with unique keys the only entry with key `k` is at `IndexOf`. */
  lemma UniqueIndex<K, V>(m: OMap<K, V>, k: K, i: nat)
    requires UniqueKeys(m) && i < |m| && m[i].0 == k
    ensures IndexOf(m, k) == Some(i)
  {
  }

  /** A run of assignments `$a[$k] = $v`, one per pair, starting from `[]`. */
  function Assign<K(==), V>(s: seq<(K, V)>): (m: OMap<K, V>)
    decreases |s|
  {
    if s == [] then [] else Put(Assign(s[..|s| - 1]), s[|s| - 1].0, s[|s| - 1].1)
  }

  /** One more assignment extends the run. */
  lemma AssignStep<K, V>(s: seq<(K, V)>, j: nat)
    requires j < |s|
    ensures Assign(s[..j + 1]) == Put(Assign(s[..j]), s[j].0, s[j].1)
  {
    assert s[..j + 1][..j] == s[..j];
  }

  /** The value of the last pair of `s` whose key is `k`. */
  function LastAssigned<K(==), V>(s: seq<(K, V)>, k: K): (r: Option<V>)
    ensures r.Some? <==> exists j :: 0 <= j < |s| && s[j].0 == k
    ensures r.Some? ==> exists j :: 0 <= j < |s| && s[j] == (k, r.value) &&
                                    forall j' :: j < j' < |s| ==> s[j'].0 != k
    decreases |s|
  {
    if s == [] then None
    else if s[|s| - 1].0 == k then Some(s[|s| - 1].1)
    else LastAssigned(s[..|s| - 1], k)
  }

  lemma LastAssignedSnoc<K, V>(s: seq<(K, V)>, e: (K, V), k: K)
    ensures LastAssigned(s + [e], k) == if e.0 == k then Some(e.1) else LastAssigned(s, k)
  {
    assert (s + [e])[..|s|] == s;
  }

  /** Assignments are last-wins per key, and the result is a proper PHP array. */
  lemma {:induction false} AssignLastWins<K, V>(s: seq<(K, V)>, k: K)
    ensures UniqueKeys(Assign(s))
    ensures Get(Assign(s), k) == LastAssigned(s, k)
    decreases |s|
  {
    if s != [] {
      var n := |s| - 1;
      AssignLastWins(s[..n], k);
      PutValue(Assign(s[..n]), s[n].0, s[n].1, k);
    }
  }

  /** Assigning pairs whose keys are already distinct rebuilds the same array. */
  lemma {:induction false} AssignDistinct<K, V>(s: seq<(K, V)>)
    requires UniqueKeys(s)
    ensures Assign(s) == s
    decreases |s|
  {
    if s != [] {
      var n := |s| - 1;
      AssignDistinct(s[..n]);
      assert !HasKey(s[..n], s[n].0);
    }
  }

  /** `ks` followed by each element of `more` not already present, in order of
      first occurrence: the key order a run of assignments produces. */
  function AppendNew<K(==,!new)>(ks: seq<K>, more: seq<K>): (r: seq<K>)
    ensures forall x :: x in r <==> x in ks || x in more
    ensures |ks| <= |r| && r[..|ks|] == ks
    decreases |more|
  {
    if more == [] then ks
    else
      var n := |more| - 1;
      var e := AppendNew(ks, more[..n]);
      assert more == more[..n] + [more[n]];
      if more[n] in e then e else e + [more[n]]
  }

  lemma HasKeyKeys<K, V>(m: OMap<K, V>, k: K)
    ensures HasKey(m, k) <==> k in Keys(m)
  {
    if k in Keys(m) {
      var i :| 0 <= i < |m| && Keys(m)[i] == k;
      assert m[i].0 == k;
    }
  }

  /** The keys of a run of assignments are the assigned keys in order of
      first assignment: a later assignment to a key never moves it. */
  lemma {:induction false} AssignKeys<K(!new), V>(s: seq<(K, V)>)
    ensures Keys(Assign(s)) == AppendNew([], Keys(s))
    decreases |s|
  {
    if s != [] {
      var n := |s| - 1;
      var a := Assign(s[..n]);
      AssignKeys(s[..n]);
      assert Keys(s)[..n] == Keys(s[..n]);
      HasKeyKeys(a, s[n].0);
    }
  }

  /** Later pairs win: the last assignment of `k` in `a + b` is the one in `b`
      if `b` assigns `k` at all. */
  lemma {:induction false} LastAssignedAppend<K, V>(a: seq<(K, V)>, b: seq<(K, V)>, k: K)
    ensures LastAssigned(a + b, k) ==
            if LastAssigned(b, k).Some? then LastAssigned(b, k) else LastAssigned(a, k)
    decreases |b|
  {
    if b != [] {
      var n := |b| - 1;
      assert (a + b)[..|a + b| - 1] == a + b[..n];
      LastAssignedAppend(a, b[..n], k);
    } else {
      assert a + b == a;
    }
  }

  lemma UniqueTail<K, V>(m: OMap<K, V>)
    requires UniqueKeys(m) && m != []
    ensures UniqueKeys(m[1..])
    ensures !HasKey(m[1..], m[0].0)
  {
    forall a, b | 0 <= a < b < |m| - 1 ensures m[1..][a].0 != m[1..][b].0 {
      assert m[1..][a] == m[a + 1] && m[1..][b] == m[b + 1];
    }
    forall a | 0 <= a < |m| - 1 ensures m[1..][a].0 != m[0].0 {
      assert m[1..][a] == m[a + 1];
    }
  }

  /** Removing a key that is absent changes nothing. */
  lemma {:induction false} RemoveAbsent<K, V>(m: OMap<K, V>, k: K)
    requires !HasKey(m, k)
    ensures Remove(m, k) == m
    decreases |m|
  {
    if m != [] {
      assert !HasKey(m[1..], k) by {
        forall a | 0 <= a < |m| - 1 ensures m[1..][a].0 != k {
          assert m[1..][a] == m[a + 1];
        }
      }
      RemoveAbsent(m[1..], k);
    }
  }

  /** Removing the key at `i` of a proper PHP array cuts out exactly that
      entry. */
  lemma {:induction false} RemoveSplit<K, V>(m: OMap<K, V>, k: K, i: nat)
    requires UniqueKeys(m) && i < |m| && m[i].0 == k
    ensures Remove(m, k) == m[..i] + m[i + 1..]
    decreases |m|
  {
    var rest := m[1..];
    UniqueTail(m);
    if i == 0 {
      RemoveAbsent(rest, k);
    } else {
      assert m[0].0 != k;
      RemoveSplit(rest, k, i - 1);
      ConsCut(m, i);
    }
  }

  lemma ConsCut<T>(m: seq<T>, i: nat)
    requires 0 < i < |m|
    ensures [m[0]] + (m[1..][..i - 1] + m[1..][i..]) == m[..i] + m[i + 1..]
  {
    assert m[..i] == [m[0]] + m[1..][..i - 1];
    assert m[i + 1..] == m[1..][i..];
  }

  /** Removing a key keeps a proper PHP array proper. */
  lemma {:induction false} RemoveUnique<K, V>(m: OMap<K, V>, k: K)
    requires UniqueKeys(m)
    ensures UniqueKeys(Remove(m, k))
    decreases |m|
  {
    if m != [] {
      var rest := m[1..];
      UniqueTail(m);
      RemoveUnique(rest, k);
      if m[0].0 != k {
        var r := Remove(rest, k);
        forall a | 0 <= a < |r| ensures r[a].0 != m[0].0 {
          assert r[a] in rest;
        }
        assert Remove(m, k) == [m[0]] + r;
      }
    }
  }

  lemma UniquePrefix<K, V>(m: OMap<K, V>, n: nat)
    requires UniqueKeys(m) && n <= |m|
    ensures UniqueKeys(m[..n])
  {
    forall a, b | 0 <= a < b < n ensures m[..n][a].0 != m[..n][b].0 {
      assert m[..n][a] == m[a] && m[..n][b] == m[b];
    }
  }

  /** The last key of a proper PHP array does not occur before it. */
  lemma UniqueLast<K, V>(m: OMap<K, V>)
    requires UniqueKeys(m) && m != []
    ensures !HasKey(m[..|m| - 1], m[|m| - 1].0)
  {
    var n := |m| - 1;
    forall a | 0 <= a < n ensures m[..n][a].0 != m[n].0 {
      assert m[..n][a] == m[a];
    }
  }

  /** An array whose entries all come from another has only keys of it. */
  lemma HasKeyOfSubset<K, V>(a: OMap<K, V>, b: OMap<K, V>, k: K)
    requires forall e :: e in a ==> e in b
    ensures HasKey(a, k) ==> HasKey(b, k)
  {
    if HasKey(a, k) {
      var i :| 0 <= i < |a| && a[i].0 == k;
      assert a[i] in a;
      var j :| 0 <= j < |b| && b[j] == a[i];
    }
  }

  lemma SnocUnique<K, V>(m: OMap<K, V>, e: (K, V))
    requires UniqueKeys(m) && !HasKey(m, e.0)
    ensures UniqueKeys(m + [e])
  {
  }

  /** Assignments keep the keys in order of first assignment. */
  lemma PutKeysAppend<K(!new), V>(m: OMap<K, V>, k: K, v: V, ks: seq<K>, base: seq<K>)
    requires Keys(m) == AppendNew(base, ks)
    ensures Keys(Put(m, k, v)) == AppendNew(base, ks + [k])
  {
    assert (ks + [k])[..|ks|] == ks;
    HasKeyKeys(m, k);
  }

  /** An assignment keeps an array's keys unique. */
  lemma PutUnique<K, V>(m: OMap<K, V>, k: K, v: V)
    requires UniqueKeys(m)
    ensures UniqueKeys(Put(m, k, v))
  {
    var r := Put(m, k, v);
    if HasKey(m, k) {
      forall a, b | 0 <= a < b < |r| ensures r[a].0 != r[b].0 {
        assert Keys(r)[a] == Keys(m)[a] && Keys(r)[b] == Keys(m)[b];
      }
    } else {
      PutAbsent(m, k, v);
      SnocUnique(m, (k, v));
    }
  }

  /** After `$a[$k] = $v`, `$a[$k]` reads `$v`, whatever else the array holds. */
  lemma PutGet<K, V>(m: OMap<K, V>, k: K, v: V)
    ensures Get(Put(m, k, v), k) == Some(v)
  {
    var r := Put(m, k, v);
    var j := IndexOf(r, k).value;
    match IndexOf(m, k)
    case None =>
      assert j == |m|;
    case Some(i) =>
      assert j == i;
  }
}

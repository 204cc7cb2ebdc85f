/** Sorting by a descending key.  Python's `sorted(xs, key=lambda x: -k(x))`
    is stable; `SortDesc` is a stable insertion sort with that behaviour. */
module Sorting {
  import opened Seqs

  ghost predicate NonIncreasing<T>(s: seq<T>, key: T -> real) {
    forall i, j :: 0 <= i < j < |s| ==> key(s[i]) >= key(s[j])
  }

  /** No two elements share a name (for instance, the key of a dict entry). */
  ghost predicate NoDupBy<T, K>(s: seq<T>, name: T -> K) {
    forall i, j :: 0 <= i < j < |s| ==> name(s[i]) != name(s[j])
  }

  /** Places `x` after every element whose key is at least `key(x)`, so that
      elements with equal keys stay in arrival order. */
  function Insert<T>(x: T, s: seq<T>, key: T -> real): seq<T> {
    if s == [] then [x]
    else if key(s[0]) >= key(x) then [s[0]] + Insert(x, s[1..], key)
    else [x] + s
  }

  function SortDesc<T>(s: seq<T>, key: T -> real): seq<T> {
    if s == [] then [] else Insert(s[|s| - 1], SortDesc(s[..|s| - 1], key), key)
  }

  /** The elements whose key is exactly `c`, in order. */
  function WithKey<T>(s: seq<T>, key: T -> real, c: real): seq<T> {
    Filter(s, x => key(x) == c)
  }

  lemma {:induction false} InsertPerm<T>(x: T, s: seq<T>, key: T -> real)
    ensures multiset(Insert(x, s, key)) == multiset(s) + multiset{x}
  {
    if s != [] && key(s[0]) >= key(x) {
      InsertPerm(x, s[1..], key);
      assert s == [s[0]] + s[1..];
    }
  }

  lemma {:induction false} InsertSorted<T>(x: T, s: seq<T>, key: T -> real)
    requires NonIncreasing(s, key)
    ensures NonIncreasing(Insert(x, s, key), key)
  {
    if s != [] && key(s[0]) >= key(x) {
      var t := Insert(x, s[1..], key);
      InsertSorted(x, s[1..], key);
      InsertPerm(x, s[1..], key);
      forall j | 0 <= j < |t|
        ensures key(s[0]) >= key(t[j])
      {
        assert t[j] in multiset(t);
        assert t[j] == x || t[j] in s[1..];
      }
    }
  }

  lemma {:induction false} InsertNoDupBy<T, K>(x: T, s: seq<T>, key: T -> real, name: T -> K)
    requires NoDupBy(s, name)
    requires forall i :: 0 <= i < |s| ==> name(s[i]) != name(x)
    ensures NoDupBy(Insert(x, s, key), name)
  {
    if s != [] && key(s[0]) >= key(x) {
      var t := Insert(x, s[1..], key);
      InsertNoDupBy(x, s[1..], key, name);
      InsertPerm(x, s[1..], key);
      forall j | 0 <= j < |t|
        ensures name(s[0]) != name(t[j])
      {
        assert t[j] in multiset(t);
        assert t[j] == x || t[j] in s[1..];
      }
    }
  }

  /** The result is a permutation of the input. */
  lemma {:induction false} SortDescPerm<T>(s: seq<T>, key: T -> real)
    ensures multiset(SortDesc(s, key)) == multiset(s)
  {
    if s != [] {
      var init := s[..|s| - 1];
      SortDescPerm(init, key);
      InsertPerm(s[|s| - 1], SortDesc(init, key), key);
      assert s == init + [s[|s| - 1]];
    }
  }

  /** The result is ordered by non-increasing key. */
  lemma {:induction false} SortDescSorted<T>(s: seq<T>, key: T -> real)
    ensures NonIncreasing(SortDesc(s, key), key)
  {
    if s != [] {
      SortDescSorted(s[..|s| - 1], key);
      InsertSorted(s[|s| - 1], SortDesc(s[..|s| - 1], key), key);
    }
  }

  /** Sorting never makes two elements share a name. */
  lemma {:induction false} SortDescNoDupBy<T, K>(s: seq<T>, key: T -> real, name: T -> K)
    requires NoDupBy(s, name)
    ensures NoDupBy(SortDesc(s, key), name)
  {
    if s != [] {
      var init := s[..|s| - 1];
      var sorted := SortDesc(init, key);
      SortDescNoDupBy(init, key, name);
      SortDescPerm(init, key);
      forall i | 0 <= i < |sorted|
        ensures name(sorted[i]) != name(s[|s| - 1])
      {
        assert sorted[i] in multiset(sorted);
        var j :| 0 <= j < |init| && init[j] == sorted[i];
        assert s[j] == init[j];
      }
      InsertNoDupBy(s[|s| - 1], sorted, key, name);
    }
  }

  lemma {:induction false} WithKeyNone<T>(s: seq<T>, key: T -> real, c: real)
    requires forall i :: 0 <= i < |s| ==> key(s[i]) != c
    ensures WithKey(s, key, c) == []
  {
    if s != [] {
      WithKeyNone(s[1..], key, c);
    }
  }

  lemma WithKeyCons<T>(x: T, s: seq<T>, key: T -> real, c: real)
    ensures WithKey([x] + s, key, c) == (if key(x) == c then [x] else []) + WithKey(s, key, c)
  {
    assert ([x] + s)[1..] == s;
  }

  lemma {:induction false} InsertWithKey<T>(x: T, s: seq<T>, key: T -> real, c: real)
    requires NonIncreasing(s, key)
    ensures WithKey(Insert(x, s, key), key, c) == WithKey(s, key, c) + (if key(x) == c then [x] else [])
  {
    if s == [] {
      WithKeyCons(x, s, key, c);
    } else if key(s[0]) >= key(x) {
      InsertWithKey(x, s[1..], key, c);
      WithKeyCons(s[0], Insert(x, s[1..], key), key, c);
      WithKeyCons(s[0], s[1..], key, c);
      assert s == [s[0]] + s[1..];
    } else {
      WithKeyCons(x, s, key, c);
      if key(x) == c {
        WithKeyNone(s, key, c);
      }
    }
  }

  /** Stability: the elements sharing any one key keep their relative order. */
  lemma {:induction false} SortDescStable<T>(s: seq<T>, key: T -> real, c: real)
    ensures WithKey(SortDesc(s, key), key, c) == WithKey(s, key, c)
  {
    if s != [] {
      var init := s[..|s| - 1];
      SortDescStable(init, key, c);
      SortDescSorted(init, key);
      InsertWithKey(s[|s| - 1], SortDesc(init, key), key, c);
      FilterSnoc(init, s[|s| - 1], y => key(y) == c);
      assert s == init + [s[|s| - 1]];
    }
  }

  /** A prefix of an ordered sequence without repeated names is ordered and
      has no repeated names. */
  lemma PrefixKeepsOrder<T, K>(s: seq<T>, m: nat, key: T -> real, name: T -> K)
    requires m <= |s| && NonIncreasing(s, key) && NoDupBy(s, name)
    ensures NonIncreasing(s[..m], key) && NoDupBy(s[..m], name)
  {
    assert forall i :: 0 <= i < m ==> s[..m][i] == s[i];
  }

  /** Taking a prefix keeps, for each key, a prefix of the elements with that key. */
  lemma WithKeyPrefix<T>(s: seq<T>, n: nat, key: T -> real, c: real)
    requires n <= |s|
    ensures WithKey(s[..n], key, c) <= WithKey(s, key, c)
  {
    FilterConcat(s[..n], s[n..], y => key(y) == c);
    assert s == s[..n] + s[n..];
  }
}

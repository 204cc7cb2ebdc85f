/** Sequence operations that the Python code gets from its list, slice and
    dict built-ins: comprehension filters, `s[:n]`, `s * k`, and a dict used as
    an insertion-ordered counter. */
module Seqs {
  import opened Wrappers

  /** Python's `range(n)` runs `max(0, n)` times. */
  function Clamp(n: int): nat {
    if n < 0 then 0 else n
  }

  function Min(a: int, b: int): int {
    if a <= b then a else b
  }

  /** Python's prefix slice `s[:n]`; a negative `n` counts from the end. */
  function PyTake<T>(s: seq<T>, n: int): (r: seq<T>)
    ensures r <= s
    ensures n >= 0 ==> |r| == Min(n, |s|)
    ensures n < 0 ==> |r| == Clamp(|s| + n)
  {
    if n >= 0 then (if n <= |s| then s[..n] else s)
    else if |s| + n >= 0 then s[..|s| + n]
    else []
  }

  lemma ConsAssoc<T>(h: T, a: seq<T>, b: seq<T>)
    ensures [h] + (a + b) == ([h] + a) + b
  {
  }

  lemma DropAppend<T>(a: seq<T>, t: seq<T>, n: nat)
    requires n <= |a|
    ensures (a + t)[n..] == a[n..] + t
  {
  }

  lemma Cons3<T>(a: T, b: T, c: T, rest: seq<T>)
    ensures [a] + [b] + [c] + rest == [a, b, c] + rest
  {
  }

  lemma Cons3Split<T>(a: T, b: T, c: T, p: seq<T>)
    requires p != []
    ensures [a] + [b] + [c] + [p[0]] + p[1..] == [a, b, c] + p
  {
    assert p == [p[0]] + p[1..];
  }

  /** Python's list repetition `s * k`, which is empty for `k <= 0`. */
  function Repeat<T>(s: seq<T>, k: int): seq<T>
    decreases Clamp(k)
  {
    if k <= 0 then [] else s + Repeat(s, k - 1)
  }

  /** `s * k` has `k` copies of `s`: it starts with `s` and repeats with period `|s|`. */
  lemma {:induction false} RepeatPeriodic<T>(s: seq<T>, k: nat)
    ensures |Repeat(s, k)| == |s| * k
    ensures forall i :: 0 <= i < |s| && k > 0 ==> Repeat(s, k)[i] == s[i]
    ensures forall i :: |s| <= i < |Repeat(s, k)| ==> Repeat(s, k)[i] == Repeat(s, k)[i - |s|]
  {
    if k > 0 {
      RepeatPeriodic(s, k - 1);
      var r := Repeat(s, k - 1);
      assert Repeat(s, k) == s + r;
      assert |s| * k == |s| + |s| * (k - 1);
      if k > 1 {
        assert r[..|s|] == s;
      }
    }
  }

  /** The comprehension `[x for x in s if p(x)]`. */
  function Filter<T>(s: seq<T>, p: T -> bool): (r: seq<T>)
    ensures |r| <= |s|
    ensures forall i :: 0 <= i < |r| ==> p(r[i])
  {
    if s == [] then [] else (if p(s[0]) then [s[0]] else []) + Filter(s[1..], p)
  }

  /** The filter keeps exactly the elements that satisfy `p`: each kept
      element comes from `s`, and each element of `s` satisfying `p` is kept. */
  lemma {:induction false} FilterMembers<T>(s: seq<T>, p: T -> bool)
    ensures forall i :: 0 <= i < |Filter(s, p)| ==> Filter(s, p)[i] in s
    ensures forall i :: 0 <= i < |s| && p(s[i]) ==> s[i] in Filter(s, p)
  {
    if s != [] {
      FilterMembers(s[1..], p);
      assert s == [s[0]] + s[1..];
      var r := Filter(s, p);
      var t := Filter(s[1..], p);
      forall i | 0 <= i < |r|
        ensures r[i] in s
      {
        if !p(s[0]) || i > 0 {
          var k := if p(s[0]) then i - 1 else i;
          assert r[i] == t[k];
        }
      }
    }
  }

  lemma {:induction false} FilterConcat<T>(a: seq<T>, b: seq<T>, p: T -> bool)
    ensures Filter(a + b, p) == Filter(a, p) + Filter(b, p)
  {
    if a != [] {
      assert (a + b)[0] == a[0];
      assert (a + b)[1..] == a[1..] + b;
      FilterConcat(a[1..], b, p);
    } else {
      assert a + b == b;
    }
  }

  lemma {:induction false} FilterNone<T>(s: seq<T>, p: T -> bool)
    requires forall i :: 0 <= i < |s| ==> !p(s[i])
    ensures Filter(s, p) == []
  {
    if s != [] {
      FilterNone(s[1..], p);
    }
  }

  lemma FilterSnoc<T>(a: seq<T>, x: T, p: T -> bool)
    ensures Filter(a + [x], p) == Filter(a, p) + (if p(x) then [x] else [])
  {
    FilterConcat(a, [x], p);
  }

  /** `[y for x in xs if (y := f(x)) is not None]`: the results of `f` that
      are present, in order. */
  function FilterMap<A, B>(xs: seq<A>, f: A -> Option<B>): (r: seq<B>)
    ensures |r| <= |xs|
  {
    if xs == [] then []
    else
      var init := FilterMap(xs[..|xs| - 1], f);
      match f(xs[|xs| - 1])
      case None => init
      case Some(y) => init + [y]
  }

  lemma {:induction false} FilterMapConcat<A, B>(a: seq<A>, b: seq<A>, f: A -> Option<B>)
    ensures FilterMap(a + b, f) == FilterMap(a, f) + FilterMap(b, f)
    decreases |b|
  {
    if b == [] {
      assert a + b == a;
    } else {
      var n := |b| - 1;
      FilterMapConcat(a, b[..n], f);
      assert (a + b)[..|a + b| - 1] == a + b[..n];
      assert (a + b)[|a + b| - 1] == b[n];
    }
  }

  /** Every result comes from an element that maps to it, and every element
      that maps to a value contributes it. */
  lemma {:induction false} FilterMapMembers<A, B>(xs: seq<A>, f: A -> Option<B>)
    ensures forall k :: 0 <= k < |FilterMap(xs, f)| ==>
      exists j :: 0 <= j < |xs| && f(xs[j]) == Some(FilterMap(xs, f)[k])
    ensures forall j :: 0 <= j < |xs| && f(xs[j]).Some? ==> f(xs[j]).value in FilterMap(xs, f)
  {
    if xs != [] {
      var n := |xs| - 1;
      var init := xs[..n];
      FilterMapMembers(init, f);
      assert forall j :: 0 <= j < n ==> init[j] == xs[j];
      var r := FilterMap(xs, f);
      var r0 := FilterMap(init, f);
      assert r0 <= r;
      forall k | 0 <= k < |r|
        ensures exists j :: 0 <= j < |xs| && f(xs[j]) == Some(r[k])
      {
        if k < |r0| {
          var j :| 0 <= j < n && f(init[j]) == Some(r0[k]);
          assert f(xs[j]) == Some(r[k]);
        } else {
          assert f(xs[n]) == Some(r[k]);
        }
      }
      forall j | 0 <= j < |xs| && f(xs[j]).Some?
        ensures f(xs[j]).value in r
      {
        if j < n {
          assert f(init[j]).value in r0;
        } else {
          assert r == r0 + [f(xs[n]).value];
        }
      }
    } else {
      assert FilterMap(xs, f) == [];
    }
  }

  ghost predicate NoDup<T>(s: seq<T>) {
    forall i, j :: 0 <= i < j < |s| ==> s[i] != s[j]
  }

  /** The distinct elements of `s` in the order of their first occurrence. */
  function Distinct<T(==)>(s: seq<T>): (r: seq<T>)
    ensures NoDup(r)
  {
    if s == [] then []
    else
      var d := Distinct(s[..|s| - 1]);
      if s[|s| - 1] in d then d else d + [s[|s| - 1]]
  }

  /** `Distinct(s)` holds the same elements as `s`. */
  lemma {:induction false} DistinctMembers<T>(s: seq<T>)
    ensures forall i :: 0 <= i < |Distinct(s)| ==> Distinct(s)[i] in s
    ensures forall i :: 0 <= i < |s| ==> s[i] in Distinct(s)
  {
    if s != [] {
      var init := s[..|s| - 1];
      DistinctMembers(init);
      assert forall i :: 0 <= i < |init| ==> init[i] == s[i];
      assert s == init + [s[|s| - 1]];
    }
  }

  /** The keys of an association list, in order. */
  function Keys<K, V>(m: seq<(K, V)>): (r: seq<K>)
    ensures |r| == |m|
    ensures forall i :: 0 <= i < |m| ==> r[i] == m[i].0
  {
    seq(|m|, i requires 0 <= i < |m| => m[i].0)
  }

  /** `counts.get(k, 0)` on an association list standing for a dict. */
  function Get<T(==)>(counts: seq<(T, nat)>, k: T): nat {
    if counts == [] then 0
    else if counts[0].0 == k then counts[0].1
    else Get(counts[1..], k)
  }

  /** `counts[t] = counts.get(t, 0) + 1` on a dict that keeps insertion order:
      an existing key keeps its place, a new key goes to the end. */
  function Bump<T(==)>(counts: seq<(T, nat)>, t: T): seq<(T, nat)> {
    if counts == [] then [(t, 1)]
    else if counts[0].0 == t then [(t, counts[0].1 + 1)] + counts[1..]
    else [counts[0]] + Bump(counts[1..], t)
  }

  /** The dict built by bumping the counter once for each element of `xs`, in order. */
  function Tally<T(==)>(xs: seq<T>): seq<(T, nat)> {
    if xs == [] then [] else Bump(Tally(xs[..|xs| - 1]), xs[|xs| - 1])
  }

  lemma TallySnoc<T>(xs: seq<T>, x: T)
    ensures Tally(xs + [x]) == Bump(Tally(xs), x)
  {
    assert (xs + [x])[..|xs|] == xs;
  }

  lemma KeysCons<K, V>(h: (K, V), rest: seq<(K, V)>)
    ensures Keys([h] + rest) == [h.0] + Keys(rest)
  {
  }

  lemma {:induction false} BumpKeys<T>(counts: seq<(T, nat)>, t: T)
    ensures Keys(Bump(counts, t)) == if t in Keys(counts) then Keys(counts) else Keys(counts) + [t]
    decreases |counts|, 1
  {
    if counts == [] {
      assert Keys([(t, 1)]) == [t];
    } else if counts[0].0 == t {
      BumpKeysHit(counts, t);
    } else {
      BumpKeysMiss(counts, t);
    }
  }

  lemma BumpKeysHit<T>(counts: seq<(T, nat)>, t: T)
    requires counts != [] && counts[0].0 == t
    ensures t in Keys(counts) && Keys(Bump(counts, t)) == Keys(counts)
  {
    var b := Bump(counts, t);
    assert |b| == |counts|;
    assert forall i :: 0 <= i < |b| ==> b[i].0 == counts[i].0;
    assert Keys(counts)[0] == t;
  }

  lemma {:induction false} BumpKeysMiss<T>(counts: seq<(T, nat)>, t: T)
    requires counts != [] && counts[0].0 != t
    ensures Keys(Bump(counts, t)) == if t in Keys(counts) then Keys(counts) else Keys(counts) + [t]
    decreases |counts|, 0
  {
    var h, rest := counts[0], counts[1..];
    assert Keys(counts) == [h.0] + Keys(rest) by {
      assert counts == [h] + rest;
      KeysCons(h, rest);
    }
    assert Keys(Bump(counts, t)) == [h.0] + Keys(Bump(rest, t)) by {
      KeysCons(h, Bump(rest, t));
    }
    BumpKeys(rest, t);
    ConsAssoc(h.0, Keys(rest), [t]);
  }

  lemma {:induction false} BumpGet<T>(counts: seq<(T, nat)>, t: T, k: T)
    ensures Get(Bump(counts, t), k) == Get(counts, k) + (if k == t then 1 else 0)
  {
    if counts != [] && counts[0].0 != t {
      BumpGet(counts[1..], t, k);
    }
  }

  lemma {:induction false} GetEntry<T>(counts: seq<(T, nat)>, i: nat)
    requires i < |counts| && NoDup(Keys(counts))
    ensures Get(counts, counts[i].0) == counts[i].1
  {
    if i > 0 {
      assert Keys(counts)[0] != Keys(counts)[i];
      assert Keys(counts[1..]) == Keys(counts)[1..];
      GetEntry(counts[1..], i - 1);
    }
  }

  /** The counter's keys are the distinct elements in first-occurrence order. */
  lemma {:induction false} TallyKeys<T>(xs: seq<T>)
    ensures Keys(Tally(xs)) == Distinct(xs)
  {
    if xs != [] {
      TallyKeys(xs[..|xs| - 1]);
      BumpKeys(Tally(xs[..|xs| - 1]), xs[|xs| - 1]);
    }
  }

  /** Every count is the number of occurrences of its key. */
  lemma {:induction false} TallyGet<T>(xs: seq<T>, k: T)
    ensures Get(Tally(xs), k) == multiset(xs)[k]
  {
    if xs != [] {
      var init := xs[..|xs| - 1];
      TallyGet(init, k);
      BumpGet(Tally(init), xs[|xs| - 1], k);
      assert xs == init + [xs[|xs| - 1]];
    }
  }

  /** The counter is a faithful occurrence count of `xs`: one entry per
      distinct element, in first-occurrence order, each with its multiplicity. */
  lemma TallyCounts<T>(xs: seq<T>)
    ensures Keys(Tally(xs)) == Distinct(xs)
    ensures NoDup(Keys(Tally(xs)))
    ensures forall i :: 0 <= i < |Tally(xs)| ==> Tally(xs)[i].1 == multiset(xs)[Tally(xs)[i].0]
    ensures forall i :: 0 <= i < |xs| ==> xs[i] in Keys(Tally(xs))
    ensures forall i :: 0 <= i < |Tally(xs)| ==> Tally(xs)[i].0 in xs
  {
    TallyKeys(xs);
    DistinctMembers(xs);
    forall i | 0 <= i < |Tally(xs)|
      ensures Tally(xs)[i].1 == multiset(xs)[Tally(xs)[i].0]
    {
      GetEntry(Tally(xs), i);
      TallyGet(xs, Tally(xs)[i].0);
    }
  }
}

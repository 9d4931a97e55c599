/** The largest-files ranking. Python sorts `(size, str(path))` tuples with
    `reverse=True`, so rows are ordered by size and then by path text, both
    descending. This module defines that order, a reference descending sort,
    Python's `list[:n]` slice, and the facts the aggregator's amortised
    "grow to three times N, then sort and cut back to N" strategy rests on. */
module Ranking {
  import opened Text

  /** One row of the largest-files list: `(size, str(path))`. */
  datatype Ranked = Ranked(size: nat, path: string)

  /** Python's `a >= b` on `(size, path)` tuples. */
  predicate Geq(a: Ranked, b: Ranked) {
    a.size > b.size || (a.size == b.size && StrLeq(b.path, a.path))
  }

  lemma GeqRefl(a: Ranked)
    ensures Geq(a, a)
  {
    StrLeqRefl(a.path);
  }

  lemma GeqTotal(a: Ranked, b: Ranked)
    ensures Geq(a, b) || Geq(b, a)
  {
    StrLeqTotal(a.path, b.path);
  }

  lemma GeqAntisymmetric(a: Ranked, b: Ranked)
    requires Geq(a, b) && Geq(b, a)
    ensures a == b
  {
    StrLeqAntisymmetric(a.path, b.path);
  }

  lemma GeqTransitive(a: Ranked, b: Ranked, c: Ranked)
    requires Geq(a, b) && Geq(b, c)
    ensures Geq(a, c)
  {
    if a.size == b.size == c.size {
      StrLeqTransitive(c.path, b.path, a.path);
    }
  }

  /** Non-increasing in the tuple order. */
  predicate Sorted(s: seq<Ranked>) {
    forall i, j :: 0 <= i < j < |s| ==> Geq(s[i], s[j])
  }

  /** `x` is at least every element of `s`. */
  predicate Dominates(x: Ranked, s: seq<Ranked>) {
    forall j :: 0 <= j < |s| ==> Geq(x, s[j])
  }

  lemma DominatesSub(x: Ranked, s: seq<Ranked>, t: seq<Ranked>)
    requires Dominates(x, s) && multiset(t) <= multiset(s)
    ensures Dominates(x, t)
  {
    forall j | 0 <= j < |t|
      ensures Geq(x, t[j])
    {
      assert t[j] in multiset(t);
      assert t[j] in s;
    }
  }

  lemma DominatesViaHead(x: Ranked, q: seq<Ranked>)
    requires q != [] && Sorted(q) && Geq(x, q[0])
    ensures Dominates(x, q)
  {
    forall j | 0 <= j < |q|
      ensures Geq(x, q[j])
    {
      if j > 0 {
        GeqTransitive(x, q[0], q[j]);
      }
    }
  }

  /** Merging two lists, taking the larger head first. */
  function Merge(p: seq<Ranked>, q: seq<Ranked>): (r: seq<Ranked>)
    ensures multiset(r) == multiset(p) + multiset(q)
    decreases |p| + |q|
  {
    if p == [] then q
    else if q == [] then p
    else if Geq(p[0], q[0]) then
      assert p == [p[0]] + p[1..];
      [p[0]] + Merge(p[1..], q)
    else
      assert q == [q[0]] + q[1..];
      [q[0]] + Merge(p, q[1..])
  }

  /** Merging two sorted lists gives a sorted list. */
  lemma {:induction false} MergeSorted(p: seq<Ranked>, q: seq<Ranked>)
    requires Sorted(p) && Sorted(q)
    ensures Sorted(Merge(p, q))
    decreases |p| + |q|, 1
  {
    if p != [] && q != [] {
      if Geq(p[0], q[0]) {
        MergeSortedLeft(p, q);
      } else {
        MergeSortedRight(p, q);
      }
    }
  }

  lemma {:induction false} MergeSortedLeft(p: seq<Ranked>, q: seq<Ranked>)
    requires Sorted(p) && Sorted(q) && p != [] && q != [] && Geq(p[0], q[0])
    ensures Sorted(Merge(p, q))
    decreases |p| + |q|, 0
  {
    var t := Merge(p[1..], q);
    MergeSorted(p[1..], q);
    assert p == [p[0]] + p[1..];
    DominatesViaHead(p[0], q);
    DominatesSub(p[0], p[1..] + q, t);
    SortedCons(p[0], t);
  }

  lemma {:induction false} MergeSortedRight(p: seq<Ranked>, q: seq<Ranked>)
    requires Sorted(p) && Sorted(q) && p != [] && q != [] && !Geq(p[0], q[0])
    ensures Sorted(Merge(p, q))
    decreases |p| + |q|, 0
  {
    var t := Merge(p, q[1..]);
    MergeSorted(p, q[1..]);
    assert q == [q[0]] + q[1..];
    GeqTotal(p[0], q[0]);
    DominatesViaHead(q[0], p);
    DominatesSub(q[0], p + q[1..], t);
    SortedCons(q[0], t);
  }

  lemma SortedCons(x: Ranked, t: seq<Ranked>)
    requires Sorted(t) && Dominates(x, t)
    ensures Sorted([x] + t)
  {
  }

  /** A reference descending sort (insertion by merging). */
  function SortDesc(s: seq<Ranked>): (r: seq<Ranked>)
    ensures multiset(r) == multiset(s) && |r| == |s|
    ensures Sorted(r)
  {
    if s == [] then []
    else
      assert s == [s[0]] + s[1..];
      var r := Merge([s[0]], SortDesc(s[1..]));
      assert |r| == |multiset(r)| == |multiset(s)| == |s|;
      MergeSorted([s[0]], SortDesc(s[1..]));
      r
  }

  /** A sorted list is determined by its elements: the order is total and
      antisymmetric, so two sorted permutations of each other are equal. */
  lemma {:induction false} SortedUnique(s: seq<Ranked>, t: seq<Ranked>)
    requires Sorted(s) && Sorted(t) && multiset(s) == multiset(t)
    ensures s == t
  {
    if s == [] {
      assert |multiset(t)| == 0;
    } else {
      assert |t| == |multiset(t)| == |multiset(s)| == |s|;
      SameHead(s, t);
      SameTail(s, t);
      SortedUnique(s[1..], t[1..]);
      assert s == [s[0]] + s[1..] && t == [t[0]] + t[1..];
    }
  }

  /** Two non-empty sorted permutations of each other start alike. */
  lemma SameHead(s: seq<Ranked>, t: seq<Ranked>)
    requires Sorted(s) && Sorted(t) && multiset(s) == multiset(t) && s != [] && t != []
    ensures s[0] == t[0]
  {
    assert s[0] in multiset(t) && t[0] in multiset(s);
    var i :| 0 <= i < |s| && s[i] == t[0];
    var k :| 0 <= k < |t| && t[k] == s[0];
    GeqRefl(s[0]);
    GeqRefl(t[0]);
    assert Geq(t[0], s[0]) && Geq(s[0], t[0]);
    GeqAntisymmetric(s[0], t[0]);
  }

  lemma SameTail(s: seq<Ranked>, t: seq<Ranked>)
    requires multiset(s) == multiset(t) && s != [] && t != [] && s[0] == t[0]
    ensures multiset(s[1..]) == multiset(t[1..])
  {
    assert s == [s[0]] + s[1..] && t == [t[0]] + t[1..];
    assert multiset(s[1..]) == multiset(s) - multiset([s[0]]);
    assert multiset(t[1..]) == multiset(t) - multiset([t[0]]);
  }

  lemma SortOfSorted(s: seq<Ranked>)
    requires Sorted(s)
    ensures SortDesc(s) == s
  {
    SortedUnique(SortDesc(s), s);
  }

  /** Sorting a concatenation merges the sorted parts. */
  lemma SortAppend(a: seq<Ranked>, b: seq<Ranked>)
    ensures SortDesc(a + b) == Merge(SortDesc(a), SortDesc(b))
  {
    MergeSorted(SortDesc(a), SortDesc(b));
    SortedUnique(SortDesc(a + b), Merge(SortDesc(a), SortDesc(b)));
  }

  /** The first `min(n, |s|)` elements. */
  function Take(s: seq<Ranked>, n: nat): (r: seq<Ranked>)
    ensures |r| == if n < |s| then n else |s|
    ensures r == s[..|r|]
  {
    if n < |s| then s[..n] else s
  }

  /** Python's `s[:n]`: a negative `n` counts from the end. The result is
      a prefix of `s`, of `min(n, |s|)` elements for `n >= 0` and of
      `max(0, |s| + n)` elements otherwise. */
  function SliceTo(s: seq<Ranked>, n: int): (r: seq<Ranked>)
    ensures r <= s
    ensures |r| == if n >= 0 then (if n < |s| then n else |s|)
                   else (if |s| + n < 0 then 0 else |s| + n)
  {
    if n >= 0 then Take(s, n)
    else if |s| + n < 0 then []
    else s[..|s| + n]
  }

  /** The greedy merge only ever looks at the first `n` elements of `p` to
      produce its first `n` elements, so cutting `p` back to any `m >= n`
      elements does not change them. */
  lemma {:induction false} TakeMerge(p: seq<Ranked>, q: seq<Ranked>, n: nat, m: nat)
    requires n <= m
    ensures Take(Merge(p, q), n) == Take(Merge(Take(p, m), q), n)
    decreases |p| + |q|, 1
  {
    if n == 0 || p == [] {
    } else if q == [] {
      assert Merge(p, q) == p && Merge(Take(p, m), q) == Take(p, m);
    } else if Geq(p[0], q[0]) {
      TakeMergeLeft(p, q, n, m);
    } else {
      TakeMergeRight(p, q, n, m);
    }
  }

  /** `TakeMerge` when the head of `p` is taken first. */
  lemma {:induction false} TakeMergeLeft(p: seq<Ranked>, q: seq<Ranked>, n: nat, m: nat)
    requires 0 < n <= m && p != [] && q != [] && Geq(p[0], q[0])
    ensures Take(Merge(p, q), n) == Take(Merge(Take(p, m), q), n)
    decreases |p| + |q|, 0
  {
    var pm := Take(p, m);
    TakeTail(p, m);
    assert Merge(p, q) == [p[0]] + Merge(p[1..], q);
    assert Merge(pm, q) == [p[0]] + Merge(pm[1..], q);
    TakeMerge(p[1..], q, n - 1, m - 1);
    TakeCons(p[0], Merge(p[1..], q), n);
    TakeCons(p[0], Merge(pm[1..], q), n);
  }

  lemma TakeTail(p: seq<Ranked>, m: nat)
    requires p != [] && m > 0
    ensures Take(p, m) != [] && Take(p, m)[0] == p[0] && Take(p, m)[1..] == Take(p[1..], m - 1)
  {
  }

  /** `TakeMerge` when the head of `q` is taken first. */
  lemma {:induction false} TakeMergeRight(p: seq<Ranked>, q: seq<Ranked>, n: nat, m: nat)
    requires 0 < n <= m && p != [] && q != [] && !Geq(p[0], q[0])
    ensures Take(Merge(p, q), n) == Take(Merge(Take(p, m), q), n)
    decreases |p| + |q|, 0
  {
    var pm := Take(p, m);
    TakeTail(p, m);
    assert Merge(p, q) == [q[0]] + Merge(p, q[1..]);
    assert Merge(pm, q) == [q[0]] + Merge(pm, q[1..]);
    TakeMerge(p, q[1..], n - 1, m);
    TakeCons(q[0], Merge(p, q[1..]), n);
    TakeCons(q[0], Merge(pm, q[1..]), n);
  }

  lemma TakeCons(x: Ranked, s: seq<Ranked>, n: nat)
    requires n > 0
    ensures Take([x] + s, n) == [x] + Take(s, n - 1)
  {
  }

  /** The `n` largest elements, the reference the amortised list must match. */
  function TopN(s: seq<Ranked>, n: nat): seq<Ranked> {
    Take(SortDesc(s), n)
  }

  /** Appending the same rows to two lists with the same top `n` keeps their
      top `n` equal. */
  lemma TopAppend(a: seq<Ranked>, m: seq<Ranked>, b: seq<Ranked>, n: nat)
    requires TopN(a, n) == TopN(m, n)
    ensures TopN(a + b, n) == TopN(m + b, n)
  {
    SortAppend(a, b);
    SortAppend(m, b);
    TakeMerge(SortDesc(a), SortDesc(b), n, n);
    TakeMerge(SortDesc(m), SortDesc(b), n, n);
  }

  /** Cutting a list back to its top `n` keeps its top `n`. */
  lemma TrimKeepsTop(a: seq<Ranked>, n: nat)
    ensures TopN(TopN(a, n), n) == TopN(a, n)
  {
    var t := TopN(a, n);
    assert Sorted(t);
    SortOfSorted(t);
  }

  /** What the top-`n` list is: `min(n, |s|)` rows of `s`, in non-increasing
      order (so none at all for `n == 0`). */
  lemma TopNSpec(s: seq<Ranked>, n: nat)
    ensures |TopN(s, n)| == if n < |s| then n else |s|
    ensures n == 0 ==> TopN(s, n) == []
    ensures Sorted(TopN(s, n))
    ensures multiset(TopN(s, n)) <= multiset(s)
  {
    var r := SortDesc(s);
    var t := TopN(s, n);
    PrefixSorted(r, |t|);
    PrefixSubMultiset(r, |t|);
  }

  lemma PrefixSorted(r: seq<Ranked>, k: nat)
    requires Sorted(r) && k <= |r|
    ensures Sorted(r[..k])
  {
  }

  lemma PrefixSubMultiset(r: seq<Ranked>, k: nat)
    requires k <= |r|
    ensures multiset(r[..k]) <= multiset(r)
  {
    assert r == r[..k] + r[k..];
  }

  /** No row of `s` that the top-`n` list leaves out is larger than a row it
      keeps. */
  lemma TopNDominates(s: seq<Ranked>, n: nat)
    ensures forall x, k :: x in multiset(s) - multiset(TopN(s, n)) && 0 <= k < |TopN(s, n)| ==> Geq(TopN(s, n)[k], x)
  {
    var r := SortDesc(s);
    var t := TopN(s, n);
    var rest := r[|t|..];
    assert r == t + rest;
    assert multiset(r) == multiset(t) + multiset(rest);
    forall x, k | x in multiset(s) - multiset(t) && 0 <= k < |t|
      ensures Geq(t[k], x)
    {
      assert x in rest;
      var j :| 0 <= j < |rest| && rest[j] == x;
      assert r[|t| + j] == x && r[k] == t[k];
    }
  }
}

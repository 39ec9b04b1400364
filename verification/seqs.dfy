/** Sequence helpers: JavaScript's `Array.prototype.filter`, and the first-occurrence
    de-duplication that spreading a `Set` built from an array performs. */
module Seqs {

  /** `xs.filter(p)`. */
  function Filter<T>(xs: seq<T>, p: T -> bool): (r: seq<T>)
    ensures |r| <= |xs|
    ensures forall i :: 0 <= i < |r| ==> p(r[i])
  {
    if |xs| == 0 then []
    else if p(xs[0]) then [xs[0]] + Filter(xs[1..], p)
    else Filter(xs[1..], p)
  }

  /** `a` is `b` with some elements left out, the rest in their original order. */
  predicate IsSubsequence<T(==)>(a: seq<T>, b: seq<T>)
    decreases |b|
  {
    |a| == 0 || (|b| > 0 && (if a[0] == b[0] then IsSubsequence(a[1..], b[1..]) else IsSubsequence(a, b[1..])))
  }

  /** Filtering keeps every copy of an element that passes and no copy of one that fails. */
  lemma {:induction false} FilterCounts<T>(xs: seq<T>, p: T -> bool)
    ensures forall x :: multiset(Filter(xs, p))[x] == if p(x) then multiset(xs)[x] else 0
  {
    if |xs| > 0 {
      FilterCounts(xs[1..], p);
      assert xs == [xs[0]] + xs[1..];
      if p(xs[0]) {
        assert Filter(xs, p) == [xs[0]] + Filter(xs[1..], p);
      }
    }
  }

  /** Filtering keeps exactly the elements that pass, in their original order, each as
      often as it occurs. */
  lemma {:induction false} FilterKeeps<T>(xs: seq<T>, p: T -> bool)
    ensures IsSubsequence(Filter(xs, p), xs)
    ensures forall x :: x in Filter(xs, p) <==> x in xs && p(x)
    ensures forall x :: multiset(Filter(xs, p))[x] == if p(x) then multiset(xs)[x] else 0
  {
    FilterCounts(xs, p);
    if |xs| > 0 {
      FilterKeeps(xs[1..], p);
      var rest := Filter(xs[1..], p);
      if p(xs[0]) {
        assert Filter(xs, p)[1..] == rest;
      } else if |rest| > 0 {
        assert rest[0] != xs[0];
      }
      assert xs == [xs[0]] + xs[1..];
    }
  }

  /** A list every element of which passes is left unchanged. */
  lemma {:induction false} FilterAllPass<T>(xs: seq<T>, p: T -> bool)
    requires forall i :: 0 <= i < |xs| ==> p(xs[i])
    ensures Filter(xs, p) == xs
  {
    if |xs| > 0 {
      FilterAllPass(xs[1..], p);
      assert xs == [xs[0]] + xs[1..];
    }
  }

  /** Filtering twice by two predicates is filtering once by their conjunction. */
  lemma {:induction false} FilterFilter<T>(xs: seq<T>, p: T -> bool, q: T -> bool, pq: T -> bool)
    requires forall x :: pq(x) == (p(x) && q(x))
    ensures Filter(Filter(xs, p), q) == Filter(xs, pq)
  {
    if |xs| > 0 {
      FilterFilter(xs[1..], p, q, pq);
      if p(xs[0]) {
        assert Filter(xs, p) == [xs[0]] + Filter(xs[1..], p);
        assert Filter(xs, p)[1..] == Filter(xs[1..], p);
      }
    }
  }

  /** Filtering is idempotent. */
  lemma FilterIdempotent<T>(xs: seq<T>, p: T -> bool)
    ensures Filter(Filter(xs, p), p) == Filter(xs, p)
  {
    FilterAllPass(Filter(xs, p), p);
  }

  /** Position of the first occurrence of `x` in `xs` (`xs.indexOf(x)`). */
  function FirstIndex<T(==)>(xs: seq<T>, x: T): (r: nat)
    requires x in xs
    ensures r < |xs| && xs[r] == x
    ensures x !in xs[..r]
  {
    if xs[0] == x then 0 else
      assert x in xs[1..] by {
        var k :| 0 <= k < |xs| && xs[k] == x;
        assert xs[1..][k - 1] == x;
      }
      var r := 1 + FirstIndex(xs[1..], x);
      assert xs[..r] == [xs[0]] + xs[1..][..r - 1];
      r
  }

  /** The first occurrence does not move when elements are appended. */
  lemma FirstIndexPrefix<T>(xs: seq<T>, y: T, x: T)
    requires x in xs
    ensures FirstIndex(xs + [y], x) == FirstIndex(xs, x)
  {
    var i := FirstIndex(xs, x);
    var j := FirstIndex(xs + [y], x);
    assert (xs + [y])[i] == x;
    assert (xs + [y])[..i] == xs[..i];
  }

  /** What `Dedup` promises of `d` with respect to `xs`. */
  predicate DedupOf<T(==)>(d: seq<T>, xs: seq<T>) {
    && (forall i :: 0 <= i < |d| ==> d[i] in xs)
    && (forall i :: 0 <= i < |xs| ==> xs[i] in d)
    && (forall i, j :: 0 <= i < j < |d| ==> d[i] != d[j])
    && (forall i, j :: 0 <= i < j < |d| ==> FirstIndex(xs, d[i]) < FirstIndex(xs, d[j]))
  }

  /** Appending an element does not move the first occurrence of anything already there. */
  lemma FirstIndicesStay<T>(xs: seq<T>, x: T)
    ensures forall y :: y in xs ==> FirstIndex(xs + [x], y) == FirstIndex(xs, y)
  {
    forall y | y in xs ensures FirstIndex(xs + [x], y) == FirstIndex(xs, y) {
      FirstIndexPrefix(xs, x, y);
    }
  }

  /** An element already seen leaves the de-duplicated list as it is. */
  lemma DedupKeep<T>(d: seq<T>, xs: seq<T>, x: T)
    requires DedupOf(d, xs) && x in d
    ensures DedupOf(d, xs + [x])
  {
    FirstIndicesStay(xs, x);
    var ys := xs + [x];
    forall i, j | 0 <= i < j < |d| ensures FirstIndex(ys, d[i]) < FirstIndex(ys, d[j]) {
      assert d[i] in xs && d[j] in xs;
    }
  }

  /** A new element is appended to the de-duplicated list. */
  lemma DedupAdd<T>(d: seq<T>, xs: seq<T>, x: T)
    requires DedupOf(d, xs) && x !in d
    ensures DedupOf(d + [x], xs + [x])
  {
    FirstIndicesStay(xs, x);
    var ys := xs + [x];
    var e := d + [x];
    assert x !in xs;
    assert FirstIndex(ys, x) == |xs|;
    forall i, j | 0 <= i < j < |e| ensures FirstIndex(ys, e[i]) < FirstIndex(ys, e[j]) {
      assert e[i] == d[i] && e[i] in xs;
      if j < |d| {
        assert e[j] == d[j] && e[j] in xs;
      }
    }
  }

  /** `[...new Set(xs)]`: each distinct element once, in order of first occurrence. */
  function Dedup<T(==)>(xs: seq<T>): (r: seq<T>)
    ensures forall i :: 0 <= i < |r| ==> r[i] in xs
    ensures forall i :: 0 <= i < |xs| ==> xs[i] in r
    ensures forall i, j :: 0 <= i < j < |r| ==> r[i] != r[j]
    ensures forall i, j :: 0 <= i < j < |r| ==> FirstIndex(xs, r[i]) < FirstIndex(xs, r[j])
  {
    if |xs| == 0 then []
    else
      var init := xs[..|xs| - 1];
      var last := xs[|xs| - 1];
      var d := Dedup(init);
      assert xs == init + [last];
      if last in d then DedupKeep(d, init, last); d
      else DedupAdd(d, init, last); d + [last]
  }

  /** Appending an element adds it to the de-duplicated list exactly when it is new. */
  lemma DedupSnoc<T>(xs: seq<T>, x: T)
    ensures x in xs ==> Dedup(xs + [x]) == Dedup(xs)
    ensures x !in xs ==> Dedup(xs + [x]) == Dedup(xs) + [x]
  {
    assert (xs + [x])[..|xs|] == xs;
  }

  /** The number of distinct elements, counted by first occurrences. */
  function DistinctCount<T(==)>(xs: seq<T>): nat {
    if |xs| == 0 then 0
    else DistinctCount(xs[..|xs| - 1]) + (if xs[|xs| - 1] in xs[..|xs| - 1] then 0 else 1)
  }

  /** The count is the size of the de-duplicated list, `new Set(xs).size`. */
  lemma {:induction false} DistinctCountIsDedup<T>(xs: seq<T>)
    ensures DistinctCount(xs) == |Dedup(xs)|
    decreases |xs|
  {
    if |xs| > 0 {
      var init := xs[..|xs| - 1];
      var last := xs[|xs| - 1];
      DistinctCountIsDedup(init);
      assert xs == init + [last];
      DedupSnoc(init, last);
    }
  }

  /** Appending an element raises the count exactly when the element is new. */
  lemma DistinctCountSnoc<T>(xs: seq<T>, x: T)
    ensures DistinctCount(xs + [x]) == DistinctCount(xs) + (if x in xs then 0 else 1)
  {
    assert (xs + [x])[..|xs|] == xs;
  }
}

/** Kotlin's `filter` over lists, and the subsequence relation it produces. */
module Seqs {

  /** `Filter(xs, p)` keeps the elements of `xs` satisfying `p`, in order.
      It is defined from the back so that it extends one element at a time. */
  function Filter<T>(xs: seq<T>, p: T -> bool): (r: seq<T>)
    ensures |r| <= |xs|
    ensures forall i :: 0 <= i < |r| ==> r[i] in xs && p(r[i])
  {
    if |xs| == 0 then []
    else
      var init := xs[..|xs| - 1];
      assert xs == init + [xs[|xs| - 1]];
      Filter(init, p) + (if p(xs[|xs| - 1]) then [xs[|xs| - 1]] else [])
  }

  /** Every element of the input that satisfies the predicate is kept. */
  lemma {:induction false} FilterComplete<T>(xs: seq<T>, p: T -> bool, i: int)
    requires 0 <= i < |xs| && p(xs[i])
    ensures xs[i] in Filter(xs, p)
    decreases |xs|
  {
    var init := xs[..|xs| - 1];
    assert xs == init + [xs[|xs| - 1]];
    if i < |xs| - 1 {
      assert xs[i] == init[i];
      FilterComplete(init, p, i);
    }
  }

  /** Each value is kept as often as it occurs in the input when it
      satisfies the predicate, and never otherwise. */
  lemma {:induction false} FilterCount<T>(xs: seq<T>, p: T -> bool)
    ensures forall x :: multiset(Filter(xs, p))[x] == if p(x) then multiset(xs)[x] else 0
    decreases |xs|
  {
    if |xs| > 0 {
      var init, last := xs[..|xs| - 1], xs[|xs| - 1];
      assert xs == init + [last];
      assert multiset(xs) == multiset(init) + multiset{last};
      FilterCount(init, p);
      var kept := if p(last) then [last] else [];
      assert multiset(Filter(xs, p)) == multiset(Filter(init, p)) + multiset(kept);
    }
  }

  /** `a` is obtained from `b` by deleting elements, keeping the order of the rest. */
  predicate IsSubseq<T(==)>(a: seq<T>, b: seq<T>)
    decreases |b|
  {
    if |a| == 0 then true
    else if |b| == 0 then false
    else if a[|a| - 1] == b[|b| - 1] then IsSubseq(a[..|a| - 1], b[..|b| - 1])
    else IsSubseq(a, b[..|b| - 1])
  }

  lemma {:induction false} EmptyIsSubseq<T>(b: seq<T>)
    ensures IsSubseq([], b)
  {
  }

  /** Appending the same element to both sides keeps the subsequence relation. */
  lemma {:induction false} SubseqSnoc<T>(a: seq<T>, b: seq<T>, x: T)
    requires IsSubseq(a, b)
    ensures IsSubseq(a + [x], b + [x])
  {
    assert (a + [x])[..|a + [x]| - 1] == a;
    assert (b + [x])[..|b + [x]| - 1] == b;
  }

  /** Appending an element to the larger side keeps the subsequence relation. */
  lemma {:induction false} SubseqExtend<T>(a: seq<T>, b: seq<T>, x: T)
    requires IsSubseq(a, b)
    ensures IsSubseq(a, b + [x])
    decreases |a| + |b|, 1
  {
    if |a| > 0 {
      assert (b + [x])[..|b + [x]| - 1] == b;
      if a[|a| - 1] == x {
        // x is matched against the last element of `a`
        SubseqDropLast(a, b);
      }
    }
  }

  /** Dropping the last element of the smaller side keeps the subsequence relation. */
  lemma {:induction false} SubseqDropLast<T>(a: seq<T>, b: seq<T>)
    requires |a| > 0
    requires IsSubseq(a, b)
    ensures IsSubseq(a[..|a| - 1], b)
    decreases |a| + |b|, 0
  {
    var a' := a[..|a| - 1];
    assert |b| > 0;
    var b' := b[..|b| - 1];
    assert b == b' + [b[|b| - 1]];
    if a[|a| - 1] == b[|b| - 1] {
      SubseqExtend(a', b', b[|b| - 1]);
    } else {
      SubseqDropLast(a, b');
      SubseqExtend(a', b', b[|b| - 1]);
    }
  }

  /** The result of a filter is a subsequence of its input: the order is kept. */
  lemma {:induction false} FilterIsSubseq<T>(xs: seq<T>, p: T -> bool)
    ensures IsSubseq(Filter(xs, p), xs)
  {
    if |xs| == 0 {
      EmptyIsSubseq(xs);
    } else {
      var init := xs[..|xs| - 1];
      var last := xs[|xs| - 1];
      assert xs == init + [last];
      FilterIsSubseq(init, p);
      if p(last) {
        SubseqSnoc(Filter(init, p), init, last);
      } else {
        assert Filter(xs, p) == Filter(init, p);
        SubseqExtend(Filter(init, p), init, last);
      }
    }
  }

  /** Filtering distributes over appending one element. */
  lemma {:induction false} FilterSnoc<T>(xs: seq<T>, x: T, p: T -> bool)
    ensures Filter(xs + [x], p) == Filter(xs, p) + (if p(x) then [x] else [])
  {
    assert (xs + [x])[..|xs + [x]| - 1] == xs;
  }

  /** A filter that keeps everything is the identity. */
  lemma {:induction false} FilterAll<T>(xs: seq<T>, p: T -> bool)
    ensures (forall i :: 0 <= i < |xs| ==> p(xs[i])) ==> Filter(xs, p) == xs
  {
    if |xs| > 0 {
      var init := xs[..|xs| - 1];
      assert xs == init + [xs[|xs| - 1]];
      FilterAll(init, p);
    }
  }

  /** Two predicates that agree on every element select the same subsequence. */
  lemma {:induction false} FilterCongruent<T>(xs: seq<T>, p: T -> bool, q: T -> bool)
    requires forall i :: 0 <= i < |xs| ==> (p(xs[i]) <==> q(xs[i]))
    ensures Filter(xs, p) == Filter(xs, q)
  {
    if |xs| > 0 {
      var init := xs[..|xs| - 1];
      assert xs == init + [xs[|xs| - 1]];
      FilterCongruent(init, p, q);
    }
  }

  /** A filter keeps the length of its input exactly when it drops nothing. */
  lemma {:induction false} FilterKeepsLength<T>(xs: seq<T>, p: T -> bool)
    ensures |Filter(xs, p)| == |xs| <==> forall i :: 0 <= i < |xs| ==> p(xs[i])
  {
    if |xs| > 0 {
      var init := xs[..|xs| - 1];
      assert xs == init + [xs[|xs| - 1]];
      FilterKeepsLength(init, p);
      assert forall i :: 0 <= i < |init| ==> init[i] == xs[i];
    }
  }

  /** Filtering distributes over concatenation. */
  lemma {:induction false} FilterConcat<T>(xs: seq<T>, ys: seq<T>, p: T -> bool)
    ensures Filter(xs + ys, p) == Filter(xs, p) + Filter(ys, p)
    decreases |ys|
  {
    if |ys| > 0 {
      var init := ys[..|ys| - 1];
      var last := ys[|ys| - 1];
      assert ys == init + [last];
      assert xs + ys == (xs + init) + [last];
      FilterConcat(xs, init, p);
      FilterSnoc(xs + init, last, p);
      FilterSnoc(init, last, p);
    } else {
      assert xs + ys == xs;
    }
  }

  /** A filter that rejects exactly one position removes exactly that element. */
  lemma {:induction false} FilterDropsOne<T>(xs: seq<T>, k: int, p: T -> bool)
    requires 0 <= k < |xs| && !p(xs[k])
    requires forall i :: 0 <= i < |xs| && i != k ==> p(xs[i])
    ensures Filter(xs, p) == xs[..k] + xs[k + 1..]
    decreases |xs|
  {
    var init, last := xs[..|xs| - 1], xs[|xs| - 1];
    assert xs == init + [last];
    if k == |xs| - 1 {
      FilterAll(init, p);
      assert Filter(xs, p) == Filter(init, p);
    } else {
      FilterDropsOne(init, k, p);
      assert Filter(xs, p) == Filter(init, p) + [last];
      assert init[..k] == xs[..k];
      assert init[k + 1..] + [last] == xs[k + 1..];
    }
  }
}

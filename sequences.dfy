/** Order-preserving selection over lists: JavaScript's `Array.prototype.filter` and what it promises. */
module Sequences {

  /** `xs.filter(p)`: the elements satisfying `p`, in their original order. */
  function Filter<T(!new)>(xs: seq<T>, p: T -> bool): (r: seq<T>)
    ensures |r| <= |xs|
  {
    if xs == [] then []
    else
      var init, last := xs[..|xs| - 1], xs[|xs| - 1];
      assert xs == init + [last];
      Filter(init, p) + (if p(last) then [last] else [])
  }

  /** A prefix one longer is the shorter prefix and the next element. */
  lemma PrefixSnoc<T>(s: seq<T>, i: nat)
    requires i < |s|
    ensures s[..i + 1] == s[..i] + [s[i]]
  {
  }

  /** Concatenation is associative. */
  lemma AppendAssoc<T>(x: seq<T>, y: seq<T>, z: seq<T>)
    ensures (x + y) + z == x + (y + z)
  {
  }

  /** Filtering a list extended by one element extends the filtered list by that element when it passes. */
  lemma FilterSnoc<T(!new)>(xs: seq<T>, x: T, p: T -> bool)
    ensures Filter(xs + [x], p) == Filter(xs, p) + (if p(x) then [x] else [])
  {
    assert (xs + [x])[..|xs|] == xs;
  }

  /** An element is kept exactly when it occurs in the input and passes the test. */
  lemma {:induction false} FilterMembership<T(!new)>(xs: seq<T>, p: T -> bool)
    ensures forall x :: x in Filter(xs, p) <==> x in xs && p(x)
  {
    if xs != [] {
      var init := xs[..|xs| - 1];
      assert xs == init + [xs[|xs| - 1]];
      FilterMembership(init, p);
    }
  }

  /** When every element passes, filtering changes nothing. */
  lemma {:induction false} FilterAll<T(!new)>(xs: seq<T>, p: T -> bool)
    requires forall x :: x in xs ==> p(x)
    ensures Filter(xs, p) == xs
  {
    if xs != [] {
      var init := xs[..|xs| - 1];
      assert xs == init + [xs[|xs| - 1]];
      FilterAll(init, p);
    }
  }

  /** Filtering a concatenation filters each part. */
  lemma {:induction false} FilterAppend<T(!new)>(a: seq<T>, b: seq<T>, p: T -> bool)
    ensures Filter(a + b, p) == Filter(a, p) + Filter(b, p)
  {
    if b == [] {
      assert a + b == a;
    } else {
      var init := b[..|b| - 1];
      assert a + b == (a + init) + [b[|b| - 1]];
      assert b == init + [b[|b| - 1]];
      FilterAppend(a, init, p);
      FilterSnoc(a + init, b[|b| - 1], p);
      FilterSnoc(init, b[|b| - 1], p);
    }
  }

  /** Two filters give the same list whichever is applied first. */
  lemma {:induction false} FilterCommutes<T(!new)>(xs: seq<T>, p: T -> bool, q: T -> bool)
    ensures Filter(Filter(xs, p), q) == Filter(Filter(xs, q), p)
  {
    if xs != [] {
      var init, x := xs[..|xs| - 1], xs[|xs| - 1];
      assert xs == init + [x];
      FilterCommutes(init, p, q);
      FilterSnoc(init, x, p);
      FilterSnoc(init, x, q);
      FilterSnoc(Filter(init, p), x, q);
      FilterSnoc(Filter(init, q), x, p);
      assert Filter(xs, p) == Filter(init, p) + (if p(x) then [x] else []);
      assert Filter(xs, q) == Filter(init, q) + (if q(x) then [x] else []);
      if !p(x) {
        assert Filter(xs, p) == Filter(init, p);
      }
      if !q(x) {
        assert Filter(xs, q) == Filter(init, q);
      }
    } else {
      assert Filter(xs, p) == [] && Filter(xs, q) == [];
    }
  }

  /** `idx` lists, in strictly increasing order, the positions of `b` at which the elements of `a` sit. */
  ghost predicate Embeds<T(!new)>(idx: seq<nat>, a: seq<T>, b: seq<T>) {
    && |idx| == |a|
    && (forall k :: 0 <= k < |idx| ==> idx[k] < |b| && a[k] == b[idx[k]])
    && (forall k, l :: 0 <= k < l < |idx| ==> idx[k] < idx[l])
  }

  /** `a` is `b` with some elements dropped and the rest kept in order. */
  ghost predicate IsSubsequence<T(!new)>(a: seq<T>, b: seq<T>) {
    exists idx :: Embeds(idx, a, b)
  }

  /** The result of a filter is an order-preserving subsequence of its input. */
  lemma {:induction false} FilterIsSubsequence<T(!new)>(xs: seq<T>, p: T -> bool)
    ensures IsSubsequence(Filter(xs, p), xs)
  {
    if xs == [] {
      assert Embeds([], Filter(xs, p), xs);
    } else {
      var n := |xs| - 1;
      var init := xs[..n];
      assert xs == init + [xs[n]];
      FilterIsSubsequence(init, p);
      var idx :| Embeds(idx, Filter(init, p), init);
      if p(xs[n]) {
        assert Embeds(idx + [n], Filter(xs, p), xs);
      } else {
        assert Embeds(idx, Filter(xs, p), xs);
      }
    }
  }

  /** The complement of a test. */
  function Not<T>(p: T -> bool): T -> bool {
    x => !p(x)
  }

  /** The elements that pass and the elements that fail together make up the input, as a multiset. */
  lemma {:induction false} FilterSplit<T(!new)>(xs: seq<T>, p: T -> bool)
    ensures multiset(Filter(xs, p)) + multiset(Filter(xs, Not(p))) == multiset(xs)
  {
    if xs != [] {
      var init := xs[..|xs| - 1];
      assert xs == init + [xs[|xs| - 1]];
      FilterSplit(init, p);
    }
  }

  /** Taking the same element out of two rearrangements of each other leaves rearrangements of each other. */
  lemma RemoveMatching<T>(init: seq<T>, last: T, b: seq<T>, j: nat)
    requires j < |b| && b[j] == last
    requires multiset(init + [last]) == multiset(b)
    ensures multiset(init) == multiset(b[..j] + b[j + 1..])
  {
    assert b == b[..j] + [last] + b[j + 1..];
    var x, y := multiset(b[..j]), multiset(b[j + 1..]);
    assert multiset(b) == x + multiset{last} + y;
    assert multiset(b[..j] + b[j + 1..]) == x + y;
    assert multiset(init + [last]) == multiset(init) + multiset{last};
    assert multiset(init) == multiset(init) + multiset{last} - multiset{last};
    assert x + y == x + multiset{last} + y - multiset{last};
  }

  /** No element occurs twice: the keys of a JavaScript object. */
  predicate NoDuplicates<T(==)>(s: seq<T>) {
    forall i, j :: 0 <= i < j < |s| ==> s[i] != s[j]
  }

  /** Without duplicates, every element occurs exactly once. */
  lemma {:induction false} NoDuplicatesOccursOnce<T>(s: seq<T>, x: T)
    requires NoDuplicates(s)
    ensures multiset(s)[x] <= 1
  {
    if s != [] {
      var init := s[..|s| - 1];
      assert s == init + [s[|s| - 1]];
      NoDuplicatesOccursOnce(init, x);
      if x == s[|s| - 1] {
        assert x !in init;
      }
    }
  }

  /** Reordering a list without duplicates leaves it without duplicates. */
  lemma NoDuplicatesPermutation<T>(a: seq<T>, b: seq<T>)
    requires NoDuplicates(a)
    requires multiset(a) == multiset(b)
    ensures NoDuplicates(b)
  {
    forall i, j | 0 <= i < j < |b|
      ensures b[i] != b[j]
    {
      if b[i] == b[j] {
        assert b == b[..j] + [b[j]] + b[j + 1..];
        assert b[i] in b[..j];
        assert multiset(b)[b[j]] >= 2;
        NoDuplicatesOccursOnce(a, b[j]);
      }
    }
  }
}

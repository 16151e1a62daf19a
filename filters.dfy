/** Order-preserving filtering of candidate lists: Rust's
    `into_iter().filter(..).collect()`, Python's `list(filter(..))` and
    C++'s `std::copy_if` into a fresh vector all compute `KeepIf`. */
module Filters {

  /** `a` is obtained from `b` by deleting elements (greedy matching). */
  predicate IsSubseq<T(==,!new)>(a: seq<T>, b: seq<T>)
    decreases |b|
  {
    if a == [] then true
    else if b == [] then false
    else if a[0] == b[0] then IsSubseq(a[1..], b[1..])
    else IsSubseq(a, b[1..])
  }

  /** A subsequence of a list without its head is a subsequence of the list. */
  lemma {:induction false} IsSubseqSkip<T(!new)>(a: seq<T>, s: seq<T>)
    requires s != [] && IsSubseq(a, s[1..])
    ensures IsSubseq(a, s)
    decreases |s|, 0
  {
    if a != [] && a[0] == s[0] {
      IsSubseqTail(a, s[1..]);
    }
  }

  /** Dropping the head of a subsequence leaves a subsequence. */
  lemma {:induction false} IsSubseqTail<T(!new)>(a: seq<T>, s: seq<T>)
    requires a != [] && IsSubseq(a, s)
    ensures IsSubseq(a[1..], s)
    decreases |s|, 1
  {
    if a[0] == s[0] {
      IsSubseqSkip(a[1..], s);
    } else {
      IsSubseqTail(a, s[1..]);
      IsSubseqSkip(a[1..], s);
    }
  }

  /** A subsequence of a subsequence is a subsequence. */
  lemma {:induction false} IsSubseqTrans<T(!new)>(a: seq<T>, b: seq<T>, c: seq<T>)
    requires IsSubseq(a, b) && IsSubseq(b, c)
    ensures IsSubseq(a, c)
    decreases |c|
  {
    if a != [] && c != [] {
      if b[0] == c[0] && a[0] == b[0] {
        IsSubseqTrans(a[1..], b[1..], c[1..]);
      } else if b[0] == c[0] {
        IsSubseqTrans(a, b[1..], c[1..]);
        IsSubseqSkip(a, c);
      } else {
        IsSubseqTrans(a, b, c[1..]);
        IsSubseqSkip(a, c);
      }
    }
  }

  /** The elements of `s` that satisfy `p`, in their order in `s`. */
  function KeepIf<T(==,!new)>(s: seq<T>, p: T -> bool): (r: seq<T>)
    ensures |r| <= |s|
    ensures forall x :: x in r <==> x in s && p(x)
    ensures IsSubseq(r, s)
  {
    if s == [] then []
    else if p(s[0]) then [s[0]] + KeepIf(s[1..], p)
    else KeepIf(s[1..], p)
  }

  /** Filtering one element longer a prefix of `s` adds that element when it passes. */
  lemma KeepIfStep<T(!new)>(s: seq<T>, i: nat, p: T -> bool)
    requires i < |s|
    ensures KeepIf(s[..i + 1], p) == KeepIf(s[..i], p) + (if p(s[i]) then [s[i]] else [])
  {
    assert s[..i + 1] == s[..i] + [s[i]];
    KeepIfAppend(s[..i], [s[i]], p);
    assert [s[i]][1..] == [];
  }

  /** Filtering twice is filtering once by the conjunction. */
  lemma {:induction false} KeepIfTwice<T(!new)>(s: seq<T>, p: T -> bool, q: T -> bool, pq: T -> bool)
    requires forall x :: x in s ==> pq(x) == (p(x) && q(x))
    ensures KeepIf(KeepIf(s, p), q) == KeepIf(s, pq)
  {
    if s != [] {
      KeepIfTwice(s[1..], p, q, pq);
      if p(s[0]) {
        assert KeepIf(s, p) == [s[0]] + KeepIf(s[1..], p);
        assert KeepIf(s, p)[1..] == KeepIf(s[1..], p);
      }
    }
  }

  /** The filter only looks at the elements of `s`. */
  lemma {:induction false} KeepIfSame<T(!new)>(s: seq<T>, p: T -> bool, q: T -> bool)
    requires forall x :: x in s ==> p(x) == q(x)
    ensures KeepIf(s, p) == KeepIf(s, q)
  {
    if s != [] {
      KeepIfSame(s[1..], p, q);
    }
  }

  /** A filter that keeps every element of `s` returns `s`. */
  lemma {:induction false} KeepIfAll<T(!new)>(s: seq<T>, p: T -> bool)
    requires forall x :: x in s ==> p(x)
    ensures KeepIf(s, p) == s
  {
    if s != [] {
      KeepIfAll(s[1..], p);
    }
  }

  /** Filtering never repeats an element: each occurs in the result at
      most as often as in `s`. */
  lemma {:induction false} KeepIfSubMultiset<T(!new)>(s: seq<T>, p: T -> bool)
    ensures multiset(KeepIf(s, p)) <= multiset(s)
  {
    if s != [] {
      KeepIfSubMultiset(s[1..], p);
      assert s == [s[0]] + s[1..];
    }
  }

  /** A filter and its negation split `s` into two parts that together hold
      every element of `s` exactly as often as `s` does. */
  lemma {:induction false} KeepIfPartition<T(!new)>(s: seq<T>, p: T -> bool, notP: T -> bool)
    requires forall x :: x in s ==> notP(x) == !p(x)
    ensures |KeepIf(s, p)| + |KeepIf(s, notP)| == |s|
    ensures multiset(KeepIf(s, p)) + multiset(KeepIf(s, notP)) == multiset(s)
  {
    if s != [] {
      KeepIfPartition(s[1..], p, notP);
      assert s == [s[0]] + s[1..];
    }
  }

  /** Filtering appends: a filtered concatenation is the concatenation of the filtered parts. */
  lemma {:induction false} KeepIfAppend<T(!new)>(s: seq<T>, t: seq<T>, p: T -> bool)
    ensures KeepIf(s + t, p) == KeepIf(s, p) + KeepIf(t, p)
  {
    if s == [] {
      assert s + t == t;
    } else {
      assert (s + t)[1..] == s[1..] + t;
      KeepIfAppend(s[1..], t, p);
    }
  }
}

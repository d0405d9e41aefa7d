/** `Array.prototype.filter` and the facts the search and the daily feature rely on. */
module Seqs {
  import opened Wrappers

  /** The elements of `s` that satisfy `p`, in their original order. */
  function Keep<T>(s: seq<T>, p: T -> bool): (r: seq<T>)
    ensures |r| <= |s|
  {
    if s == [] then [] else (if p(s[0]) then [s[0]] else []) + Keep(s[1..], p)
  }


  /** `a` is `b` with some elements left out, the rest in their order. */
  predicate IsSubsequence<T(==)>(a: seq<T>, b: seq<T>)
    decreases |b|
  {
    if a == [] then true
    else if b == [] then false
    else if a[0] == b[0] then IsSubsequence(a[1..], b[1..])
    else IsSubsequence(a, b[1..])
  }

  lemma {:induction false} KeepIsSubsequence<T>(s: seq<T>, p: T -> bool)
    ensures IsSubsequence(Keep(s, p), s)
  {
    if s != [] {
      KeepIsSubsequence(s[1..], p);
      if p(s[0]) {
        assert Keep(s, p) == [s[0]] + Keep(s[1..], p);
        assert Keep(s, p)[1..] == Keep(s[1..], p);
      } else {
        assert Keep(s, p) == Keep(s[1..], p);
        SubsequenceCons(Keep(s[1..], p), s[1..], s[0]);
        assert [s[0]] + s[1..] == s;
      }
    }
  }

  /** Putting one more element in front of `b` keeps `a` a subsequence of it. */
  lemma {:induction false} SubsequenceCons<T>(a: seq<T>, b: seq<T>, x: T)
    requires IsSubsequence(a, b)
    ensures IsSubsequence(a, [x] + b)
    decreases |b|, 1
  {
    assert ([x] + b)[1..] == b;
    if a != [] && a[0] == x {
      SubsequenceDropHead(a, b);
    }
  }

  lemma {:induction false} SubsequenceDropHead<T>(a: seq<T>, b: seq<T>)
    requires a != [] && IsSubsequence(a, b)
    ensures IsSubsequence(a[1..], b)
    decreases |b|, 0
  {
    if b != [] {
      if a[0] != b[0] {
        SubsequenceDropHead(a, b[1..]);
      }
      SubsequenceCons(a[1..], b[1..], b[0]);
      assert [b[0]] + b[1..] == b;
    }
  }

  /** Nothing that satisfies `p` is dropped: each element occurs as often as in `s`, or not at all. */
  lemma {:induction false} KeepCounts<T>(s: seq<T>, p: T -> bool, x: T)
    ensures multiset(Keep(s, p))[x] == if p(x) then multiset(s)[x] else 0
  {
    if s != [] {
      KeepCounts(s[1..], p, x);
      assert s == [s[0]] + s[1..];
      assert multiset(s) == multiset([s[0]]) + multiset(s[1..]);
    }
  }

  /** An element is kept exactly when it occurs in `s` and satisfies `p`. */
  lemma KeepMember<T>(s: seq<T>, p: T -> bool, x: T)
    ensures x in Keep(s, p) <==> x in s && p(x)
  {
    KeepCounts(s, p, x);
  }

  /** Keeping by `p`, then by `q`, is keeping by their conjunction. */
  lemma {:induction false} KeepKeep<T>(s: seq<T>, p: T -> bool, q: T -> bool, pq: T -> bool)
    requires forall x :: pq(x) == (p(x) && q(x))
    ensures Keep(Keep(s, p), q) == Keep(s, pq)
  {
    if s != [] {
      KeepKeep(s[1..], p, q, pq);
      var t := Keep(s[1..], p);
      if p(s[0]) {
        assert Keep(s, p) == [s[0]] + t;
        assert ([s[0]] + t)[1..] == t;
        assert Keep([s[0]] + t, q) == (if q(s[0]) then [s[0]] else []) + Keep(t, q);
      } else {
        assert Keep(s, p) == t;
      }
    }
  }

  /** Filtering twice by the same predicate changes nothing the second time. */
  lemma KeepIdempotent<T>(s: seq<T>, p: T -> bool)
    ensures Keep(Keep(s, p), p) == Keep(s, p)
  {
    KeepKeep(s, p, p, p);
  }

  /** A predicate every element satisfies keeps the whole sequence. */
  lemma {:induction false} KeepAll<T>(s: seq<T>, p: T -> bool)
    requires forall x :: x in s ==> p(x)
    ensures Keep(s, p) == s
  {
    if s != [] {
      KeepAll(s[1..], p);
    }
  }

  /** Two predicates that agree everywhere keep the same elements. */
  lemma {:induction false} KeepExtensional<T>(s: seq<T>, p: T -> bool, q: T -> bool)
    requires forall x :: p(x) == q(x)
    ensures Keep(s, p) == Keep(s, q)
  {
    if s != [] {
      KeepExtensional(s[1..], p, q);
    }
  }

  /** Filtering distributes over concatenation. */
  lemma {:induction false} KeepAppend<T>(a: seq<T>, b: seq<T>, p: T -> bool)
    ensures Keep(a + b, p) == Keep(a, p) + Keep(b, p)
  {
    if a != [] {
      assert (a + b)[0] == a[0];
      assert (a + b)[1..] == a[1..] + b;
      KeepAppend(a[1..], b, p);
    } else {
      assert a + b == b;
    }
  }

  /** The least index in `[j, bound)` that satisfies `p`, if there is one. */
  function FirstFrom(p: nat -> bool, j: nat, bound: nat): (r: Option<nat>)
    ensures r.Some? ==> j <= r.value < bound
    decreases bound - j
  {
    if j >= bound then None else if p(j) then Some(j) else FirstFrom(p, j + 1, bound)
  }

  lemma FirstFromSkip(p: nat -> bool, j: nat, bound: nat)
    requires j < bound && !p(j)
    ensures FirstFrom(p, j, bound) == FirstFrom(p, j + 1, bound)
  {
  }

  lemma FirstFromHit(p: nat -> bool, j: nat, bound: nat)
    requires j < bound && p(j)
    ensures FirstFrom(p, j, bound) == Some(j)
  {
  }

  lemma FirstFromEnd(p: nat -> bool, j: nat, bound: nat)
    requires bound <= j
    ensures FirstFrom(p, j, bound) == None
  {
  }

  /**
   * The index found satisfies `p` and nothing before it does; nothing in the range does when
   * none is found.
   */
  lemma {:induction false} FirstFromIsFirst(p: nat -> bool, j: nat, bound: nat)
    ensures FirstFrom(p, j, bound).Some? ==> p(FirstFrom(p, j, bound).value)
    ensures FirstFrom(p, j, bound).Some? ==> forall i :: j <= i < FirstFrom(p, j, bound).value ==> !p(i)
    ensures FirstFrom(p, j, bound).None? ==> forall i :: j <= i < bound ==> !p(i)
    decreases bound - j
  {
    if j < bound && !p(j) {
      FirstFromIsFirst(p, j + 1, bound);
    }
  }

  /** The concatenation of `f` over `xs`, in order. */
  function FlatMap<T, U>(xs: seq<T>, f: T -> seq<U>): seq<U> {
    if xs == [] then [] else FlatMap(xs[..|xs| - 1], f) + f(xs[|xs| - 1])
  }

  /** `FlatMap` distributes over concatenation. */
  lemma {:induction false} FlatMapAppend<T, U>(a: seq<T>, b: seq<T>, f: T -> seq<U>)
    ensures FlatMap(a + b, f) == FlatMap(a, f) + FlatMap(b, f)
    decreases |b|
  {
    if b == [] {
      assert a + b == a;
    } else {
      var b' := b[..|b| - 1];
      assert (a + b)[..|a + b| - 1] == a + b';
      assert (a + b)[|a + b| - 1] == b[|b| - 1];
      FlatMapAppend(a, b', f);
    }
  }

  /** `xs.map(f)`. */
  function MapSeq<A, B>(xs: seq<A>, f: A -> B): seq<B> {
    seq(|xs|, i requires 0 <= i < |xs| => f(xs[i]))
  }

  lemma MapSeqCons<A, B>(x: A, xs: seq<A>, f: A -> B)
    ensures MapSeq([x] + xs, f) == [f(x)] + MapSeq(xs, f)
  {
    assert forall i :: 0 < i <= |xs| ==> ([x] + xs)[i] == xs[i - 1];
  }
}

/**
 * A stable in-place sort driven by a three-way comparator, the way `Array.prototype.sort`
 * takes one: `cmp(a, b)` is negative, zero or positive as `a` belongs before, beside or
 * after `b`.
 */
module Sorting {
  import opened Seqs

  /** `cmp` orders every pair and its "not after" relation is transitive. */
  ghost predicate TotalPreorder<T(!new)>(cmp: (T, T) -> int) {
    && (forall a, b :: cmp(a, b) <= 0 || cmp(b, a) <= 0)
    && (forall a, b, c :: cmp(a, b) <= 0 && cmp(b, c) <= 0 ==> cmp(a, c) <= 0)
  }

  /** The elements that satisfy `p` never compare above one another: `p` picks one key. */
  ghost predicate OneKey<T(!new)>(p: T -> bool, cmp: (T, T) -> int) {
    forall a, b :: p(a) && p(b) ==> cmp(a, b) <= 0
  }

  predicate SortedBy<T>(s: seq<T>, cmp: (T, T) -> int) {
    forall i, j :: 0 <= i < j < |s| ==> cmp(s[i], s[j]) <= 0
  }

  /** Stable insertion of `x` into `t`: `x` goes after every element that does not compare above it. */
  function InsertBy<T>(t: seq<T>, x: T, cmp: (T, T) -> int): (r: seq<T>)
    ensures |r| == |t| + 1
  {
    if t == [] then [x]
    else if cmp(t[|t| - 1], x) <= 0 then t + [x]
    else InsertBy(t[..|t| - 1], x, cmp) + [t[|t| - 1]]
  }

  /** Insertion sort, one element at a time from the front. */
  function SortBy<T>(s: seq<T>, cmp: (T, T) -> int): (r: seq<T>)
    ensures |r| == |s|
  {
    if s == [] then []
    else InsertBy(SortBy(s[..|s| - 1], cmp), s[|s| - 1], cmp)
  }

  /** Insertion adds `x` and keeps every element of `t`, as many times each. */
  lemma {:induction false} InsertByPermutation<T>(t: seq<T>, x: T, cmp: (T, T) -> int)
    ensures multiset(InsertBy(t, x, cmp)) == multiset(t) + multiset{x}
    decreases |t|
  {
    if t != [] && cmp(t[|t| - 1], x) > 0 {
      var n := |t| - 1;
      assert t == t[..n] + [t[n]];
      InsertByPermutation(t[..n], x, cmp);
    }
  }

  /** The sort is a permutation of its input. */
  lemma {:induction false} SortByPermutation<T>(s: seq<T>, cmp: (T, T) -> int)
    ensures multiset(SortBy(s, cmp)) == multiset(s)
  {
    if s != [] {
      var n := |s| - 1;
      assert s == s[..n] + [s[n]];
      SortByPermutation(s[..n], cmp);
      InsertByPermutation(SortBy(s[..n], cmp), s[n], cmp);
    }
  }

  /** No element of `t` compares above `y`. */
  predicate AllBelow<T>(t: seq<T>, y: T, cmp: (T, T) -> int) {
    forall i :: 0 <= i < |t| ==> cmp(t[i], y) <= 0
  }

  /** Inserting an element that does not compare above `y` keeps everything below `y`. */
  lemma {:induction false} InsertByBelow<T>(t: seq<T>, x: T, y: T, cmp: (T, T) -> int)
    requires AllBelow(t, y, cmp) && cmp(x, y) <= 0
    ensures AllBelow(InsertBy(t, x, cmp), y, cmp)
    decreases |t|
  {
    if t != [] && cmp(t[|t| - 1], x) > 0 {
      var n := |t| - 1;
      assert AllBelow(t[..n], y, cmp);
      InsertByBelow(t[..n], x, y, cmp);
    }
  }

  lemma SortedSnoc<T>(v: seq<T>, y: T, cmp: (T, T) -> int)
    requires SortedBy(v, cmp) && AllBelow(v, y, cmp)
    ensures SortedBy(v + [y], cmp)
  {
    var w := v + [y];
    forall i, j | 0 <= i < j < |w|
      ensures cmp(w[i], w[j]) <= 0
    {
      assert w[i] == v[i];
      if j < |v| {
        assert w[j] == v[j];
      }
    }
  }

  lemma {:induction false} InsertBySorted<T(!new)>(t: seq<T>, x: T, cmp: (T, T) -> int)
    requires TotalPreorder(cmp) && SortedBy(t, cmp)
    ensures SortedBy(InsertBy(t, x, cmp), cmp)
    decreases |t|
  {
    if t != [] {
      var n := |t| - 1;
      if cmp(t[n], x) <= 0 {
        assert AllBelow(t, x, cmp) by {
          forall i | 0 <= i < |t|
            ensures cmp(t[i], x) <= 0
          {
            if i < n {
              assert cmp(t[i], t[n]) <= 0;
            }
          }
        }
        SortedSnoc(t, x, cmp);
      } else {
        var u := t[..n];
        assert SortedBy(u, cmp);
        assert AllBelow(u, t[n], cmp) by {
          forall i | 0 <= i < |u|
            ensures cmp(u[i], t[n]) <= 0
          {
            assert u[i] == t[i];
          }
        }
        assert cmp(x, t[n]) <= 0;
        InsertBySorted(u, x, cmp);
        InsertByBelow(u, x, t[n], cmp);
        SortedSnoc(InsertBy(u, x, cmp), t[n], cmp);
      }
    }
  }

  /** The sort puts the elements in comparator order. */
  lemma {:induction false} SortBySorted<T(!new)>(s: seq<T>, cmp: (T, T) -> int)
    requires TotalPreorder(cmp)
    ensures SortedBy(SortBy(s, cmp), cmp)
  {
    if s != [] {
      SortBySorted(s[..|s| - 1], cmp);
      InsertBySorted(SortBy(s[..|s| - 1], cmp), s[|s| - 1], cmp);
    }
  }

  /** Insertion puts `x` after the elements of its own key and leaves their order alone. */
  lemma {:induction false} InsertByStable<T(!new)>(t: seq<T>, x: T, cmp: (T, T) -> int, p: T -> bool)
    requires OneKey(p, cmp)
    ensures Keep(InsertBy(t, x, cmp), p) == Keep(t, p) + Keep([x], p)
    decreases |t|
  {
    if t != [] {
      var n := |t| - 1;
      assert t == t[..n] + [t[n]];
      KeepAppend(t[..n], [t[n]], p);
      if cmp(t[n], x) <= 0 {
        KeepAppend(t, [x], p);
      } else {
        InsertByStable(t[..n], x, cmp, p);
        KeepAppend(InsertBy(t[..n], x, cmp), [t[n]], p);
        assert p(x) ==> !p(t[n]);
      }
    }
  }

  /** Stability: the elements of one key come out in their input order. */
  lemma {:induction false} SortByStable<T(!new)>(s: seq<T>, cmp: (T, T) -> int, p: T -> bool)
    requires OneKey(p, cmp)
    ensures Keep(SortBy(s, cmp), p) == Keep(s, p)
  {
    if s != [] {
      var n := |s| - 1;
      SortByStable(s[..n], cmp, p);
      InsertByStable(SortBy(s[..n], cmp), s[n], cmp, p);
      assert s == s[..n] + [s[n]];
      KeepAppend(s[..n], [s[n]], p);
    }
  }

  /** An already ordered sequence is left as it is. */
  lemma {:induction false} SortByOfSorted<T>(s: seq<T>, cmp: (T, T) -> int)
    requires SortedBy(s, cmp)
    ensures SortBy(s, cmp) == s
  {
    if s != [] {
      var n := |s| - 1;
      var u := s[..n];
      assert SortedBy(u, cmp);
      SortByOfSorted(u, cmp);
      if n > 0 {
        assert u[n - 1] == s[n - 1];
        assert cmp(s[n - 1], s[n]) <= 0;
        assert InsertBy(u, s[n], cmp) == u + [s[n]];
      }
      assert u + [s[n]] == s;
    }
  }

  lemma SortByIdempotent<T(!new)>(s: seq<T>, cmp: (T, T) -> int)
    requires TotalPreorder(cmp)
    ensures SortBy(SortBy(s, cmp), cmp) == SortBy(s, cmp)
  {
    SortBySorted(s, cmp);
    SortByOfSorted(SortBy(s, cmp), cmp);
  }

  /** The elements that compare level with `x`: its key class. */
  function SameKey<T>(x: T, cmp: (T, T) -> int): T -> bool {
    (y: T) => cmp(x, y) <= 0 && cmp(y, x) <= 0
  }

  lemma {:induction false} SameKeyIsOneKey<T(!new)>(x: T, cmp: (T, T) -> int)
    requires TotalPreorder(cmp)
    ensures OneKey(SameKey(x, cmp), cmp)
  {
  }

  /** Every key class occurs in `u` and in `v` as the same subsequence. */
  ghost predicate KeysAgree<T(!new)>(u: seq<T>, v: seq<T>, cmp: (T, T) -> int) {
    forall x :: Keep(u, SameKey(x, cmp)) == Keep(v, SameKey(x, cmp))
  }

  /** No element compares above itself; every total preorder is reflexive. */
  ghost predicate Reflexive<T(!new)>(cmp: (T, T) -> int) {
    forall a :: cmp(a, a) <= 0
  }

  /** The last element of a sorted sequence does not compare below any element of it. */
  lemma {:induction false} SortedLastIsTop<T(!new)>(v: seq<T>, y: T, cmp: (T, T) -> int)
    requires Reflexive(cmp) && SortedBy(v, cmp) && y in v
    ensures cmp(y, v[|v| - 1]) <= 0
  {
    var i :| 0 <= i < |v| && v[i] == y;
    if i == |v| - 1 {
      assert cmp(y, y) <= 0;
    }
  }

  /** Removing the same last element from both sides keeps the key classes in agreement. */
  lemma {:induction false} KeysAgreeDropLast<T(!new)>(u: seq<T>, v: seq<T>, cmp: (T, T) -> int)
    requires u != [] && v != [] && u[|u| - 1] == v[|v| - 1] && KeysAgree(u, v, cmp)
    ensures KeysAgree(u[..|u| - 1], v[..|v| - 1], cmp)
  {
    var a := u[|u| - 1];
    var u', v' := u[..|u| - 1], v[..|v| - 1];
    assert u == u' + [a] && v == v' + [a];
    forall x
      ensures Keep(u', SameKey(x, cmp)) == Keep(v', SameKey(x, cmp))
    {
      var p := SameKey(x, cmp);
      KeepAppend(u', [a], p);
      KeepAppend(v', [a], p);
      var tail := Keep([a], p);
      var left, right := Keep(u', p), Keep(v', p);
      assert left + tail == right + tail;
      assert left == (left + tail)[..|left|];
      assert right == (right + tail)[..|right|];
    }
  }

  /** When both last elements satisfy `p` and `p` keeps the same subsequence of both, they are equal. */
  lemma {:induction false} LastOfKeep<T>(u: seq<T>, v: seq<T>, p: T -> bool)
    requires u != [] && v != [] && p(u[|u| - 1]) && p(v[|v| - 1]) && Keep(u, p) == Keep(v, p)
    ensures u[|u| - 1] == v[|v| - 1]
  {
    var a, b := u[|u| - 1], v[|v| - 1];
    var u', v' := u[..|u| - 1], v[..|v| - 1];
    assert u == u' + [a] && v == v' + [b];
    KeepAppend(u', [a], p);
    KeepAppend(v', [b], p);
    var ku, kv := Keep(u', p), Keep(v', p);
    assert Keep(u, p) == ku + [a] && Keep(v, p) == kv + [b];
    assert (ku + [a])[|ku|] == a && (kv + [b])[|kv|] == b;
  }

  /** Sequences whose key classes agree are empty together. */
  lemma {:induction false} KeysAgreeEmpty<T(!new)>(u: seq<T>, v: seq<T>, cmp: (T, T) -> int)
    requires Reflexive(cmp) && KeysAgree(u, v, cmp)
    ensures u == [] <==> v == []
  {
    if u != [] {
      var a := u[|u| - 1];
      assert Keep(u, SameKey(a, cmp)) == Keep(v, SameKey(a, cmp));
      KeepMember(u, SameKey(a, cmp), a);
      KeepMember(v, SameKey(a, cmp), a);
    }
    if v != [] {
      var b := v[|v| - 1];
      assert Keep(u, SameKey(b, cmp)) == Keep(v, SameKey(b, cmp));
      KeepMember(v, SameKey(b, cmp), b);
      KeepMember(u, SameKey(b, cmp), b);
    }
  }

  /** Two non-empty sorted sequences whose key classes agree end in the same element. */
  lemma {:induction false} SortedLastsEqual<T(!new)>(u: seq<T>, v: seq<T>, cmp: (T, T) -> int)
    requires Reflexive(cmp) && SortedBy(u, cmp) && SortedBy(v, cmp) && KeysAgree(u, v, cmp)
    requires u != [] && v != []
    ensures u[|u| - 1] == v[|v| - 1]
  {
    var a, b := u[|u| - 1], v[|v| - 1];
    var p, q := SameKey(a, cmp), SameKey(b, cmp);
    assert Keep(u, p) == Keep(v, p) && Keep(u, q) == Keep(v, q);
    KeepMember(u, p, a);
    KeepMember(v, p, a);
    KeepMember(v, q, b);
    KeepMember(u, q, b);
    SortedLastIsTop(v, a, cmp);
    SortedLastIsTop(u, b, cmp);
    assert p(a) && p(b);
    LastOfKeep(u, v, p);
  }

  /** Two sorted sequences whose key classes agree are the same sequence. */
  lemma {:induction false} SortedKeysAgreeEqual<T(!new)>(u: seq<T>, v: seq<T>, cmp: (T, T) -> int)
    requires Reflexive(cmp) && SortedBy(u, cmp) && SortedBy(v, cmp) && KeysAgree(u, v, cmp)
    ensures u == v
    decreases |u| + |v|
  {
    KeysAgreeEmpty(u, v, cmp);
    if u != [] {
      SortedLastsEqual(u, v, cmp);
      KeysAgreeDropLast(u, v, cmp);
      var u', v' := u[..|u| - 1], v[..|v| - 1];
      assert SortedBy(u', cmp) && SortedBy(v', cmp);
      SortedKeysAgreeEqual(u', v', cmp);
      assert u == u' + [u[|u| - 1]] && v == v' + [v[|v| - 1]];
    }
  }

  /**
   * Any stable sort gives the insertion sort's result: a sequence in comparator order that
   * keeps every key class of `s` in its input order is `SortBy(s, cmp)`.
   */
  lemma {:induction false} SortByUnique<T(!new)>(s: seq<T>, t: seq<T>, cmp: (T, T) -> int)
    requires TotalPreorder(cmp) && SortedBy(t, cmp) && KeysAgree(t, s, cmp)
    ensures t == SortBy(s, cmp)
  {
    SortBySorted(s, cmp);
    assert Reflexive(cmp) by {
      forall a
        ensures cmp(a, a) <= 0
      {
        assert cmp(a, a) <= 0;
      }
    }
    forall x
      ensures Keep(t, SameKey(x, cmp)) == Keep(SortBy(s, cmp), SameKey(x, cmp))
    {
      SameKeyIsOneKey(x, cmp);
      SortByStable(s, cmp, SameKey(x, cmp));
    }
    SortedKeysAgreeEqual(t, SortBy(s, cmp), cmp);
  }

  /** One swap of the inner loop: `x` moves one place left past a larger element. */
  lemma InsertStep<T>(s: seq<T>, j: nat, i: nat, x: T, cmp: (T, T) -> int)
    requires 0 < j <= i < |s| && s[j] == x && cmp(s[j - 1], x) > 0
    ensures InsertBy(s[..j], x, cmp) + s[j + 1..i + 1]
         == InsertBy(s[..j - 1], x, cmp) + ([s[j - 1]] + s[j + 1..i + 1])
  {
    assert s[..j][..j - 1] == s[..j - 1];
    assert s[..j][j - 1] == s[j - 1];
  }

  /** What a swap of positions `j - 1` and `j` leaves in each part of the array. */
  lemma SwapSlices<T>(before: seq<T>, after: seq<T>, j: nat, i: nat)
    requires 0 < j <= i < |before|
    requires after == before[j - 1 := before[j]][j := before[j - 1]]
    ensures after[..j - 1] == before[..j - 1]
    ensures after[j - 1] == before[j]
    ensures after[j..i + 1] == [before[j - 1]] + before[j + 1..i + 1]
    ensures after[i + 1..] == before[i + 1..]
  {
  }

  /** The inner loop stops where `x` belongs. */
  lemma InsertDone<T>(s: seq<T>, j: nat, i: nat, x: T, cmp: (T, T) -> int)
    requires j <= i < |s| && s[j] == x
    requires j == 0 || cmp(s[j - 1], x) <= 0
    ensures InsertBy(s[..j], x, cmp) + s[j + 1..i + 1] == s[..i + 1]
  {
    if j > 0 {
      assert s[..j][j - 1] == s[j - 1];
    }
    assert s[..i + 1] == s[..j] + [x] + s[j + 1..i + 1];
  }

  lemma SortByPrefix<T>(s: seq<T>, i: nat, cmp: (T, T) -> int)
    requires i < |s|
    ensures SortBy(s[..i + 1], cmp) == InsertBy(SortBy(s[..i], cmp), s[i], cmp)
  {
    assert s[..i + 1][..i] == s[..i];
  }

  /** One pass of the outer loop: moves `a[i]` left to its stable place among `a[..i]`. */
  method InsertAt<T>(a: array<T>, i: nat, cmp: (T, T) -> int)
    requires i < a.Length
    modifies a
    ensures a[..i + 1] == InsertBy(old(a[..i]), old(a[i]), cmp)
    ensures a[i + 1..] == old(a[i + 1..])
  {
    var x := a[i];
    ghost var p := a[..i];
    assert a[i + 1..i + 1] == [];
    var j := i;
    while j > 0 && cmp(a[j - 1], x) > 0
      invariant 0 <= j <= i
      invariant a[j] == x
      invariant InsertBy(p, x, cmp) == InsertBy(a[..j], x, cmp) + a[j + 1..i + 1]
      invariant a[i + 1..] == old(a[i + 1..])
    {
      ghost var before := a[..];
      InsertStep(before, j, i, x, cmp);
      a[j - 1], a[j] := a[j], a[j - 1];
      SwapSlices(before, a[..], j, i);
      j := j - 1;
    }
    InsertDone(a[..], j, i, x, cmp);
  }

  /** Sorts `a` in place; the result is the insertion sort of the input. */
  method SortInPlace<T>(a: array<T>, cmp: (T, T) -> int)
    modifies a
    ensures a[..] == SortBy(old(a[..]), cmp)
  {
    ghost var s := a[..];
    var i := 0;
    while i < a.Length
      invariant 0 <= i <= a.Length
      invariant a[..i] == SortBy(s[..i], cmp)
      invariant a[i..] == s[i..]
    {
      SortByPrefix(s, i, cmp);
      assert a[i] == s[i];
      assert a[i + 1..] == s[i + 1..] by {
        assert a[i + 1..] == a[i..][1..] && s[i + 1..] == s[i..][1..];
      }
      InsertAt(a, i, cmp);
      i := i + 1;
    }
    assert a[..] == a[..a.Length];
    assert s == s[..a.Length];
  }
}

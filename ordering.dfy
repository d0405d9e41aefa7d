/** The chronological comparator of the catalog and the in-place sort that applies it. */
module Ordering {
  import opened Months
  import opened Issues
  import opened Seqs
  import opened Sorting

  /** The comparator: negative, zero or positive as `a` comes before, with or after `b`. */
  function Compare(a: IssueRecord, b: IssueRecord): (r: int)
    ensures r < 0 <==> a.year < b.year || (a.year == b.year && GetMonthIndex(a.month) < GetMonthIndex(b.month))
    ensures r == 0 <==> a.year == b.year && GetMonthIndex(a.month) == GetMonthIndex(b.month)
  {
    if a.year != b.year then a.year - b.year
    else GetMonthIndex(a.month) - GetMonthIndex(b.month)
  }

  predicate Precedes(a: IssueRecord, b: IssueRecord)
  {
    Compare(a, b) <= 0
  }

  /** The sort key the comparator orders by. */
  predicate HasKey(r: IssueRecord, year: int, monthIndex: int)
  {
    r.year == year && GetMonthIndex(r.month) == monthIndex
  }

  /** The records of one sort key, as a filter predicate. */
  function KeyIs(year: int, monthIndex: int): IssueRecord -> bool {
    (r: IssueRecord) => HasKey(r, year, monthIndex)
  }

  predicate Sorted(s: seq<IssueRecord>)
  {
    forall i, j :: 0 <= i < j < |s| ==> Precedes(s[i], s[j])
  }

  lemma CompareAntisymmetric(a: IssueRecord, b: IssueRecord)
    ensures Compare(a, b) == -Compare(b, a)
  {
  }

  lemma PrecedesTotal(a: IssueRecord, b: IssueRecord)
    ensures Precedes(a, b) || Precedes(b, a)
  {
  }

  lemma PrecedesTransitive(a: IssueRecord, b: IssueRecord, c: IssueRecord)
    requires Precedes(a, b) && Precedes(b, c)
    ensures Precedes(a, c)
  {
  }

  /** A month outside the list has index -1 and so sorts before every other record of its year. */
  lemma UnknownMonthFirst(a: IssueRecord, b: IssueRecord)
    requires a.year == b.year && GetMonthIndex(a.month) == -1
    ensures Precedes(a, b)
    ensures GetMonthIndex(b.month) != -1 ==> Compare(a, b) < 0
  {
  }

  /** The comparator orders every pair of records and its "not after" relation is transitive. */
  lemma CompareIsPreorder()
    ensures TotalPreorder(Compare)
  {
    forall a, b
      ensures Compare(a, b) <= 0 || Compare(b, a) <= 0
    {
      PrecedesTotal(a, b);
    }
    forall a, b, c | Compare(a, b) <= 0 && Compare(b, c) <= 0
      ensures Compare(a, c) <= 0
    {
      PrecedesTransitive(a, b, c);
    }
  }

  /** The records of one sort key never compare above one another. */
  lemma HasKeyIsOneKey(year: int, monthIndex: int)
    ensures OneKey(KeyIs(year, monthIndex), Compare)
  {
  }

  /** `issues.sort(comparator)`, as the stable insertion sort by the comparator. */
  function SortSpec(s: seq<IssueRecord>): seq<IssueRecord> {
    SortBy(s, Compare)
  }

  /** The sorted catalog holds the same records, as many times each. */
  lemma SortSpecPermutation(s: seq<IssueRecord>)
    ensures |SortSpec(s)| == |s| && multiset(SortSpec(s)) == multiset(s)
  {
    SortByPermutation(s, Compare);
  }

  /** The sorted catalog is in comparator order. */
  lemma SortSpecSorted(s: seq<IssueRecord>)
    ensures Sorted(SortSpec(s))
  {
    CompareIsPreorder();
    SortBySorted(s, Compare);
    assert SortedBy(SortSpec(s), Compare);
  }

  /** Stability: records with equal keys keep their input order. */
  lemma SortSpecStable(s: seq<IssueRecord>, year: int, monthIndex: int)
    ensures Keep(SortSpec(s), KeyIs(year, monthIndex)) == Keep(s, KeyIs(year, monthIndex))
  {
    HasKeyIsOneKey(year, monthIndex);
    SortByStable(s, Compare, KeyIs(year, monthIndex));
  }

  /**
   * The sorted catalog is the only outcome of a stable sort: any sequence in comparator order
   * that keeps the records of every sort key in their input order is `SortSpec(s)`.
   */
  lemma SortSpecUnique(s: seq<IssueRecord>, t: seq<IssueRecord>)
    requires Sorted(t)
    requires forall year, monthIndex :: Keep(t, KeyIs(year, monthIndex)) == Keep(s, KeyIs(year, monthIndex))
    ensures t == SortSpec(s)
  {
    CompareIsPreorder();
    assert SortedBy(t, Compare);
    forall x
      ensures Keep(t, SameKey(x, Compare)) == Keep(s, SameKey(x, Compare))
    {
      var key := KeyIs(x.year, GetMonthIndex(x.month));
      KeepExtensional(t, SameKey(x, Compare), key);
      KeepExtensional(s, SameKey(x, Compare), key);
    }
    SortByUnique(s, t, Compare);
  }

  /** An already ordered catalog is left as it is. */
  lemma SortSpecOfSorted(s: seq<IssueRecord>)
    requires Sorted(s)
    ensures SortSpec(s) == s
  {
    assert SortedBy(s, Compare);
    SortByOfSorted(s, Compare);
  }

  lemma SortSpecIdempotent(s: seq<IssueRecord>)
    ensures SortSpec(SortSpec(s)) == SortSpec(s)
  {
    CompareIsPreorder();
    SortByIdempotent(s, Compare);
  }

  /** Sorts the catalog in place by the comparator; the result is the stable sort of the input. */
  method SortIssues(a: array<IssueRecord>)
    modifies a
    ensures a[..] == SortSpec(old(a[..]))
  {
    SortInPlace(a, Compare);
  }
}

/** The daily feature: one catalog year per day, and that year's issues of the current month. */
module Daily {
  import opened Wrappers
  import opened Months
  import opened Issues
  import opened Seqs

  predicate StrictlyIncreasing(ys: seq<int>) {
    forall i, j :: 0 <= i < j < |ys| ==> ys[i] < ys[j]
  }

  /** The years that occur in the catalog. */
  function YearsOf(issues: seq<IssueRecord>): set<int> {
    set i | 0 <= i < |issues| :: issues[i].year
  }

  /** Adds `y` to an increasing list of distinct years, keeping it increasing and distinct. */
  function InsertYear(ys: seq<int>, y: int): (r: seq<int>)
    requires StrictlyIncreasing(ys)
    ensures StrictlyIncreasing(r)
    ensures forall z :: z in r <==> z in ys || z == y
  {
    if ys == [] then [y]
    else if y < ys[0] then [y] + ys
    else if y == ys[0] then ys
    else
      var rest := InsertYear(ys[1..], y);
      ConsIncreasing(ys, y, rest);
      [ys[0]] + rest
  }

  lemma ConsIncreasing(ys: seq<int>, y: int, rest: seq<int>)
    requires ys != [] && ys[0] < y
    requires StrictlyIncreasing(ys) && StrictlyIncreasing(rest)
    requires forall z :: z in rest <==> z in ys[1..] || z == y
    ensures StrictlyIncreasing([ys[0]] + rest)
    ensures forall z :: z in [ys[0]] + rest <==> z in ys || z == y
  {
    assert ys == [ys[0]] + ys[1..];
    forall z | z in rest
      ensures ys[0] < z
    {
      if z in ys[1..] {
        var i :| 0 <= i < |ys[1..]| && ys[1..][i] == z;
        assert ys[i + 1] == z;
      }
    }
    var r := [ys[0]] + rest;
    forall i, j | 0 <= i < j < |r|
      ensures r[i] < r[j]
    {
      if i == 0 {
        assert r[j] == rest[j - 1];
        assert r[j] in rest;
      } else {
        assert r[i] == rest[i - 1] && r[j] == rest[j - 1];
      }
    }
  }

  /** `[...new Set(issues.map(i => i.year))].sort()`: the distinct years in increasing order. */
  function UniqueYears(issues: seq<IssueRecord>): (ys: seq<int>)
    ensures StrictlyIncreasing(ys)
    ensures forall y :: y in ys <==> y in YearsOf(issues)
  {
    if issues == [] then []
    else
      var n := |issues| - 1;
      var ys := InsertYear(UniqueYears(issues[..n]), issues[n].year);
      assert forall y :: y in YearsOf(issues) <==> y in YearsOf(issues[..n]) || y == issues[n].year by {
        forall y | y in YearsOf(issues)
          ensures y in YearsOf(issues[..n]) || y == issues[n].year
        {
          var i :| 0 <= i < |issues| && issues[i].year == y;
          if i < n {
            assert issues[..n][i] == issues[i];
          }
        }
        forall y | y in YearsOf(issues[..n])
          ensures y in YearsOf(issues)
        {
          var i :| 0 <= i < n && issues[..n][i].year == y;
          assert issues[i] == issues[..n][i];
        }
        assert issues[n].year in YearsOf(issues);
      }
      ys
  }

  /** Two increasing lists of distinct years with the same members are the same list. */
  lemma {:induction false} IncreasingUnique(a: seq<int>, b: seq<int>)
    requires StrictlyIncreasing(a) && StrictlyIncreasing(b)
    requires forall y :: y in a <==> y in b
    ensures a == b
    decreases |a|
  {
    assert a != [] ==> a[0] in a;
    assert b != [] ==> b[0] in b;
    if a != [] && b != [] {
      var k :| 0 <= k < |b| && b[k] == a[0];
      var l :| 0 <= l < |a| && a[l] == b[0];
      assert b[0] <= b[k] && a[0] <= a[l];
      forall y
        ensures y in a[1..] <==> y in b[1..]
      {
        if y in a[1..] {
          assert a[0] < y;
          assert y in b;
        }
        if y in b[1..] {
          assert b[0] < y;
          assert y in a;
        }
      }
      IncreasingUnique(a[1..], b[1..]);
      assert a == [a[0]] + a[1..];
      assert b == [b[0]] + b[1..];
    }
  }

  /** Any increasing list of the catalog's distinct years is the one the feature rotates through. */
  lemma UniqueYearsCanonical(issues: seq<IssueRecord>, ys: seq<int>)
    requires StrictlyIncreasing(ys)
    requires forall y :: y in ys <==> y in YearsOf(issues)
    ensures ys == UniqueYears(issues)
  {
    IncreasingUnique(ys, UniqueYears(issues));
  }

  datatype Feature = Feature(year: int, picks: seq<IssueRecord>)

  /** The records featured on a day: the current month, matched exactly, of the featured year. */
  function FeaturedOn(monthName: string, year: int): IssueRecord -> bool {
    (r: IssueRecord) => r.month == monthName && r.year == year
  }

  /**
   * The feature for day `dayOfYear` of a year whose current month is `MONTHS[monthNumber]`
   * (`Date.prototype.getMonth` is 0 for January); `None` when the catalog is empty and nothing
   * is updated.
   */
  function DailyFeature(issues: seq<IssueRecord>, dayOfYear: nat, monthNumber: nat): (r: Option<Feature>)
    requires monthNumber < 12
    ensures r.None? <==> issues == []
    ensures r.Some? ==> r.value.year in YearsOf(issues)
    ensures r.Some? ==> forall x :: x in r.value.picks ==> x.month == MONTHS[monthNumber] && x.year == r.value.year
  {
    if issues == [] then None
    else
      var uniqueYears := UniqueYears(issues);
      assert issues[0].year in YearsOf(issues);
      var yearToFeature := uniqueYears[dayOfYear % |uniqueYears|];
      var p := FeaturedOn(MONTHS[monthNumber], yearToFeature);
      var picks := Keep(issues, p);
      assert forall x :: x in picks ==> p(x) by {
        forall x | x in picks
          ensures p(x)
        {
          KeepMember(issues, p, x);
        }
      }
      Some(Feature(yearToFeature, picks))
  }

  /** The featured year sits at position `dayOfYear mod count` of the increasing distinct years. */
  lemma FeaturedYearPosition(issues: seq<IssueRecord>, dayOfYear: nat, monthNumber: nat)
    requires monthNumber < 12 && issues != []
    ensures var ys := UniqueYears(issues);
            |ys| > 0 && DailyFeature(issues, dayOfYear, monthNumber).value.year == ys[dayOfYear % |ys|]
  {
    assert issues[0].year in YearsOf(issues);
  }

  /**
   * Every catalog record of the current month and the featured year is picked, as often as it
   * occurs in the catalog and in catalog order; no other record is.
   */
  lemma PicksComplete(issues: seq<IssueRecord>, dayOfYear: nat, monthNumber: nat, x: IssueRecord)
    requires monthNumber < 12 && issues != []
    requires x in issues
    ensures var f := DailyFeature(issues, dayOfYear, monthNumber).value;
            && (x in f.picks <==> x.month == MONTHS[monthNumber] && x.year == f.year)
            && multiset(f.picks)[x]
               == (if x.month == MONTHS[monthNumber] && x.year == f.year then multiset(issues)[x] else 0)
            && IsSubsequence(f.picks, issues)
  {
    var f := DailyFeature(issues, dayOfYear, monthNumber).value;
    var p := FeaturedOn(MONTHS[monthNumber], f.year);
    assert f.picks == Keep(issues, p);
    KeepMember(issues, p, x);
    KeepCounts(issues, p, x);
    KeepIsSubsequence(issues, p);
  }

  lemma MulStep(n: nat, m: int)
    ensures m >= 0 ==> n * m >= 0 && n * (m + 1) == n * m + n
  {
  }

  /** The remainder of `n * q + k` by `n` is `k` when `k` is below `n`. */
  lemma ModOfMultiplePlus(n: nat, q: int, k: int)
    requires 0 <= k < n
    ensures (n * q + k) % n == k
  {
    var x := n * q + k;
    var p := x / n;
    var r := x % n;
    assert x == n * p + r;
    assert n * (q - p) == r - k;
    assert n * (p - q) == k - r;
    MulStep(n, q - p - 1);
    MulStep(n, p - q - 1);
  }

  /** Among any `n` consecutive days there is one at position `k` of an `n`-long rotation. */
  lemma DayAtPosition(start: nat, n: nat, k: nat) returns (d: nat)
    requires k < n
    ensures start <= d < start + n && d % n == k
  {
    var c := if k >= start % n then start / n else start / n + 1;
    MulStep(n, start / n);
    d := n * c + k;
    ModOfMultiplePlus(n, c, k);
  }

  /** Over any `count` consecutive days the feature visits every distinct year of the catalog. */
  lemma EveryYearFeatured(issues: seq<IssueRecord>, start: nat, monthNumber: nat, y: int)
    requires monthNumber < 12
    requires y in YearsOf(issues)
    ensures exists d :: start <= d < start + |UniqueYears(issues)|
                        && DailyFeature(issues, d, monthNumber).value.year == y
  {
    var ys := UniqueYears(issues);
    var k :| 0 <= k < |ys| && ys[k] == y;
    var d := DayAtPosition(start, |ys|, k);
    FeaturedYearPosition(issues, d, monthNumber);
  }
}

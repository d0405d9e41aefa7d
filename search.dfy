/**
 * The catalog search: a blank query does nothing, a four-digit query is a year lookup, and any
 * other query goes through an external translator whose filter is applied field by field, with
 * a plain substring search when the translator fails.
 */
module Search {
  import opened Wrappers
  import opened Strings
  import opened Months
  import opened Issues
  import opened Seqs

  /**
   * The translator's answer, already decoded: each field absent or holding the value it gave.
   * A failed request, a reply that is not JSON or one that crashes the filter code is `None` in
   * the translator input of `HandleSearch`.
   */
  datatype QueryFilter = QueryFilter(year: Option<int>, month: Option<string>, text: Option<string>)

  /** A field constrains the results only when it holds a truthy value: not 0, not "". */
  predicate YearSet(f: QueryFilter) {
    f.year.Some? && f.year.value != 0
  }

  predicate MonthSet(f: QueryFilter) {
    f.month.Some? && f.month.value != ""
  }

  predicate TextSet(f: QueryFilter) {
    f.text.Some? && f.text.value != ""
  }

  function YearIs(y: int): IssueRecord -> bool {
    (r: IssueRecord) => r.year == y
  }

  /** Case-insensitive month equality. */
  function MonthIs(m: string): IssueRecord -> bool {
    (r: IssueRecord) => Lower(r.month) == Lower(m)
  }

  /** The search text contains `t`, which the caller has already lower-cased. */
  function IndexHas(t: string): IssueRecord -> bool {
    (r: IssueRecord) => Contains(r.searchIndex, t)
  }

  /** The year test of the fast path: strict equality with `parseInt` of the query, never NaN. */
  function YearQuery(q: string): IssueRecord -> bool {
    (r: IssueRecord) => ParseInt(q) == Some(r.year)
  }

  /** One `if (field) results = results.filter(...)` step. */
  function Step(s: seq<IssueRecord>, on: bool, p: IssueRecord -> bool): (r: seq<IssueRecord>)
    ensures on ==> r == Keep(s, p)
    ensures !on ==> r == s
  {
    if on then Keep(s, p) else s
  }

  /** The translator's filter, applied year, month and text in that order. */
  function ApplyFilter(issues: seq<IssueRecord>, f: QueryFilter): seq<IssueRecord> {
    var byYear := Step(issues, YearSet(f), YearIs(if f.year.Some? then f.year.value else 0));
    var byMonth := Step(byYear, MonthSet(f), MonthIs(if f.month.Some? then f.month.value else ""));
    Step(byMonth, TextSet(f), IndexHas(Lower(if f.text.Some? then f.text.value else "")))
  }

  /** The conjunction the filter stands for, with unset and falsy fields imposing nothing. */
  predicate FilterMatches(f: QueryFilter, r: IssueRecord) {
    && (YearSet(f) ==> r.year == f.year.value)
    && (MonthSet(f) ==> Lower(r.month) == Lower(f.month.value))
    && (TextSet(f) ==> Contains(r.searchIndex, Lower(f.text.value)))
  }

  /** `^\d{4}$`: exactly four ASCII digits and nothing else. */
  predicate IsFourDigits(s: string) {
    |s| == 4 && AllDigits(s)
  }

  /**
   * The result the search panel shows, or `None` when a blank query leaves it unchanged.
   * `translated` is the translator's outcome for this query.
   */
  function HandleSearch(issues: seq<IssueRecord>, searchQuery: string,
                        translated: Option<QueryFilter>): (r: Option<seq<IssueRecord>>)
    ensures r.None? <==> Trim(searchQuery) == []
  {
    if Trim(searchQuery) == [] then None
    else
      var lowerQ := Lower(searchQuery);
      if IsFourDigits(lowerQ) then Some(Keep(issues, YearQuery(lowerQ)))
      else match translated
        case Some(f) => Some(ApplyFilter(issues, f))
        case None => Some(Keep(issues, IndexHas(lowerQ)))
  }

  /** The single predicate the search keeps records by, for a query that is not blank. */
  predicate Selected(searchQuery: string, translated: Option<QueryFilter>, r: IssueRecord) {
    var lowerQ := Lower(searchQuery);
    if IsFourDigits(lowerQ) then ParseInt(lowerQ) == Some(r.year)
    else match translated
      case Some(f) => FilterMatches(f, r)
      case None => Contains(r.searchIndex, lowerQ)
  }

  lemma StepIsKeep(s: seq<IssueRecord>, on: bool, p: IssueRecord -> bool)
    ensures Step(s, on, p) == Keep(s, r => !on || p(r))
  {
    if on {
      KeepExtensional(s, p, r => !on || p(r));
    } else {
      KeepAll(s, r => !on || p(r));
    }
  }

  /** The three filter steps together keep exactly the records that match the whole filter. */
  lemma ApplyFilterIsKeep(issues: seq<IssueRecord>, f: QueryFilter)
    ensures ApplyFilter(issues, f) == Keep(issues, r => FilterMatches(f, r))
  {
    var py := YearIs(if f.year.Some? then f.year.value else 0);
    var pm := MonthIs(if f.month.Some? then f.month.value else "");
    var pt := IndexHas(Lower(if f.text.Some? then f.text.value else ""));
    var gy := r => !YearSet(f) || py(r);
    var gm := r => !MonthSet(f) || pm(r);
    var gt := r => !TextSet(f) || pt(r);
    var byYear := Step(issues, YearSet(f), py);
    var byMonth := Step(byYear, MonthSet(f), pm);
    StepIsKeep(issues, YearSet(f), py);
    StepIsKeep(byYear, MonthSet(f), pm);
    StepIsKeep(byMonth, TextSet(f), pt);
    var gym := r => gy(r) && gm(r);
    KeepKeep(issues, gy, gm, gym);
    KeepKeep(issues, gym, gt, r => FilterMatches(f, r));
  }

  /** Every shown result is the catalog filtered by one predicate, chosen by the query and the translator. */
  lemma HandleSearchIsKeep(issues: seq<IssueRecord>, searchQuery: string, translated: Option<QueryFilter>)
    requires Trim(searchQuery) != []
    ensures HandleSearch(issues, searchQuery, translated)
         == Some(Keep(issues, r => Selected(searchQuery, translated, r)))
  {
    var lowerQ := Lower(searchQuery);
    var sel := r => Selected(searchQuery, translated, r);
    if IsFourDigits(lowerQ) {
      KeepExtensional(issues, YearQuery(lowerQ), sel);
    } else {
      match translated
      case Some(f) =>
        ApplyFilterIsKeep(issues, f);
        KeepExtensional(issues, r => FilterMatches(f, r), sel);
      case None =>
        KeepExtensional(issues, IndexHas(lowerQ), sel);
    }
  }

  /** Results keep the catalog's order and only leave records out. */
  lemma HandleSearchSubsequence(issues: seq<IssueRecord>, searchQuery: string, translated: Option<QueryFilter>)
    requires Trim(searchQuery) != []
    ensures IsSubsequence(HandleSearch(issues, searchQuery, translated).value, issues)
  {
    HandleSearchIsKeep(issues, searchQuery, translated);
    KeepIsSubsequence(issues, r => Selected(searchQuery, translated, r));
  }

  /** A record is shown if and only if it is in the catalog and satisfies every applied test. */
  lemma HandleSearchExact(issues: seq<IssueRecord>, searchQuery: string, translated: Option<QueryFilter>,
                          x: IssueRecord)
    requires Trim(searchQuery) != []
    ensures x in HandleSearch(issues, searchQuery, translated).value
        <==> x in issues && Selected(searchQuery, translated, x)
  {
    var sel := r => Selected(searchQuery, translated, r);
    HandleSearchIsKeep(issues, searchQuery, translated);
    KeepMember(issues, sel, x);
  }

  /** Running the same search over its own results gives the same results. */
  lemma HandleSearchIdempotent(issues: seq<IssueRecord>, searchQuery: string, translated: Option<QueryFilter>)
    requires Trim(searchQuery) != []
    ensures HandleSearch(HandleSearch(issues, searchQuery, translated).value, searchQuery, translated)
         == HandleSearch(issues, searchQuery, translated)
  {
    var sel := r => Selected(searchQuery, translated, r);
    HandleSearchIsKeep(issues, searchQuery, translated);
    HandleSearchIsKeep(Keep(issues, sel), searchQuery, translated);
    KeepIdempotent(issues, sel);
  }

  /** A four-digit query never consults the translator. */
  lemma FastPathIgnoresTranslator(issues: seq<IssueRecord>, searchQuery: string,
                                  t1: Option<QueryFilter>, t2: Option<QueryFilter>)
    requires IsFourDigits(Lower(searchQuery))
    ensures HandleSearch(issues, searchQuery, t1) == HandleSearch(issues, searchQuery, t2)
  {
  }

  /** A filter with no truthy field shows the whole catalog. */
  lemma EmptyFilterKeepsAll(issues: seq<IssueRecord>, f: QueryFilter)
    requires !YearSet(f) && !MonthSet(f) && !TextSet(f)
    ensures ApplyFilter(issues, f) == issues
  {
  }

  /** A year of 0 from the translator is falsy and is ignored, exactly as if it were absent. */
  lemma ZeroYearIgnored(issues: seq<IssueRecord>, f: QueryFilter)
    requires f.year == Some(0)
    ensures ApplyFilter(issues, f) == ApplyFilter(issues, f.(year := None))
  {
  }

  /** A string of digits is not blank and lower-casing leaves it alone. */
  lemma DigitQuery(q: string)
    requires q != [] && AllDigits(q)
    ensures Trim(q) != [] && Lower(q) == q
  {
    LowerOfLowerCase(q);
    assert !IsWhitespace(q[0]);
    assert !AllWhitespace(q);
  }

  lemma ParseYearRendering(y: nat)
    ensures ParseInt(NatToString(y)) == Some(y)
  {
    ParseIntOfRendering(y, []);
    assert NatToString(y) + [] == NatToString(y);
  }

  /** The decimal rendering of an extracted year is a four-digit query that parses back to it. */
  lemma YearRenderingIsQuery(y: nat)
    requires 1900 < y < 2100
    ensures var q := NatToString(y);
            Trim(q) != [] && Lower(q) == q && IsFourDigits(q) && ParseInt(q) == Some(y)
  {
    FourDigitRendering(y);
    ParseYearRendering(y);
    DigitQuery(NatToString(y));
  }

  /** Searching the rendering of an extracted record's year finds that record, whatever the translator does. */
  lemma YearSearchFindsRecord(issues: seq<IssueRecord>, x: IssueRecord, translated: Option<QueryFilter>)
    requires x in issues && WellFormed(x)
    ensures var q := NatToString(x.year);
            Trim(q) != [] && x in HandleSearch(issues, q, translated).value
  {
    var q := NatToString(x.year);
    YearRenderingIsQuery(x.year);
    assert Selected(q, translated, x);
    HandleSearchExact(issues, q, translated, x);
  }

  /** The word a user types for single issues occurs in the tag every uncollected record carries. */
  lemma TagHasWord(s: string, word: string)
    requires word == "uncollected" && Contains(s, UNCOLLECTED_TAG)
    ensures Lower(word) == word && Contains(s, word)
  {
    LowerOfLowerCase(word);
    assert UNCOLLECTED_TAG == word + " missing";
    ContainsPrefix(s, word, " missing");
  }

  /** When the translator answers `{"text": "uncollected"}`, every extracted single issue is shown. */
  lemma UncollectedQueryFindsSingles(issues: seq<IssueRecord>, searchQuery: string, word: string,
                                     x: IssueRecord)
    requires word == "uncollected"
    requires Trim(searchQuery) != [] && !IsFourDigits(Lower(searchQuery))
    requires x in issues && WellFormed(x) && x.isUncollected
    ensures x in HandleSearch(issues, searchQuery, Some(QueryFilter(None, None, Some(word)))).value
  {
    var f := QueryFilter(None, None, Some(word));
    TagHasWord(x.searchIndex, word);
    assert FilterMatches(f, x);
    HandleSearchExact(issues, searchQuery, Some(f), x);
  }
}

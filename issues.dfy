/** The catalog entry built for every issue the extractor finds, and the invariant it keeps. */
module Issues {
  import opened Strings
  import opened Months

  datatype IssueRecord = IssueRecord(
    month: string,
    year: int,
    issueNumber: string,
    collection: string,
    format: string,
    isUncollected: bool,
    searchIndex: string)

  const UNCOLLECTED_COLLECTION: string := "Uncollected / Single Issue"
  const NOT_PRINTED: string := "Not Printed"
  const UNKNOWN_FORMAT: string := "Unknown"
  const UNCOLLECTED_TAG: string := "uncollected missing"

  /** The leading part of the search text: month, year and issue number, each followed by a space. */
  function SearchHead(month: string, year: int, issue: string): string {
    month + " " + IntToString(year) + " " + issue + " "
  }

  /** The trailing part: the RAW collection and format cells, then the uncollected tag when it applies. */
  function SearchTail(collectionCell: string, formatCell: string, uncollected: bool): string {
    collectionCell + " " + formatCell + " " + (if uncollected then UNCOLLECTED_TAG else "")
  }

  /**
   * The search text of a hit: head and tail lower-cased. It uses the cells as read, not the
   * sentinel or "Unknown" replacements.
   */
  function SearchText(month: string, year: int, issue: string, collectionCell: string,
                      formatCell: string, uncollected: bool): string
  {
    Lower(SearchHead(month, year, issue) + SearchTail(collectionCell, formatCell, uncollected))
  }

  /**
   * The record pushed for one hit: an empty collection cell marks the issue uncollected and
   * brings in the two sentinels; otherwise a blank format cell becomes "Unknown".
   */
  function NewIssue(month: string, year: int, issue: string, collectionCell: string,
                    formatCell: string): IssueRecord
  {
    var uncollected := collectionCell == "";
    IssueRecord(
      month, year, issue,
      if uncollected then UNCOLLECTED_COLLECTION else collectionCell,
      if uncollected then NOT_PRINTED else if formatCell == "" then UNKNOWN_FORMAT else formatCell,
      uncollected,
      SearchText(month, year, issue, collectionCell, formatCell, uncollected))
  }

  /** The invariants every extracted record satisfies. */
  predicate WellFormed(r: IssueRecord) {
    && r.month in MONTHS
    && 1900 < r.year < 2100
    && r.issueNumber != ""
    && (r.isUncollected ==> r.collection == UNCOLLECTED_COLLECTION && r.format == NOT_PRINTED)
    && (!r.isUncollected ==> r.collection != "" && r.format != "")
    && IsLowerCase(r.searchIndex)
    && Lower(SearchHead(r.month, r.year, r.issueNumber)) <= r.searchIndex
    && (!r.isUncollected ==> Contains(r.searchIndex, Lower(r.collection)))
    && (r.isUncollected ==> Contains(r.searchIndex, UNCOLLECTED_TAG))
  }

  lemma SearchTextStartsWithHead(month: string, year: int, issue: string, c: string, f: string, u: bool)
    ensures Lower(SearchHead(month, year, issue)) <= SearchText(month, year, issue, c, f, u)
  {
    LowerAppend(SearchHead(month, year, issue), SearchTail(c, f, u));
  }

  lemma SearchTextHasCollection(month: string, year: int, issue: string, c: string, f: string, u: bool)
    ensures Contains(SearchText(month, year, issue, c, f, u), Lower(c))
  {
    var head := SearchHead(month, year, issue);
    var post := " " + f + " " + (if u then UNCOLLECTED_TAG else "");
    assert SearchTail(c, f, u) == c + post;
    assert head + (c + post) == head + c + post;
    LowerAppend(head + c, post);
    LowerAppend(head, c);
    ContainsMiddle(Lower(head), Lower(c), Lower(post));
  }

  lemma TagIsLowerCase()
    ensures Lower(UNCOLLECTED_TAG) == UNCOLLECTED_TAG
  {
    assert IsLowerCase(UNCOLLECTED_TAG);
    LowerOfLowerCase(UNCOLLECTED_TAG);
  }

  lemma SearchTextHasTag(month: string, year: int, issue: string, c: string, f: string)
    ensures Contains(SearchText(month, year, issue, c, f, true), UNCOLLECTED_TAG)
  {
    var pre := SearchHead(month, year, issue) + (c + " " + f + " ");
    var x := Lower(pre);
    assert SearchText(month, year, issue, c, f, true) == x + UNCOLLECTED_TAG by {
      assert SearchHead(month, year, issue) + SearchTail(c, f, true) == pre + UNCOLLECTED_TAG;
      LowerAppend(pre, UNCOLLECTED_TAG);
      TagIsLowerCase();
    }
    ContainsAfter(x, UNCOLLECTED_TAG, UNCOLLECTED_TAG);
  }

  /** A record built from a canonical month, an in-range year and a non-empty issue cell is well formed. */
  lemma NewIssueWellFormed(month: string, year: int, issue: string, collectionCell: string,
                           formatCell: string)
    requires month in MONTHS && 1900 < year < 2100 && issue != ""
    ensures WellFormed(NewIssue(month, year, issue, collectionCell, formatCell))
  {
    var u := collectionCell == "";
    LowerIsLowerCase(SearchHead(month, year, issue) + SearchTail(collectionCell, formatCell, u));
    SearchTextStartsWithHead(month, year, issue, collectionCell, formatCell, u);
    if u {
      SearchTextHasTag(month, year, issue, collectionCell, formatCell);
    } else {
      SearchTextHasCollection(month, year, issue, collectionCell, formatCell, u);
    }
  }

  /**
   * The search text is not a function of the record's other fields: two hits that differ only
   * in a format cell that the uncollected sentinel overrides give different search texts.
   */
  lemma SearchIndexNotDerivedFromFields()
    ensures var a := NewIssue("January", 1995, "5", "", "TPB");
            var b := NewIssue("January", 1995, "5", "", "");
            a.(searchIndex := "") == b.(searchIndex := "") && a.searchIndex != b.searchIndex
  {
    var a := NewIssue("January", 1995, "5", "", "TPB");
    var b := NewIssue("January", 1995, "5", "", "");
    assert |a.searchIndex| == |b.searchIndex| + 3;
  }

  /** A collection cell that spells the sentinel yields a record with the sentinel that is not uncollected. */
  lemma SentinelDoesNotImplyUncollected()
    ensures var r := NewIssue("January", 1995, "5", UNCOLLECTED_COLLECTION, "TPB");
            r.collection == UNCOLLECTED_COLLECTION && !r.isUncollected
  {
  }
}

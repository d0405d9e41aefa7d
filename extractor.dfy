/**
 * `parseCSV`: every line of the export becomes a row of cells; the leftmost month/year pair
 * among the first fifteen cells anchors the row, and the cells after it are read as
 * (issue, collection, format) triples, one blank cell at a time being skipped.
 */
module Extractor {
  import opened Wrappers
  import opened Strings
  import opened Months
  import opened Issues
  import opened Csv
  import opened Seqs

  /** The anchor search looks at cell indices below this bound only. */
  const ANCHOR_WINDOW: nat := 15

  /** `row[k] || ""`: the cell at `k`, or the empty string past the end of the row. */
  function CellAt(row: seq<string>, k: nat): string {
    if k < |row| then row[k] else ""
  }

  predicate YearInRange(y: Option<int>) {
    y.Some? && 1900 < y.value < 2100
  }

  /** Cell `j` names a month and cell `j + 1` parses to a year strictly between 1900 and 2100. */
  predicate IsAnchor(row: seq<string>, j: nat) {
    j + 1 < |row| && FindMonth(row[j]).Some? && YearInRange(ParseInt(row[j + 1]))
  }

  /** The anchor test as a predicate on indices. */
  function AnchorTest(row: seq<string>): nat -> bool {
    (j: nat) => IsAnchor(row, j)
  }

  /** The loop bound `j < 15 && j < row.length - 1`. */
  function AnchorBound(row: seq<string>): (b: nat)
    ensures b <= ANCHOR_WINDOW && (b == 0 || b + 1 <= |row|)
    ensures b == ANCHOR_WINDOW || b + 1 >= |row|
  {
    if |row| <= 1 then 0 else if |row| - 1 < ANCHOR_WINDOW then |row| - 1 else ANCHOR_WINDOW
  }

  /** The leftmost anchor: the first index below the bound whose cells pass the anchor test. */
  function LeftmostAnchor(row: seq<string>): (r: Option<nat>)
    ensures r.Some? ==> r.value < ANCHOR_WINDOW
  {
    FirstFrom(AnchorTest(row), 0, AnchorBound(row))
  }

  lemma LeftmostAnchorIsAnchor(row: seq<string>)
    ensures LeftmostAnchor(row).Some? ==> IsAnchor(row, LeftmostAnchor(row).value)
  {
    FirstFromIsFirst(AnchorTest(row), 0, AnchorBound(row));
  }

  /**
   * The anchor is the leftmost index below the window whose cell names a month and whose next
   * cell parses to a year in range; a row without one has no index below the window that is.
   */
  lemma LeftmostAnchorIsFirst(row: seq<string>)
    ensures LeftmostAnchor(row).Some? ==>
              var j := LeftmostAnchor(row).value;
              j < ANCHOR_WINDOW && IsAnchor(row, j) && forall i :: 0 <= i < j ==> !IsAnchor(row, i)
    ensures LeftmostAnchor(row).None? ==> forall i :: 0 <= i < ANCHOR_WINDOW ==> !IsAnchor(row, i)
  {
    FirstFromIsFirst(AnchorTest(row), 0, AnchorBound(row));
    if LeftmostAnchor(row).None? {
      forall i | 0 <= i < ANCHOR_WINDOW
        ensures !IsAnchor(row, i)
      {
        if i < AnchorBound(row) {
          assert !AnchorTest(row)(i);
        }
      }
    } else {
      forall i | 0 <= i < LeftmostAnchor(row).value
        ensures !IsAnchor(row, i)
      {
        assert !AnchorTest(row)(i);
      }
    }
  }

  /** The canonical month name of the anchor at `j` (`foundMonthStr`); only read at an anchor. */
  function AnchorMonth(row: seq<string>, j: nat): string {
    match FindMonth(CellAt(row, j))
    case Some(m) => m
    case None => ""
  }

  /** The year of the anchor at `j`; only read at an anchor. */
  function AnchorYear(row: seq<string>, j: nat): int {
    match ParseInt(CellAt(row, j + 1))
    case Some(y) => y
    case None => 0
  }

  /**
   * The columns the issue scan reads as issue numbers, starting at `col`: a non-empty cell is
   * a hit and the scan moves three cells on, an empty cell moves it one cell on.
   */
  function Hits(row: seq<string>, col: nat): (hits: seq<nat>)
    ensures forall k :: 0 <= k < |hits| ==> col <= hits[k] < |row| && row[hits[k]] != ""
    decreases |row| - col
  {
    if col >= |row| then []
    else if row[col] != "" then [col] + Hits(row, col + 3)
    else Hits(row, col + 1)
  }

  /** Hits ascend, at least three columns apart: the two cells read with a hit are never a hit. */
  lemma {:induction false} HitsAscend(row: seq<string>, col: nat, k: nat, l: nat)
    requires k < l < |Hits(row, col)|
    ensures Hits(row, col)[k] + 3 <= Hits(row, col)[l]
    decreases |row| - col
  {
    if row[col] != "" {
      if k > 0 {
        HitsAscend(row, col + 3, k - 1, l - 1);
      }
    } else {
      HitsAscend(row, col + 1, k, l);
    }
  }

  /** The record for the hit at column `h`: the issue cell and the two cells after it. */
  function RecordAt(row: seq<string>, h: nat, month: string, year: int): IssueRecord {
    NewIssue(month, year, CellAt(row, h), CellAt(row, h + 1), CellAt(row, h + 2))
  }

  function RecordFor(row: seq<string>, month: string, year: int): nat -> IssueRecord {
    (h: nat) => RecordAt(row, h, month, year)
  }

  /** One record per hit, in hit order. */
  function HitRecords(row: seq<string>, hits: seq<nat>, month: string, year: int): seq<IssueRecord> {
    MapSeq(hits, RecordFor(row, month, year))
  }

  /** The records one row contributes: none without an anchor, else one per hit after it. */
  function RowRecords(row: seq<string>): seq<IssueRecord> {
    var anchor := LeftmostAnchor(row);
    if anchor.None? then []
    else
      var j := anchor.value;
      HitRecords(row, Hits(row, j + 2), AnchorMonth(row, j), AnchorYear(row, j))
  }

  /** The records of a sequence of lines, in line order. */
  function ExtractLines(lines: seq<string>): seq<IssueRecord> {
    FlatMap(lines, LineRecords)
  }

  /** The records of one line of the export. */
  function LineRecords(line: string): seq<IssueRecord> {
    RowRecords(Row(line))
  }

  /** The records `parseCSV` returns for `text`. */
  function Extract(text: string): seq<IssueRecord> {
    ExtractLines(SplitOn(text, '\n'))
  }

  /** One turn of the anchor search: does cell `j` name a month with a year in range after it? */
  method TestAnchor(row: seq<string>, j: nat) returns (found: bool, monthName: string)
    requires j + 1 < |row|
    ensures found == AnchorTest(row)(j)
    ensures found ==> IsAnchor(row, j) && monthName == AnchorMonth(row, j)
  {
    found, monthName := false, "";
    var cell := row[j];
    var matchMonth := FindMonth(cell);
    if matchMonth.Some? {
      var potentialYear := ParseInt(row[j + 1]);
      if potentialYear.Some? && 1900 < potentialYear.value < 2100 {
        found, monthName := true, matchMonth.value;
      }
    }
  }

  /** The anchor search: a bounded `for` loop that stops at the first month/year pair. */
  method FindAnchor(row: seq<string>) returns (monthIndex: int, foundMonthStr: string)
    ensures monthIndex == -1 <==> LeftmostAnchor(row).None?
    ensures monthIndex != -1 ==> LeftmostAnchor(row) == Some(monthIndex)
    ensures monthIndex != -1 ==> IsAnchor(row, monthIndex) && foundMonthStr == AnchorMonth(row, monthIndex)
  {
    monthIndex := -1;
    foundMonthStr := "";
    var j: nat := 0;
    while j < ANCHOR_WINDOW && j < |row| - 1
      invariant monthIndex == -1
      invariant FirstFrom(AnchorTest(row), j, AnchorBound(row)) == LeftmostAnchor(row)
    {
      var found, monthName := TestAnchor(row, j);
      if found {
        FirstFromHit(AnchorTest(row), j, AnchorBound(row));
        monthIndex := j;
        foundMonthStr := monthName;
        break;
      }
      FirstFromSkip(AnchorTest(row), j, AnchorBound(row));
      j := j + 1;
    }
    if monthIndex == -1 {
      FirstFromEnd(AnchorTest(row), j, AnchorBound(row));
    }
  }

  /** One step of the issue scan, on the records it yields. */
  lemma ScanStep(row: seq<string>, col: nat, month: string, year: int)
    requires col < |row|
    ensures row[col] != "" ==>
              HitRecords(row, Hits(row, col), month, year)
              == [NewIssue(month, year, row[col], CellAt(row, col + 1), CellAt(row, col + 2))]
                 + HitRecords(row, Hits(row, col + 3), month, year)
    ensures row[col] == "" ==>
              HitRecords(row, Hits(row, col), month, year) == HitRecords(row, Hits(row, col + 1), month, year)
  {
    if row[col] != "" {
      MapSeqCons(col, Hits(row, col + 3), RecordFor(row, month, year));
    }
  }

  lemma ShiftOne<T>(front: seq<T>, x: T, back: seq<T>, total: seq<T>)
    requires front + ([x] + back) == total
    ensures (front + [x]) + back == total
  {
    assert front + ([x] + back) == (front + [x]) + back;
  }

  /** The issue scan: a `while` loop that steps `col` by three after a hit and by one otherwise. */
  method ScanIssues(row: seq<string>, start: nat, month: string, year: int)
    returns (found: seq<IssueRecord>)
    ensures found == HitRecords(row, Hits(row, start), month, year)
  {
    found := [];
    var col := start;
    while col < |row|
      invariant start <= col
      invariant found + HitRecords(row, Hits(row, col), month, year)
                == HitRecords(row, Hits(row, start), month, year)
      decreases |row| - col
    {
      var val := row[col];
      if val != "" {
        var collectionName := CellAt(row, col + 1);
        var format := CellAt(row, col + 2);
        var record := NewIssue(month, year, val, collectionName, format);
        ScanStep(row, col, month, year);
        ShiftOne(found, record, HitRecords(row, Hits(row, col + 3), month, year),
                 HitRecords(row, Hits(row, start), month, year));
        found := found + [record];
        col := col + 3;
      } else {
        ScanStep(row, col, month, year);
        col := col + 1;
      }
    }
  }

  lemma ExtractLinesStep(lines: seq<string>, i: nat)
    requires i < |lines|
    ensures ExtractLines(lines[..i + 1]) == ExtractLines(lines[..i]) + RowRecords(Row(lines[i]))
  {
    assert lines[..i + 1][..i] == lines[..i];
  }

  /** `parseCSV`: the lines in file order, each skipped without an anchor or else scanned. */
  method ParseCSV(text: string) returns (issues: seq<IssueRecord>)
    ensures issues == Extract(text)
  {
    var lines := SplitOn(text, '\n');
    issues := [];
    for i := 0 to |lines|
      invariant issues == ExtractLines(lines[..i])
    {
      ExtractLinesStep(lines, i);
      var cells := SplitCells(lines[i]);
      var row := CleanRow(cells);
      ghost var records := RowRecords(row);
      var monthIndex, foundMonthStr := FindAnchor(row);
      if monthIndex == -1 {
        assert records == [];
        continue;
      }
      var month := foundMonthStr;
      var year := ParseInt(row[monthIndex + 1]).value;
      var found := ScanIssues(row, monthIndex + 2, month, year);
      assert found == records;
      issues := issues + found;
    }
    assert lines[..|lines|] == lines;
  }

  /** The number of non-empty cells at or after `col`. */
  function NonEmptyFrom(row: seq<string>, col: nat): nat
    decreases |row| - col
  {
    if col >= |row| then 0 else (if row[col] != "" then 1 else 0) + NonEmptyFrom(row, col + 1)
  }

  lemma {:induction false} NonEmptyMonotone(row: seq<string>, a: nat, b: nat)
    requires a <= b
    ensures NonEmptyFrom(row, b) <= NonEmptyFrom(row, a)
    decreases b - a
  {
    if a < b {
      NonEmptyMonotone(row, a + 1, b);
    }
  }

  /** The scan finds at most as many issues as there are non-empty cells from its start on. */
  lemma {:induction false} HitsBound(row: seq<string>, col: nat)
    ensures |Hits(row, col)| <= NonEmptyFrom(row, col)
    decreases |row| - col
  {
    if col < |row| {
      if row[col] != "" {
        HitsBound(row, col + 3);
        NonEmptyMonotone(row, col + 1, col + 3);
      } else {
        HitsBound(row, col + 1);
      }
    }
  }

  /**
   * No non-empty cell from the start on escapes the scan: each is the issue cell of a hit or
   * one of the two cells read with it.
   */
  lemma {:induction false} NonEmptyCellCovered(row: seq<string>, col: nat, p: nat)
    requires col <= p < |row| && row[p] != ""
    ensures exists k :: 0 <= k < |Hits(row, col)| && Hits(row, col)[k] <= p <= Hits(row, col)[k] + 2
    decreases |row| - col
  {
    var hits := Hits(row, col);
    if row[col] != "" {
      if p <= col + 2 {
        assert hits[0] == col;
      } else {
        NonEmptyCellCovered(row, col + 3, p);
        var k :| 0 <= k < |Hits(row, col + 3)| && Hits(row, col + 3)[k] <= p <= Hits(row, col + 3)[k] + 2;
        assert hits[k + 1] == Hits(row, col + 3)[k];
      }
    } else {
      NonEmptyCellCovered(row, col + 1, p);
    }
  }

  lemma HitRecordsAt(row: seq<string>, hits: seq<nat>, month: string, year: int, k: nat)
    requires k < |hits|
    ensures |HitRecords(row, hits, month, year)| == |hits|
    ensures HitRecords(row, hits, month, year)[k] == RecordAt(row, hits[k], month, year)
  {
  }

  /**
   * The record of the hit at column `h`: its issue number is that cell; it is uncollected
   * exactly when the next cell is empty or absent, and then carries both sentinels, else that
   * collection cell and the format cell or "Unknown"; its search text uses the raw cells.
   */
  lemma RecordAtFacts(row: seq<string>, h: nat, month: string, year: int)
    requires h < |row|
    ensures var r := RecordAt(row, h, month, year);
            && r.month == month && r.year == year && r.issueNumber == row[h]
            && (r.isUncollected <==> h + 1 >= |row| || row[h + 1] == "")
            && (r.isUncollected ==> r.collection == UNCOLLECTED_COLLECTION && r.format == NOT_PRINTED)
            && (!r.isUncollected ==> r.collection == row[h + 1])
            && (!r.isUncollected && (h + 2 >= |row| || row[h + 2] == "") ==> r.format == UNKNOWN_FORMAT)
            && (!r.isUncollected && h + 2 < |row| && row[h + 2] != "" ==> r.format == row[h + 2])
            && r.searchIndex == SearchText(month, year, row[h], CellAt(row, h + 1), CellAt(row, h + 2),
                                           r.isUncollected)
  {
  }

  /**
   * Record `k` of a row is the record of the `k`-th hit of the scan that starts two cells after
   * the row's anchor, built with the anchor's month and year.
   */
  lemma RowRecordFacts(row: seq<string>, k: nat)
    requires k < |RowRecords(row)|
    ensures LeftmostAnchor(row).Some?
    ensures var j := LeftmostAnchor(row).value;
            var hits := Hits(row, j + 2);
            k < |hits| && j + 2 <= hits[k] < |row| && row[hits[k]] != ""
            && RowRecords(row)[k] == RecordAt(row, hits[k], AnchorMonth(row, j), AnchorYear(row, j))
  {
    var j := LeftmostAnchor(row).value;
    var hits := Hits(row, j + 2);
    var month, year := AnchorMonth(row, j), AnchorYear(row, j);
    assert RowRecords(row) == HitRecords(row, hits, month, year);
    HitRecordsAt(row, hits, month, year, k);
  }

  /** Record `k` of a row carries the issue cell of hit `k`. */
  lemma RowRecordIssue(row: seq<string>, k: nat)
    requires k < |RowRecords(row)|
    ensures LeftmostAnchor(row).Some?
    ensures var hits := Hits(row, LeftmostAnchor(row).value + 2);
            k < |hits| && hits[k] < |row| && RowRecords(row)[k].issueNumber == row[hits[k]]
  {
    var j := LeftmostAnchor(row).value;
    var hits := Hits(row, j + 2);
    RowRecordsOfAnchor(row, j);
    HitRecordsAt(row, hits, AnchorMonth(row, j), AnchorYear(row, j), k);
    RecordAtIssue(row, hits[k], AnchorMonth(row, j), AnchorYear(row, j));
  }

  /** Every record of a row carries the month its anchor cell names and the year the next cell parses to. */
  lemma {:induction false} RowRecordsShareAnchor(row: seq<string>, k: nat)
    requires k < |RowRecords(row)|
    ensures LeftmostAnchor(row).Some? && LeftmostAnchor(row).value + 1 < |row|
    ensures var j := LeftmostAnchor(row).value;
            FindMonth(row[j]) == Some(RowRecords(row)[k].month)
            && ParseInt(row[j + 1]) == Some(RowRecords(row)[k].year)
  {
    RowRecordAnchor(row, k);
    AnchorCells(row);
  }

  /** Record `k` of a row carries the month and year read at the row's anchor. */
  lemma RowRecordAnchor(row: seq<string>, k: nat)
    requires k < |RowRecords(row)|
    ensures LeftmostAnchor(row).Some?
    ensures var j := LeftmostAnchor(row).value;
            RowRecords(row)[k].month == AnchorMonth(row, j) && RowRecords(row)[k].year == AnchorYear(row, j)
  {
    RowRecordFacts(row, k);
    var j := LeftmostAnchor(row).value;
    var h := Hits(row, j + 2)[k];
    RecordAtAnchor(row, h, AnchorMonth(row, j), AnchorYear(row, j));
  }

  lemma RecordAtAnchor(row: seq<string>, h: nat, month: string, year: int)
    ensures RecordAt(row, h, month, year).month == month && RecordAt(row, h, month, year).year == year
  {
  }

  /** At the anchor, the month and year the scan uses are what the two anchor cells yield. */
  lemma AnchorCells(row: seq<string>)
    requires LeftmostAnchor(row).Some?
    ensures var j := LeftmostAnchor(row).value;
            j + 1 < |row| && FindMonth(row[j]) == Some(AnchorMonth(row, j))
            && ParseInt(row[j + 1]) == Some(AnchorYear(row, j))
  {
    LeftmostAnchorIsAnchor(row);
  }

  lemma RecordAtIssue(row: seq<string>, h: nat, month: string, year: int)
    requires h < |row|
    ensures RecordAt(row, h, month, year).issueNumber == row[h]
  {
  }

  /** The records of one row keep the row's left-to-right order: their hits ascend. */
  lemma RowRecordsInScanOrder(row: seq<string>, k: nat, l: nat)
    requires k < l < |RowRecords(row)|
    ensures LeftmostAnchor(row).Some?
    ensures var hits := Hits(row, LeftmostAnchor(row).value + 2);
            l < |hits| && hits[k] + 3 <= hits[l]
            && RowRecords(row)[k].issueNumber == row[hits[k]]
            && RowRecords(row)[l].issueNumber == row[hits[l]]
  {
    RowRecordIssue(row, k);
    RowRecordIssue(row, l);
    HitsAscend(row, LeftmostAnchor(row).value + 2, k, l);
  }

  /** A row yields no more records than it has non-empty cells after its anchor, and none without one. */
  lemma RowRecordsBound(row: seq<string>)
    ensures LeftmostAnchor(row).None? ==> RowRecords(row) == []
    ensures LeftmostAnchor(row).Some? ==>
              |RowRecords(row)| <= NonEmptyFrom(row, LeftmostAnchor(row).value + 2)
  {
    if LeftmostAnchor(row).Some? {
      HitsBound(row, LeftmostAnchor(row).value + 2);
    }
  }

  /** Every record of a row is well formed: canonical month, year in range, sentinels consistent. */
  lemma RowRecordsWellFormed(row: seq<string>)
    ensures forall r :: r in RowRecords(row) ==> WellFormed(r)
  {
    forall r | r in RowRecords(row)
      ensures WellFormed(r)
    {
      var k :| 0 <= k < |RowRecords(row)| && RowRecords(row)[k] == r;
      RowRecordFacts(row, k);
      LeftmostAnchorIsAnchor(row);
      var j := LeftmostAnchor(row).value;
      FindMonthCanonical(row[j]);
      var h := Hits(row, j + 2)[k];
      RecordAtFacts(row, h, AnchorMonth(row, j), AnchorYear(row, j));
      NewIssueWellFormed(AnchorMonth(row, j), AnchorYear(row, j), row[h], CellAt(row, h + 1), CellAt(row, h + 2));
    }
  }

  /** Extraction distributes over the lines: the records of `a + b` are those of `a`, then those of `b`. */
  lemma ExtractLinesAppend(a: seq<string>, b: seq<string>)
    ensures ExtractLines(a + b) == ExtractLines(a) + ExtractLines(b)
  {
    FlatMapAppend(a, b, LineRecords);
  }

  /** Records come out in file-line order: a line's records sit between those of the lines around it. */
  lemma LineOrder(before: seq<string>, line: string, after: seq<string>)
    ensures ExtractLines(before + [line] + after)
            == ExtractLines(before) + RowRecords(Row(line)) + ExtractLines(after)
  {
    ExtractLinesAppend(before + [line], after);
    ExtractLinesAppend(before, [line]);
    assert [line][..0] == [];
  }

  /** Lines none of which has an anchor yield no records at all. */
  lemma {:induction false} NoAnchorNoRecords(lines: seq<string>)
    requires forall i :: 0 <= i < |lines| ==> LeftmostAnchor(Row(lines[i])).None?
    ensures ExtractLines(lines) == []
  {
    if lines != [] {
      NoAnchorNoRecords(lines[..|lines| - 1]);
      assert LineRecords(lines[|lines| - 1]) == [];
    }
  }

  /** Every record `parseCSV` returns is well formed. */
  lemma {:induction false} ExtractWellFormed(lines: seq<string>)
    ensures forall r :: r in ExtractLines(lines) ==> WellFormed(r)
  {
    if lines != [] {
      ExtractWellFormed(lines[..|lines| - 1]);
      RowRecordsWellFormed(Row(lines[|lines| - 1]));
      assert ExtractLines(lines) == ExtractLines(lines[..|lines| - 1]) + LineRecords(lines[|lines| - 1]);
    }
  }

  /** The year cell "1995" parses to the year 1995. */
  lemma Render1995()
    ensures ParseInt("1995") == Some(1995)
  {
    assert NatToString(1) == "1";
    assert NatToString(19) == "19";
    assert NatToString(199) == "199";
    assert NatToString(1995) == "1995";
    ParseIntOfRendering(1995, "");
    assert NatToString(1995) + "" == "1995";
  }

  lemma RowRecordsOfAnchor(row: seq<string>, j: nat)
    requires LeftmostAnchor(row) == Some(j)
    ensures RowRecords(row) == HitRecords(row, Hits(row, j + 2), AnchorMonth(row, j), AnchorYear(row, j))
  {
  }

  const TITLE_ROW: seq<string> :=
    ["Uncanny X-Men", "January", "1995", "1", "X-Men Omnibus Vol 1", "Omnibus", "2", "", ""]

  lemma TitleRowAnchor(row: seq<string>)
    requires row == TITLE_ROW
    ensures LeftmostAnchor(row) == Some(1)
    ensures IsAnchor(row, 1) && AnchorMonth(row, 1) == "January" && AnchorYear(row, 1) == 1995
  {
    var test := AnchorTest(row);
    assert AnchorBound(row) == 8;
    LongCellNamesNoMonth(row[0]);
    assert !test(0);
    FirstFromSkip(test, 0, 8);
    assert SameMonth(MONTHS, row[1], 0);
    FindMonthFirst(row[1]);
    assert row[2] == "1995";
    Render1995();
    assert test(1);
    FirstFromHit(test, 1, 8);
  }

  lemma TitleRowHits(row: seq<string>)
    requires row == TITLE_ROW
    ensures Hits(row, 3) == [3, 6]
  {
    assert Hits(row, 9) == [];
    assert Hits(row, 6) == [6];
  }

  /** A leading title cell, the anchor "January", "1995", then issue 1 in a collection and issue 2 alone. */
  lemma ScenarioTitleThenAnchor(row: seq<string>)
    requires row == TITLE_ROW
    ensures var rs := RowRecords(row);
            && |rs| == 2
            && rs[0].month == "January" && rs[0].year == 1995 && rs[0].issueNumber == "1"
            && rs[0].collection == "X-Men Omnibus Vol 1" && rs[0].format == "Omnibus" && !rs[0].isUncollected
            && rs[1].month == "January" && rs[1].year == 1995 && rs[1].issueNumber == "2"
            && rs[1].collection == UNCOLLECTED_COLLECTION && rs[1].format == NOT_PRINTED && rs[1].isUncollected
  {
    TitleRowAnchor(row);
    TitleRowHits(row);
    RowRecordsOfAnchor(row, 1);
    HitRecordsAt(row, [3, 6], "January", 1995, 0);
    HitRecordsAt(row, [3, 6], "January", 1995, 1);
    RecordAtFacts(row, 3, "January", 1995);
    RecordAtFacts(row, 6, "January", 1995);
  }

  const RESYNC_ROW: seq<string> := ["January", "1995", "5", "", "", "6", "Vol2", "TPB"]

  lemma ResyncRowAnchor(row: seq<string>)
    requires row == RESYNC_ROW
    ensures LeftmostAnchor(row) == Some(0)
    ensures IsAnchor(row, 0) && AnchorMonth(row, 0) == "January" && AnchorYear(row, 0) == 1995
  {
    JanuaryAnchor(row);
  }

  /** A row that opens with "January" and "1995" is anchored at its first cell. */
  lemma JanuaryAnchor(row: seq<string>)
    requires |row| >= 2 && row[0] == "January" && row[1] == "1995"
    ensures LeftmostAnchor(row) == Some(0)
    ensures IsAnchor(row, 0) && AnchorMonth(row, 0) == "January" && AnchorYear(row, 0) == 1995
  {
    var test := AnchorTest(row);
    assert SameMonth(MONTHS, row[0], 0);
    FindMonthFirst(row[0]);
    Render1995();
    assert test(0);
    FirstFromHit(test, 0, AnchorBound(row));
  }

  lemma ResyncRowHits(row: seq<string>)
    requires row == RESYNC_ROW
    ensures Hits(row, 2) == [2, 5]
  {
    assert Hits(row, 8) == [];
    assert Hits(row, 5) == [5];
    assert Hits(row, 3) == [5] && Hits(row, 4) == [5];
  }

  /** An issue with a blank collection and format, then a complete triple: both are found. */
  lemma ScenarioBlankCollectionResync(row: seq<string>)
    requires row == RESYNC_ROW
    ensures var rs := RowRecords(row);
            && |rs| == 2
            && rs[0].issueNumber == "5" && rs[0].isUncollected
            && rs[0].collection == UNCOLLECTED_COLLECTION && rs[0].format == NOT_PRINTED
            && rs[1].issueNumber == "6" && !rs[1].isUncollected
            && rs[1].collection == "Vol2" && rs[1].format == "TPB"
  {
    ResyncRowAnchor(row);
    ResyncRowHits(row);
    RowRecordsOfAnchor(row, 0);
    HitRecordsAt(row, [2, 5], "January", 1995, 0);
    HitRecordsAt(row, [2, 5], "January", 1995, 1);
    RecordAtFacts(row, 2, "January", 1995);
    RecordAtFacts(row, 5, "January", 1995);
  }

  /**
   * A line of text, through the whole extraction: `January,1995,<issue>,<collection>,"<format>"`
   * gives one record, whose format is the quoted cell's text, commas included.
   */
  lemma ExtractQuotedFormat(issue: string, collection: string, format: string)
    requires BareCell(issue) && issue != "" && BareCell(collection) && '"' !in format
    requires '\n' !in issue && '\n' !in collection && '\n' !in format
    ensures Extract("January,1995," + issue + "," + collection + ",\"" + format + "\"")
            == [NewIssue("January", 1995, issue, collection, format)]
  {
    var text := "January,1995," + issue + "," + collection + ",\"" + format + "\"";
    var row := ["January", "1995", issue, collection, format];
    SingleIssueRow(row);
    QuotedLineText(issue, collection, format);
    ExtractOneLine(text);
  }

  /** A text without line breaks yields the records of its one row. */
  lemma ExtractOneLine(text: string)
    requires '\n' !in text
    ensures Extract(text) == RowRecords(Row(text))
  {
    SplitOnAbsent(text, '\n');
    assert [text][..0] == [];
    assert FlatMap([text][..0], LineRecords) == [];
  }

  /** The row of that line is its five cells, the format without its quotes; it holds no line break. */
  lemma QuotedLineText(issue: string, collection: string, format: string)
    requires BareCell(issue) && BareCell(collection) && '"' !in format
    requires '\n' !in issue && '\n' !in collection && '\n' !in format
    ensures var text := "January,1995," + issue + "," + collection + ",\"" + format + "\"";
            '\n' !in text && Row(text) == ["January", "1995", issue, collection, format]
  {
    var cells := ["January", "1995", issue, collection];
    QuotedLineJoin(issue, collection, format);
    assert BareCell("January") && BareCell("1995");
    RowOfPlainThenQuoted(cells, format);
    assert cells + [format] == ["January", "1995", issue, collection, format];
  }

  /** That line is the comma-join of its four bare cells and the quoted format cell. */
  lemma QuotedLineJoin(issue: string, collection: string, format: string)
    ensures JoinWith(["January", "1995", issue, collection] + ["\"" + format + "\""], ',')
            == "January,1995," + issue + "," + collection + ",\"" + format + "\""
  {
    var q := "\"" + format + "\"";
    var cells := ["January", "1995", issue, collection];
    assert cells + [q] == ["January"] + (["1995"] + ([issue] + ([collection] + [q])));
    JoinCons(collection, [q], ',');
    JoinCons(issue, [collection] + [q], ',');
    JoinCons("1995", [issue] + ([collection] + [q]), ',');
    JoinCons("January", ["1995"] + ([issue] + ([collection] + [q])), ',');
    assert "January" + [','] + ("1995" + [','] + (issue + [','] + (collection + [','] + q)))
           == "January,1995," + issue + "," + collection + ",\"" + format + "\"";
  }

  /** Five cells anchored at the first, with a non-empty issue cell, give the one record of that triple. */
  lemma SingleIssueRow(row: seq<string>)
    requires |row| == 5 && row[0] == "January" && row[1] == "1995" && row[2] != ""
    ensures RowRecords(row) == [NewIssue("January", 1995, row[2], row[3], row[4])]
  {
    JanuaryAnchor(row);
    assert Hits(row, 5) == [];
    assert Hits(row, 2) == [2];
    RowRecordsOfAnchor(row, 0);
    HitRecordsAt(row, [2], "January", 1995, 0);
  }
}

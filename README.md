# Cerebro catalog core, modelled in Dafny

Cerebro is a single-page catalog of X-Men comic issues. Its logic sits in `src/App.jsx` and
has four parts, which this project models and proves properties of:

- **The spreadsheet importer `parseCSV`.**
  - It splits the export into lines and splits each line into cells. A comma separates two cells
    only when the rest of the line after it holds an even number of double quotes.
  - It trims each cell and strips one leading and one trailing double quote.
  - It anchors each row at the leftmost month-name cell among the first fifteen whose next cell
    parses to a year strictly between 1900 and 2100.
  - It then reads the cells after the anchor as (issue, collection, format) triples. An empty
    cell is skipped one column at a time.
  - Each hit yields a record. An empty collection cell marks the record uncollected and brings in
    the sentinels "Uncollected / Single Issue" and "Not Printed". A blank format otherwise becomes
    "Unknown". The hit's lower-cased search text is built from the raw cells.
- **Month lookup and chronological order.**
  - `getMonthIndex` finds a month name ignoring case, or returns -1.
  - The comparator orders records by year, then by month index.
  - `Array.prototype.sort` applies it to the catalog in place.
- **`handleSearch`.**
  - A blank query does nothing.
  - A query of exactly four digits is a year lookup.
  - Any other query goes to an external translator. Its answer is applied as up to three filters:
    year, case-insensitive month, and search-text substring. When the translator fails, a plain
    substring search is used instead.
- **The daily feature.** It picks one year, by day of year, from the catalog's distinct sorted
  years. It then shows that year's records of the current month.

Modules, one file each:

| module | file | models |
|---|---|---|
| `Wrappers` | `wrappers.dfy` | `Option` |
| `Strings` | `strings.dfy` | `trim`; ASCII `toLowerCase`; `includes`; `split` on one character; decimal `parseInt`; rendering an integer in a template string |
| `Months` | `months.dfy` | `MONTHS`, `getMonthIndex`, the `MONTHS.find` of the importer |
| `Issues` | `issues.dfy` | the record, its sentinels and search text, the invariant every imported record keeps |
| `Csv` | `csv.dfy` | the quote-parity cell split (an explicit scan) and the cell clean-up |
| `Extractor` | `extractor.dfy` | the anchor search, the issue scan and `parseCSV` itself, as methods with loops, each proved equal to a functional specification |
| `Seqs` | `seqs.dfy` | `filter`, the first-index search, `map`, and the collection of records line by line that `parseCSV`'s outer loop performs |
| `Sorting` | `sorting.dfy` | a stable in-place sort driven by a three-way comparator |
| `Ordering` | `ordering.dfy` | the catalog comparator and the in-place sort of the catalog |
| `Search` | `search.dfy` | `handleSearch` without the network call |
| `Daily` | `daily.dfy` | the daily feature |

The imperative parts of `parseCSV` are methods: the outer loop over lines, the anchor loop that
breaks on the first hit, the column scan, and the cell split. Each method's `ensures` ties its
result to a function (`Extract`, `LeftmostAnchor`, `HitRecords`, `Fields`). The properties the
importer promises are proved about those functions.

The catalog sort works in place on an `array`. It is proved to leave the array equal to
`SortSpec` of its old contents. `SortSpec` is proved to be:

- a permutation of its input;
- ordered by the comparator;
- stable;
- idempotent;
- the unique sequence with those properties, so any stable sort gives the same result.

## Where the code and its documented behaviour differ

The app's documentation describes a few behaviours differently from what `src/App.jsx` does.
The model follows the code in each of these cases.

- **Search text.** The documentation says a record's search text can always be rebuilt from
  its other fields. The code builds it from the raw collection and format cells, not from the
  fields it stores. Two hits that differ only in a format cell that the uncollected sentinel
  overrides store equal fields but different search texts.
  `Issues.SearchIndexNotDerivedFromFields` exhibits such a pair.
- **Sentinel and `isUncollected`.** The documentation states that `isUncollected` holds if and
  only if the collection is the sentinel. The code only implies one direction. A collection
  cell that spells the sentinel gives a record that is not uncollected; see
  `Issues.SentinelDoesNotImplyUncollected`.
- **Abbreviated month names.** The documentation's first example row writes the month as
  "Jan". The code's lookup compares whole names only, so "Jan" names no month
  (`Months.AbbreviationNamesNoMonth`). The example's record is modelled on the cell layout the
  documentation gives alongside it ("January"), in `Extractor.ScenarioTitleThenAnchor`.
- **Which quotes the comma split counts.** The documentation phrases the cell split in terms
  of the quotes since the start of the line. The code's lookahead counts the quotes after the
  comma. The two agree on lines with balanced quotes. The model counts what the code counts.
- **Daily rotation period.** The documentation says the featured year rotates once per
  365/366-day cycle. The code uses `dayOfYear mod n`, where `n` is the number of distinct
  years, so it visits every year within any `n` consecutive days (`Daily.EveryYearFeatured`).

## Model

| member | source | states |
|---|---|---|
| `Strings.Trim` | src/App.jsx:348 | `trim` never lengthens its input, and the result is empty exactly when the input is whitespace only |
| `Strings.EqualIgnoringCaseIsLower` | src/App.jsx:78 | the case-insensitive comparison holds exactly when both lower-cased texts are equal |
| `Strings.SplitOn` | src/App.jsx:82 | `split('\n')` yields at least one piece, and no piece contains the separator |
| `Strings.SplitOnAbsent` | src/App.jsx:82 | a text without the separator splits into itself alone |
| `Strings.TrimUnchanged` | src/App.jsx:87 | a text that neither starts nor ends with whitespace is its own trim |
| `Strings.JoinSplitOn` | src/App.jsx:82 | splitting into lines loses nothing: joining the pieces with the separator gives the text back |
| `Strings.ParseIntOfRendering` | src/App.jsx:98 | `parseInt` reads back the decimal rendering of a number whatever non-digit text follows it (`"1995x"` is 1995) |
| `Strings.FourDigitRendering` | src/App.jsx:351 | every year from 1000 to 9999 renders as exactly four digits |
| `Months.MonthNamesNonEmpty` | src/App.jsx:71-74 | there are twelve month names, each 3 to 9 characters long |
| `Months.IndexFrom` | src/App.jsx:78 | the `findIndex` search returns -1 or an index at or after its start whose name matches |
| `Months.IndexFromNone` | src/App.jsx:78 | the search returns -1 exactly when no name from its start on matches |
| `Months.IndexFromFirst` | src/App.jsx:78 | a found index is the first match: no earlier name from the start matches |
| `Months.GetMonthIndex` | src/App.jsx:76-79 | `getMonthIndex` lies between -1 and 11, and any other result than -1 is a month the argument names |
| `Months.GetMonthIndexFirst` | src/App.jsx:76-79 | `getMonthIndex` is -1 exactly when no month matches (the empty-string guard included), and otherwise the first match |
| `Months.FindMonthAgreesWithIndex` | src/App.jsx:95 | the importer's `find` fails exactly when `getMonthIndex` is -1, and otherwise returns the name at that index |
| `Months.FindMonthCanonical` | src/App.jsx:95 | a found month is one of the twelve canonical names, lower-cases like the cell, and has an index of its own |
| `Months.LongCellNamesNoMonth` | src/App.jsx:95 | a cell longer than nine characters names no month |
| `Months.AbbreviationNamesNoMonth` | src/App.jsx:76-79 | the abbreviation "Jan" names no month for either lookup |
| `Issues.SearchTextStartsWithHead` | src/App.jsx:130 | the search text starts with the lower-cased month, year and issue number |
| `Issues.SearchTextHasCollection` | src/App.jsx:130 | the search text contains the lower-cased raw collection cell |
| `Issues.SearchTextHasTag` | src/App.jsx:130 | the search text of an uncollected hit contains "uncollected missing" |
| `Issues.NewIssueWellFormed` | src/App.jsx:119-131 | a record built from a canonical month, a year in range and a non-empty issue cell keeps every record invariant |
| `Issues.SearchIndexNotDerivedFromFields` | src/App.jsx:127-130 | two hits whose stored fields are equal can have different search texts |
| `Issues.SentinelDoesNotImplyUncollected` | src/App.jsx:121-127 | a collection cell that spells the sentinel gives a record that carries the sentinel and is not uncollected |
| `Csv.SplitCells` | src/App.jsx:87 | the scan from the end of the line, tracking the quote parity of the rest of the line, returns exactly the cells of the regular-expression split |
| `Csv.JoinFields` | src/App.jsx:87 | the cell split loses nothing: joining the cells with commas gives the line back |
| `Csv.FieldsWithoutQuotes` | src/App.jsx:87 | on a line without quotes every comma separates cells |
| `Csv.QuotedCommaKept` | src/App.jsx:87 | in `x,"a,b"` the quoted comma does not separate cells |
| `Csv.StripQuotesOfQuoted` | src/App.jsx:87 | the clean-up removes one enclosing pair of quotes |
| `Csv.StripQuotesOfBare` | src/App.jsx:87 | a cell that neither starts nor ends with a quote is left alone |
| `Csv.StripQuotesOfLeading` | src/App.jsx:87 | a quote at the start only is removed, and a lone quote becomes the empty cell |
| `Csv.StripQuotesOfTrailing` | src/App.jsx:87 | a quote at the end only is removed |
| `Csv.FieldsAtDelimiter` | src/App.jsx:87 | a comma with an even number of quotes after it separates: the cells before it (a quote-free text) come first, then those after it |
| `Csv.FieldsOfQuoted` | src/App.jsx:87 | a quoted cell whose text has no quotes stays one cell whatever commas it holds |
| `Csv.FieldsOfPlainThenQuoted` | src/App.jsx:87 | a line of cells without commas or quotes, then one quoted cell, splits into exactly those cells |
| `Csv.RowOfPlainThenQuoted` | src/App.jsx:87 | the row of such a line is its bare cells unchanged, then the quoted cell's text without its quotes |
| `Extractor.AnchorBound` | src/App.jsx:93 | the anchor loop reads at most the first fifteen cells and never the last one |
| `Extractor.LeftmostAnchorIsFirst` | src/App.jsx:93-105 | the anchor is the leftmost index below fifteen that passes the month and year tests; without one, no index below fifteen passes |
| `Extractor.TestAnchor` | src/App.jsx:94-104 | one turn of the anchor loop succeeds exactly when the anchor test holds, and then yields the canonical month name |
| `Extractor.FindAnchor` | src/App.jsx:90-105 | the anchor loop with its `break` returns -1 exactly when there is no anchor, and otherwise the leftmost anchor and its month name |
| `Extractor.Hits` | src/App.jsx:113-137 | every column the scan reads as an issue lies in the row, at or after the start, and holds a non-empty cell |
| `Extractor.HitsAscend` | src/App.jsx:133 | hits ascend at least three columns apart, so the two cells read with a hit are never hits |
| `Extractor.HitsBound` | src/App.jsx:113-137 | the scan finds no more issues than there are non-empty cells from its start |
| `Extractor.NonEmptyCellCovered` | src/App.jsx:113-137 | every non-empty cell from the start is a hit or one of the two cells read with a hit |
| `Extractor.ScanStep` | src/App.jsx:115-136 | a non-empty cell adds its record and moves on by three; an empty one moves on by one |
| `Extractor.ScanIssues` | src/App.jsx:113-137 | the scan loop returns one record per hit, in column order |
| `Extractor.ParseCSV` | src/App.jsx:81-140 | `parseCSV` returns the records of its lines, in line order, each line skipped without an anchor and otherwise scanned after it |
| `Extractor.RecordAtFacts` | src/App.jsx:119-130 | a hit is uncollected exactly when the next cell is empty or absent; the record then carries both sentinels, and otherwise the collection cell and the format cell or "Unknown"; its search text uses the raw cells |
| `Extractor.RowRecordFacts` | src/App.jsx:107-137 | record `k` of a row comes from hit `k` of the scan: a non-empty cell at or after the anchor plus two, with the anchor's month and year |
| `Extractor.RowRecordIssue` | src/App.jsx:126 | record `k` of a row has as issue number the cell of hit `k` |
| `Extractor.RowRecordsShareAnchor` | src/App.jsx:109-110 | every record of a row has the month its anchor cell names and the year the next cell parses to |
| `Extractor.RowRecordsInScanOrder` | src/App.jsx:113-137 | a row's records come out in left-to-right order, their issue cells at least three columns apart |
| `Extractor.RowRecordsBound` | src/App.jsx:107-137 | a row without an anchor yields nothing, and no row yields more records than it has non-empty cells after the anchor |
| `Extractor.RowRecordsWellFormed` | src/App.jsx:93-131 | every record of a row is well formed: canonical month, year in range, non-empty issue number, consistent sentinels, lower-case search text holding the right parts |
| `Extractor.ExtractLinesAppend` | src/App.jsx:85-139 | the records of two blocks of lines are those of the first, then those of the second |
| `Extractor.LineOrder` | src/App.jsx:85-139 | a line's records sit between those of the lines before it and those after it |
| `Extractor.NoAnchorNoRecords` | src/App.jsx:107 | lines none of which has an anchor yield no records |
| `Extractor.ExtractWellFormed` | src/App.jsx:81-140 | every record `parseCSV` returns is well formed |
| `Extractor.ScenarioTitleThenAnchor` | src/App.jsx:93-137 | a title cell, "January", "1995", issue 1 in an omnibus and issue 2 alone give exactly those two records |
| `Extractor.ExtractQuotedFormat` | src/App.jsx:81-140 | the text `January,1995,<issue>,<collection>,"<format>"` is split, cleaned, anchored and scanned into exactly one record, whose format is the quoted text, commas included |
| `Extractor.ExtractOneLine` | src/App.jsx:82-85 | a text without line breaks yields the records of its one row |
| `Extractor.JanuaryAnchor` | src/App.jsx:93-110 | a row that opens with "January" and "1995" is anchored at its first cell, with that month and year |
| `Extractor.ScenarioBlankCollectionResync` | src/App.jsx:113-137 | an issue with blank collection and format, then a complete triple, give an uncollected record and a collected one |
| `Seqs.KeepIsSubsequence` | src/App.jsx:339-341 | `filter` keeps elements in their order and only leaves some out |
| `Seqs.KeepCounts` | src/App.jsx:339-341 | `filter` keeps each satisfying element as often as it occurs and drops every other |
| `Seqs.KeepMember` | src/App.jsx:339-341 | an element is kept exactly when it occurs and satisfies the predicate |
| `Seqs.KeepKeep` | src/App.jsx:386-389 | two filters in a row are one filter by the conjunction |
| `Seqs.KeepIdempotent` | src/App.jsx:386-389 | filtering again by the same predicate changes nothing |
| `Seqs.FirstFromIsFirst` | src/App.jsx:93-105 | the first-index search returns an index that passes with none before it, or reports that none in range passes |
| `Seqs.FlatMapAppend` | src/App.jsx:85-139 | collecting per-line results distributes over concatenation of the lines |
| `Sorting.InsertAt` | src/App.jsx:306-309 | one pass of the in-place sort moves an element left to its stable place and leaves the rest of the array alone |
| `Sorting.SortInPlace` | src/App.jsx:306-309 | the in-place sort leaves the array equal to the stable insertion sort of its old contents |
| `Sorting.SortByPermutation` | src/App.jsx:306-309 | sorting keeps every element, as many times each |
| `Sorting.SortBySorted` | src/App.jsx:306-309 | for a comparator that is a total preorder, the result is in comparator order |
| `Sorting.SortByStable` | src/App.jsx:306-309 | elements of one key come out in their input order |
| `Sorting.SortByOfSorted` | src/App.jsx:306-309 | an ordered input comes out unchanged |
| `Sorting.SortByUnique` | src/App.jsx:306-309 | a sequence in comparator order that keeps every key class of the input in order is the sort's result: every stable sort agrees |
| `Ordering.Compare` | src/App.jsx:306-309 | the comparator is negative exactly for an earlier year or the same year with an earlier month index, and zero exactly for the same year and month index |
| `Ordering.CompareAntisymmetric` | src/App.jsx:306-309 | swapping the arguments negates the comparator |
| `Ordering.PrecedesTotal` | src/App.jsx:306-309 | of any two records one does not come after the other |
| `Ordering.PrecedesTransitive` | src/App.jsx:306-309 | "does not come after" is transitive |
| `Ordering.CompareIsPreorder` | src/App.jsx:306-309 | the comparator is a total preorder |
| `Ordering.UnknownMonthFirst` | src/App.jsx:77-78 | a month outside the list has index -1 and sorts before every record of its year with a known month |
| `Ordering.SortSpecPermutation` | src/App.jsx:306-309 | the sorted catalog holds the same records, as many times each |
| `Ordering.SortSpecSorted` | src/App.jsx:306-309 | the sorted catalog is non-decreasing in year, then month index |
| `Ordering.SortSpecStable` | src/App.jsx:306-309 | records of equal year and month index keep their input order |
| `Ordering.SortSpecUnique` | src/App.jsx:306-309 | any ordered, stable rearrangement of the catalog is the sorted catalog |
| `Ordering.SortSpecOfSorted` | src/App.jsx:306-309 | an ordered catalog is left as it is |
| `Ordering.SortSpecIdempotent` | src/App.jsx:306-309 | sorting a sorted catalog again changes nothing |
| `Ordering.SortIssues` | src/App.jsx:306-309 | sorting the fetched catalog in place leaves it equal to the sorted catalog |
| `Search.HandleSearch` | src/App.jsx:346-396 | the search leaves the results alone exactly when the query is blank |
| `Search.ApplyFilterIsKeep` | src/App.jsx:386-389 | the three filter steps keep exactly the records matching every truthy field of the translator's answer |
| `Search.HandleSearchIsKeep` | src/App.jsx:348-392 | every shown result is the catalog filtered by one predicate: year, translator filter or substring, as the query and the translator decide |
| `Search.HandleSearchSubsequence` | src/App.jsx:351-392 | the results keep the catalog's order and only leave records out |
| `Search.HandleSearchExact` | src/App.jsx:351-392 | a record is shown exactly when it is in the catalog and satisfies the applied test |
| `Search.HandleSearchIdempotent` | src/App.jsx:351-392 | the same search over its own results gives the same results |
| `Search.FastPathIgnoresTranslator` | src/App.jsx:351-354 | a four-digit query never consults the translator |
| `Search.EmptyFilterKeepsAll` | src/App.jsx:386-389 | an answer with no truthy field keeps the whole catalog |
| `Search.ZeroYearIgnored` | src/App.jsx:387 | a year of 0 from the translator is falsy and filters nothing, as if absent |
| `Search.YearRenderingIsQuery` | src/App.jsx:351-352 | an extracted year renders as a non-blank four-digit query that parses back to it |
| `Search.YearSearchFindsRecord` | src/App.jsx:351-352 | searching the rendering of a well-formed record's year shows that record, whatever the translator does |
| `Search.UncollectedQueryFindsSingles` | src/App.jsx:389 | a translator answer with text "uncollected" shows every well-formed uncollected record |
| `Daily.InsertYear` | src/App.jsx:335 | inserting a year keeps the list strictly increasing and adds exactly that year |
| `Daily.UniqueYears` | src/App.jsx:335 | the distinct years are strictly increasing and are exactly the catalog's years |
| `Daily.IncreasingUnique` | src/App.jsx:335 | two strictly increasing lists with the same members are equal |
| `Daily.UniqueYearsCanonical` | src/App.jsx:335 | any strictly increasing list of the catalog's distinct years is the one the feature uses |
| `Daily.DailyFeature` | src/App.jsx:327-344 | nothing is computed exactly when the catalog is empty; otherwise the featured year is a catalog year, and every pick has the current month and that year |
| `Daily.FeaturedYearPosition` | src/App.jsx:337 | the featured year is the distinct year at position `dayOfYear mod count` |
| `Daily.PicksComplete` | src/App.jsx:339-341 | a catalog record is picked exactly when it has the current month and the featured year, as many times as it occurs in the catalog, and the picks keep catalog order |
| `Daily.EveryYearFeatured` | src/App.jsx:337 | within any run of `count` consecutive days every distinct year is featured |

## Left out

- Firebase configuration, initialisation and sign-in (src/App.jsx:35-65, 266-282): these are calls into an SDK whose code is not part of this model.
- The Firestore subscription, batched upload and batched delete (src/App.jsx:285-324 apart from the comparator, 398-473): these are I/O and asynchronous batching. The `id` field a fetched document gains is not part of the record here.
- The translator request and its JSON decoding (src/App.jsx:356-384): this is a network call to an opaque model. Its outcome is the `translated` input of `Search.HandleSearch`: `Some(filter)` with each field already decoded, or `None` for any failure that reaches the `catch`.
- The date arithmetic (src/App.jsx:329-334): it uses the clock, float division and time zones. The day of the year and the month number are parameters of `Daily.DailyFeature`.
- The React components, styling and JSX (src/App.jsx:146-246, 475-673): this is UI.
- Strings.Lower: models `toLowerCase` on ASCII letters only; other case mappings in Unicode are not modelled.
- Strings.ParseInt: reads decimal digits only, after an optional sign; the `0x` prefix of `parseInt` is not modelled.
- Search.HandleSearch: the translator's year is an integer; an answer whose year is a string (truthy, and never `===` to a record's year) is not modelled.
- Months.GetMonthIndex: the `!monthStr` guard is modelled for the empty string only; `null` and `undefined` months do not occur in the model.
- Daily.UniqueYears: `sort()` with no comparator compares years as strings. The model sorts numerically, which gives the same order for the four-digit years the importer produces.
- Sorting.SortInPlace: the engine's sort algorithm is modelled as a stable insertion sort. `Sorting.SortByUnique` proves that every stable sort by the comparator gives this result.
- Seqs.Keep: its own contract states only the length bound; membership, multiplicity and order are stated by `Seqs.KeepMember`, `Seqs.KeepCounts` and `Seqs.KeepIsSubsequence`.
- Extractor.LeftmostAnchor: its own contract states only the window bound; that the result is the leftmost anchor is stated by `Extractor.LeftmostAnchorIsFirst`.

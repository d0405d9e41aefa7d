/** The twelve canonical month names and the two case-insensitive lookups over them. */
module Months {
  import opened Wrappers
  import opened Strings

  const MONTHS: seq<string> := [
    "January", "February", "March", "April", "May", "June",
    "July", "August", "September", "October", "November", "December"
  ]

  /** Entry `k` of `names` and `s` lower-case to the same text. */
  predicate SameMonth(names: seq<string>, s: string, k: nat)
    requires k < |names|
  {
    EqualIgnoringCase(names[k], s)
  }

  /** `s` names month `k` of the canonical list. */
  predicate NamesMonth(s: string, k: nat)
    requires k < |MONTHS|
  {
    SameMonth(MONTHS, s, k)
  }

  lemma MonthNamesNonEmpty()
    ensures |MONTHS| == 12
    ensures forall k :: 0 <= k < 12 ==> 3 <= |MONTHS[k]| <= 9
  {
  }

  /**
   * The search shared by `findIndex` and `find`: the first entry of `names` at or after `k`
   * that `s` matches ignoring case, or -1.
   */
  function IndexFrom(names: seq<string>, s: string, k: nat): (r: int)
    requires k <= |names|
    ensures r == -1 || (k <= r < |names| && SameMonth(names, s, r))
    decreases |names| - k
  {
    if k == |names| then -1
    else if SameMonth(names, s, k) then k
    else IndexFrom(names, s, k + 1)
  }

  /** The search reports -1 exactly when `s` matches no entry from `k` on. */
  lemma {:induction false} IndexFromNone(names: seq<string>, s: string, k: nat)
    requires k <= |names|
    ensures IndexFrom(names, s, k) == -1 <==> forall i :: k <= i < |names| ==> !SameMonth(names, s, i)
    decreases |names| - k
  {
    if k < |names| {
      IndexFromNone(names, s, k + 1);
    }
  }

  /** What the search finds is the first entry `s` matches from `k` on. */
  lemma {:induction false} IndexFromFirst(names: seq<string>, s: string, k: nat)
    requires k <= |names|
    ensures IndexFrom(names, s, k) != -1 ==>
              forall i :: k <= i < IndexFrom(names, s, k) ==> !SameMonth(names, s, i)
    decreases |names| - k
  {
    if k < |names| && !SameMonth(names, s, k) {
      IndexFromFirst(names, s, k + 1);
    }
  }

  /** `getMonthIndex`: the index of the month `monthStr` names, ignoring case, or -1. */
  function GetMonthIndex(monthStr: string): (r: int)
    ensures -1 <= r < 12
    ensures r != -1 ==> NamesMonth(monthStr, r)
  {
    if monthStr == "" then -1 else IndexFrom(MONTHS, monthStr, 0)
  }

  /**
   * `getMonthIndex` is -1 exactly when no month matches, the empty-string guard included
   * (no month name is empty), and otherwise the first match.
   */
  lemma GetMonthIndexFirst(monthStr: string)
    ensures GetMonthIndex(monthStr) == -1 <==> forall i :: 0 <= i < 12 ==> !NamesMonth(monthStr, i)
    ensures GetMonthIndex(monthStr) != -1 ==>
              forall i :: 0 <= i < GetMonthIndex(monthStr) ==> !NamesMonth(monthStr, i)
  {
    IndexFromNone(MONTHS, monthStr, 0);
    IndexFromFirst(MONTHS, monthStr, 0);
    if monthStr == "" {
      MonthNamesNonEmpty();
      forall i | 0 <= i < 12
        ensures !NamesMonth(monthStr, i)
      {
        assert MONTHS[i] != [];
      }
    }
  }

  /** `MONTHS.find(...)` as used by the extractor: the canonical spelling of the month `cell` names. */
  function FindMonth(cell: string): Option<string> {
    var k := IndexFrom(MONTHS, cell, 0);
    if k == -1 then None else Some(MONTHS[k])
  }

  /**
   * The two lookups agree, the empty-string guard of `getMonthIndex` included:
   * `find` yields exactly the canonical name at the index `getMonthIndex` reports.
   */
  lemma FindMonthAgreesWithIndex(cell: string)
    ensures FindMonth(cell).None? <==> GetMonthIndex(cell) == -1
    ensures FindMonth(cell).Some? ==> FindMonth(cell).value == MONTHS[GetMonthIndex(cell)]
  {
    if cell == "" {
      GetMonthIndexFirst(cell);
      IndexFromNone(MONTHS, cell, 0);
    }
  }

  /** What `find` returns is canonical, and the cell names it. */
  lemma FindMonthCanonical(cell: string)
    requires FindMonth(cell).Some?
    ensures FindMonth(cell).value in MONTHS
    ensures Lower(FindMonth(cell).value) == Lower(cell)
    ensures GetMonthIndex(FindMonth(cell).value) >= 0
  {
    var k := IndexFrom(MONTHS, cell, 0);
    assert FindMonth(cell).value == MONTHS[k];
    EqualIgnoringCaseIsLower(MONTHS[k], cell);
    EqualIgnoringCaseReflexive(MONTHS[k]);
    assert SameMonth(MONTHS, MONTHS[k], k);
    IndexFromNone(MONTHS, MONTHS[k], 0);
    MonthNamesNonEmpty();
    assert MONTHS[k] != "";
  }

  /** A cell that names January finds it at once. */
  lemma FindMonthFirst(cell: string)
    requires SameMonth(MONTHS, cell, 0)
    ensures FindMonth(cell) == Some(MONTHS[0])
  {
  }

  /** A cell longer than every month name names no month. */
  lemma LongCellNamesNoMonth(cell: string)
    requires |cell| > 9
    ensures FindMonth(cell).None?
  {
    MonthNamesNonEmpty();
    forall i | 0 <= i < 12
      ensures !SameMonth(MONTHS, cell, i)
    {
      if SameMonth(MONTHS, cell, i) {
        EqualIgnoringCaseLength(MONTHS[i], cell);
      }
    }
    IndexFromNone(MONTHS, cell, 0);
  }

  /** Lookups match whole names only: the abbreviation "Jan" names no month. */
  lemma AbbreviationNamesNoMonth()
    ensures FindMonth("Jan").None? && GetMonthIndex("Jan") == -1
  {
    var cell := "Jan";
    forall i | 0 <= i < 12
      ensures !SameMonth(MONTHS, cell, i)
    {
      if |MONTHS[i]| != 3 && SameMonth(MONTHS, cell, i) {
        EqualIgnoringCaseLength(MONTHS[i], cell);
      }
    }
    IndexFromNone(MONTHS, cell, 0);
  }
}

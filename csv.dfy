/**
 * Splitting one line of the export into cells. A comma separates two cells only when the
 * rest of the line after it holds an even number of double quotes, so a comma inside a
 * quoted field stays in its cell. Each cell is then trimmed and loses one leading and one
 * trailing double quote.
 */
module Csv {
  import opened Strings

  function QuoteCount(s: string): nat {
    if s == [] then 0 else (if s[0] == '"' then 1 else 0) + QuoteCount(s[1..])
  }

  /** The head of `s` is a separating comma: a comma with an even number of quotes after it. */
  predicate StartsWithDelimiter(s: string) {
    |s| > 0 && s[0] == ',' && QuoteCount(s[1..]) % 2 == 0
  }

  /** The raw cells of a line, as the line's regular-expression split yields them. */
  function Fields(s: string): (r: seq<string>)
    ensures |r| >= 1
  {
    if s == [] then [[]]
    else
      var rest := Fields(s[1..]);
      if StartsWithDelimiter(s) then [[]] + rest else [[s[0]] + rest[0]] + rest[1..]
  }

  /**
   * The split as an explicit scan. It walks the line from its end, keeping the parity of the
   * quotes seen so far, which is the parity of the quotes after the current position.
   */
  method SplitCells(line: string) returns (cells: seq<string>)
    ensures cells == Fields(line)
  {
    var cur: string := [];
    cells := [];
    var even := true;
    var k := |line|;
    while k > 0
      invariant 0 <= k <= |line|
      invariant even <==> QuoteCount(line[k..]) % 2 == 0
      invariant Fields(line[k..]) == [cur] + cells
    {
      k := k - 1;
      var c := line[k];
      assert line[k..][1..] == line[k + 1..];
      if c == ',' && even {
        cells := [cur] + cells;
        cur := [];
      } else {
        cur := [c] + cur;
      }
      if c == '"' {
        even := !even;
      }
    }
    assert line[0..] == line;
    cells := [cur] + cells;
  }

  /** A separating comma in front adds an empty first cell. */
  lemma {:induction false} JoinAfterDelimiter(parts: seq<string>)
    requires |parts| >= 1
    ensures JoinWith([[]] + parts, ',') == [','] + JoinWith(parts, ',')
  {
    assert ([[]] + parts)[1..] == parts;
  }

  /** Any other character in front joins the first cell. */
  lemma {:induction false} JoinIntoFirst(parts: seq<string>, x: char)
    requires |parts| >= 1
    ensures JoinWith([[x] + parts[0]] + parts[1..], ',') == [x] + JoinWith(parts, ',')
  {
    var head, tail := parts[0], parts[1..];
    assert parts == [head] + tail;
    if tail == [] {
      assert [[x] + head] + tail == [[x] + head];
    } else {
      JoinCons([x] + head, tail, ',');
      JoinCons(head, tail, ',');
      var rest := JoinWith(tail, ',');
      assert ([x] + head) + [','] + rest == [x] + (head + [','] + rest);
    }
  }

  /** The split loses nothing: joining the cells with commas gives the line back. */
  lemma {:induction false} JoinFields(s: string)
    ensures JoinWith(Fields(s), ',') == s
  {
    if s != [] {
      var rest := Fields(s[1..]);
      JoinFields(s[1..]);
      if StartsWithDelimiter(s) {
        JoinAfterDelimiter(rest);
      } else {
        JoinIntoFirst(rest, s[0]);
      }
      assert s == [s[0]] + s[1..];
    }
  }

  lemma {:induction false} NoQuotesNoCount(s: string)
    requires '"' !in s
    ensures QuoteCount(s) == 0
  {
    if s != [] {
      assert '"' !in s[1..] by { assert forall i :: 0 <= i < |s| - 1 ==> s[1..][i] == s[i + 1]; }
      NoQuotesNoCount(s[1..]);
    }
  }

  lemma {:induction false} QuoteCountAppend(a: string, b: string)
    ensures QuoteCount(a + b) == QuoteCount(a) + QuoteCount(b)
  {
    if a == [] {
      assert a + b == b;
    } else {
      assert (a + b)[0] == a[0] && (a + b)[1..] == a[1..] + b;
      QuoteCountAppend(a[1..], b);
    }
  }

  /** One step of the split: the first character opens a new cell or joins the first cell. */
  lemma FieldsCons(c: char, s: string)
    ensures Fields([c] + s)
            == if c == ',' && QuoteCount(s) % 2 == 0 then [[]] + Fields(s) else [[c] + Fields(s)[0]] + Fields(s)[1..]
  {
    assert ([c] + s)[0] == c && ([c] + s)[1..] == s;
  }

  /** A cell without commas and quotes is a line of one cell. */
  lemma {:induction false} FieldsOfPlain(a: string)
    requires ',' !in a && '"' !in a
    ensures Fields(a) == [a]
  {
    if a != [] {
      assert ',' !in a[1..] && '"' !in a[1..] by {
        assert forall i :: 0 <= i < |a| - 1 ==> a[1..][i] == a[i + 1];
      }
      FieldsOfPlain(a[1..]);
      FieldsCons(a[0], a[1..]);
      assert a == [a[0]] + a[1..];
    }
  }

  /**
   * A comma followed by an even number of quotes separates: the cells of `a` (which has no
   * quotes) come first, then the cells of `s`.
   */
  lemma {:induction false} FieldsAtDelimiter(a: string, s: string)
    requires '"' !in a && QuoteCount(s) % 2 == 0
    ensures Fields(a + [','] + s) == Fields(a) + Fields(s)
  {
    if a == [] {
      assert a + [','] + s == [','] + s;
      FieldsCons(',', s);
    } else {
      var c, rest := a[0], a[1..];
      var tail := rest + [','] + s;
      assert '"' !in rest by { assert forall i :: 0 <= i < |a| - 1 ==> rest[i] == a[i + 1]; }
      FieldsAtDelimiter(rest, s);
      NoQuotesNoCount(rest);
      QuoteCountAtDelimiter(rest, s);
      assert a + [','] + s == [c] + tail;
      assert a == [c] + rest;
      FieldsCons(c, tail);
      FieldsCons(c, rest);
      PrependToFirst(c, Fields(rest), Fields(s), c == ',');
    }
  }

  /** Opening a new cell, or growing the first cell, commutes with appending more cells. */
  lemma PrependToFirst(c: char, left: seq<string>, right: seq<string>, delim: bool)
    requires |left| >= 1
    ensures (if delim then [[]] + (left + right) else [[c] + (left + right)[0]] + (left + right)[1..])
            == (if delim then [[]] + left else [[c] + left[0]] + left[1..]) + right
  {
    assert (left + right)[0] == left[0] && (left + right)[1..] == left[1..] + right;
  }

  /** The quotes before a separating comma: none in `a`, those of `s` after it. */
  lemma QuoteCountAtDelimiter(a: string, s: string)
    requires '"' !in a
    ensures QuoteCount(a + [','] + s) == QuoteCount(s)
  {
    NoQuotesNoCount(a);
    QuoteCountAppend(a, [','] + s);
    assert a + [','] + s == a + ([','] + s);
    assert ([','] + s)[1..] == s;
  }

  /** A quoted cell whose text has no quotes is one cell, whatever commas it holds. */
  lemma FieldsOfQuoted(t: string)
    requires '"' !in t
    ensures Fields("\"" + t + "\"") == ["\"" + t + "\""]
    ensures QuoteCount("\"" + t + "\"") == 2
  {
    FieldsBeforeQuote(t);
    var s := "\"" + t + "\"";
    assert s == ['"'] + (t + "\"");
    FieldsCons('"', t + "\"");
    QuoteCountAppend(t, "\"");
    NoQuotesNoCount(t);
    assert QuoteCount("\"") == 1 by { assert "\""[1..] == []; }
    assert s[1..] == t + "\"";
  }

  /** Before a closing quote every comma has one quote after it, so none separates. */
  lemma {:induction false} FieldsBeforeQuote(t: string)
    requires '"' !in t
    ensures Fields(t + "\"") == [t + "\""]
  {
    var s := t + "\"";
    if t == [] {
      assert s == ['"'] + [];
      FieldsCons('"', []);
    } else {
      assert '"' !in t[1..] by { assert forall i :: 0 <= i < |t| - 1 ==> t[1..][i] == t[i + 1]; }
      FieldsBeforeQuote(t[1..]);
      QuoteCountAppend(t[1..], "\"");
      NoQuotesNoCount(t[1..]);
      assert QuoteCount("\"") == 1 by { assert "\""[1..] == []; }
      assert s == [t[0]] + (t[1..] + "\"");
      FieldsCons(t[0], t[1..] + "\"");
    }
  }

  /** On a line without quotes every comma separates cells. */
  lemma {:induction false} FieldsWithoutQuotes(s: string)
    requires '"' !in s
    ensures Fields(s) == SplitOn(s, ',')
  {
    if s != [] {
      assert '"' !in s[1..] by { assert forall i :: 0 <= i < |s| - 1 ==> s[1..][i] == s[i + 1]; }
      NoQuotesNoCount(s[1..]);
      FieldsWithoutQuotes(s[1..]);
    }
  }

  /** A quoted field whose comma is followed by an odd number of quotes stays one cell. */
  lemma QuotedCommaKept()
    ensures Fields("x,\"a,b\"") == ["x", "\"a,b\""]
  {
    var s6: string := ['"'];
    var s5 := ['b'] + s6;
    var s4 := [','] + s5;
    var s3 := ['a'] + s4;
    var s2 := ['"'] + s3;
    var s1 := [','] + s2;
    var s0 := ['x'] + s1;
    assert s6[1..] == [] && s5[1..] == s6 && s4[1..] == s5 && s3[1..] == s4;
    assert s2[1..] == s3 && s1[1..] == s2 && s0[1..] == s1;
    assert QuoteCount(s6) == 1 && QuoteCount(s5) == 1 && QuoteCount(s4) == 1;
    assert QuoteCount(s3) == 1 && QuoteCount(s2) == 2;
    assert Fields([]) == [[]];
    assert s6 + [] == s6;
    assert Fields(s6) == [s6];
    assert Fields(s5) == [s5];
    assert Fields(s4) == [s4];
    assert Fields(s3) == [s3];
    assert Fields(s2) == [s2];
    assert Fields(s1) == [[], s2];
    assert ['x'] + [] == ['x'];
    assert Fields(s0) == [['x'], s2];
    assert s0 == "x,\"a,b\"" && s2 == "\"a,b\"";
  }

  /** One leading and one trailing double quote are removed, as `replace(/^"|"$/g, '')` does. */
  function StripQuotes(s: string): string {
    var t := if |s| > 0 && s[0] == '"' then s[1..] else s;
    if |t| > 0 && t[|t| - 1] == '"' then t[..|t| - 1] else t
  }

  lemma StripQuotesOfQuoted(t: string)
    ensures StripQuotes("\"" + t + "\"") == t
  {
    var s := "\"" + t + "\"";
    assert s[1..] == t + "\"";
    assert (t + "\"")[..|t|] == t;
  }

  /** A quote at the start only is removed; a lone quote becomes the empty cell. */
  lemma StripQuotesOfLeading(t: string)
    requires t == [] || t[|t| - 1] != '"'
    ensures StripQuotes("\"" + t) == t
  {
    assert ("\"" + t)[1..] == t;
  }

  /** A quote at the end only is removed. */
  lemma StripQuotesOfTrailing(t: string)
    requires t == [] || t[0] != '"'
    ensures StripQuotes(t + "\"") == t
  {
    assert (t + "\"")[..|t|] == t;
  }

  lemma StripQuotesOfBare(s: string)
    requires s == [] || (s[0] != '"' && s[|s| - 1] != '"')
    ensures StripQuotes(s) == s
  {
  }

  /** One cell as the row holds it: trimmed, then with its enclosing quotes stripped. */
  function CleanCell(s: string): string {
    StripQuotes(Trim(s))
  }

  function CleanRow(cells: seq<string>): (row: seq<string>)
    ensures |row| == |cells|
  {
    seq(|cells|, i requires 0 <= i < |cells| => CleanCell(cells[i]))
  }

  /** The row of cells that one line of the export becomes. */
  function Row(line: string): (row: seq<string>)
    ensures |row| >= 1
  {
    CleanRow(Fields(line))
  }

  /** A cell the split never cuts and the cleaning never changes at its ends: no commas, no quotes. */
  predicate Plain(s: string) {
    forall i :: 0 <= i < |s| ==> s[i] != ',' && s[i] != '"'
  }

  /**
   * A line of plain cells followed by one quoted cell splits into exactly those cells, the
   * quoted one whole, whatever commas it holds.
   */
  lemma {:induction false} FieldsOfPlainThenQuoted(cells: seq<string>, t: string)
    requires forall k :: 0 <= k < |cells| ==> Plain(cells[k])
    requires '"' !in t
    ensures Fields(JoinWith(cells + ["\"" + t + "\""], ',')) == cells + ["\"" + t + "\""]
    ensures QuoteCount(JoinWith(cells + ["\"" + t + "\""], ',')) == 2
  {
    var q := "\"" + t + "\"";
    if cells == [] {
      assert cells + [q] == [q];
      FieldsOfQuoted(t);
    } else {
      var a, more := cells[0], cells[1..];
      FieldsOfPlainThenQuoted(more, t);
      var rest := JoinWith(more + [q], ',');
      assert cells + [q] == [a] + (more + [q]);
      JoinCons(a, more + [q], ',');
      assert ',' !in a && '"' !in a;
      FieldsOfPlain(a);
      FieldsAtDelimiter(a, rest);
      QuoteCountAtDelimiter(a, rest);
    }
  }

  /** A plain cell that trimming leaves alone: it neither starts nor ends with whitespace. */
  predicate BareCell(s: string) {
    Plain(s) && (s == [] || (!IsWhitespace(s[0]) && !IsWhitespace(s[|s| - 1])))
  }

  /**
   * The row of a line of bare cells followed by one quoted cell: the bare cells as they are,
   * then the quoted cell's text without its quotes, commas included.
   */
  lemma RowOfPlainThenQuoted(cells: seq<string>, t: string)
    requires forall k :: 0 <= k < |cells| ==> BareCell(cells[k])
    requires '"' !in t
    ensures Row(JoinWith(cells + ["\"" + t + "\""], ',')) == cells + [t]
  {
    FieldsOfPlainThenQuoted(cells, t);
    CleanBareThenQuoted(cells, t);
  }

  lemma CleanBareThenQuoted(cells: seq<string>, t: string)
    requires forall k :: 0 <= k < |cells| ==> BareCell(cells[k])
    ensures CleanRow(cells + ["\"" + t + "\""]) == cells + [t]
  {
    var fields := cells + ["\"" + t + "\""];
    forall k | 0 <= k < |cells|
      ensures CleanCell(fields[k]) == cells[k]
    {
      CleanBare(cells[k]);
    }
    CleanQuoted(t);
  }

  lemma CleanBare(s: string)
    requires BareCell(s)
    ensures CleanCell(s) == s
  {
    TrimUnchanged(s);
    StripQuotesOfBare(s);
  }

  lemma CleanQuoted(t: string)
    ensures CleanCell("\"" + t + "\"") == t
  {
    var q := "\"" + t + "\"";
    assert q[0] == '"' && q[|q| - 1] == '"';
    TrimUnchanged(q);
    StripQuotesOfQuoted(t);
  }
}

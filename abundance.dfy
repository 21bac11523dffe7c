/** The abundance filter: the query is trimmed and lower-cased, the fixed
    abundance table keeps, in order, the rows whose lower-cased taxonomy
    contains the query, and the kept rows are written as quoted CSV under a
    `Taxonomy,Read_Count` header. Lower-casing is modelled on ASCII letters
    only. */
module Abundance {
  import opened Numerals
  import opened Csv
  import opened Fixtures
  import opened JsString

  /** One row of the abundance table. */
  datatype Entry = Entry(taxonomy: Name, readCount: nat)

  /** The abundance table the filter reads. */
  const Table: seq<Entry> := [
    Entry(BacteroidesFragilis, 12000), Entry(PrevotellaCopri, 9800),
    Entry(FaecalibacteriumPrausnitzii, 6400), Entry(RuminococcusBromii, 4200),
    Entry(AkkermansiaMuciniphila, 3100)]

  // ----------------------------------------------------------------------
  // Query normalisation
  // ----------------------------------------------------------------------

  /** The characters `String.prototype.trim` removes: tab, line feed,
      vertical tab, form feed, carriage return and space, and the wide white
      space and line terminators of ECMAScript. */
  const WideSpace: set<char> := {
    '\U{00A0}', '\U{1680}', '\U{2000}', '\U{2001}', '\U{2002}', '\U{2003}', '\U{2004}', '\U{2005}',
    '\U{2006}', '\U{2007}', '\U{2008}', '\U{2009}', '\U{200A}', '\U{2028}', '\U{2029}', '\U{202F}',
    '\U{205F}', '\U{3000}', '\U{FEFF}'}

  predicate IsSpace(c: char)
  {
    ('\t' <= c <= '\r') || c == ' ' || ('\U{00A0}' <= c && c in WideSpace)
  }

  function TrimStart(s: string): (r: string)
    ensures |r| <= |s| && r == s[|s| - |r|..]
    ensures forall k :: 0 <= k < |s| - |r| ==> IsSpace(s[k])
    ensures r == [] || !IsSpace(r[0])
  {
    if s != [] && IsSpace(s[0]) then TrimStart(s[1..]) else s
  }

  function TrimEnd(s: string): (r: string)
    ensures |r| <= |s| && r == s[..|r|]
    ensures forall k :: |r| <= k < |s| ==> IsSpace(s[k])
    ensures r == [] || !IsSpace(r[|r| - 1])
  {
    if s != [] && IsSpace(s[|s| - 1]) then TrimEnd(s[..|s| - 1]) else s
  }

  /** `s.trim()`: the slice of `s` left once white space is removed at both
      ends. */
  function Trim(s: string): (r: string)
    ensures |r| <= |s|
    ensures r == [] || (!IsSpace(r[0]) && !IsSpace(r[|r| - 1]))
  {
    TrimEnd(TrimStart(s))
  }

  /** What `trim` keeps is the slice of the input that starts after the
      leading white space; everything it drops is white space. */
  lemma TrimSlice(s: string)
    ensures var i := |s| - |TrimStart(s)|;
      && i + |Trim(s)| <= |s|
      && Trim(s) == s[i..i + |Trim(s)|]
      && (forall k :: 0 <= k < i ==> IsSpace(s[k]))
      && (forall k :: i + |Trim(s)| <= k < |s| ==> IsSpace(s[k]))
  {
    var i := |s| - |TrimStart(s)|;
    assert TrimStart(s) == s[i..];
    TrimEndAt(s, i);
  }

  /** Trimming the end of the suffix of `s` from `i` keeps a slice of `s`
      and drops only white space. */
  lemma TrimEndAt(s: string, i: nat)
    requires i <= |s|
    ensures var r := TrimEnd(s[i..]);
      && i + |r| <= |s| && r == s[i..i + |r|]
      && forall k :: i + |r| <= k < |s| ==> IsSpace(s[k])
  {
    var t := s[i..];
    var r := TrimEnd(t);
    assert r == t[..|r|] && t[..|r|] == s[i..i + |r|];
    forall k | i + |r| <= k < |s| ensures IsSpace(s[k]) {
      assert s[k] == t[k - i];
    }
  }

  /** Input made only of white space trims to the empty string. */
  lemma {:induction false} BlankTrims(s: string)
    requires forall k :: 0 <= k < |s| ==> IsSpace(s[k])
    ensures Trim(s) == []
  {
    assert TrimStart(s) == [];
  }

  /** ASCII `toLowerCase` of one character. */
  function Lower(c: char): (d: char)
    ensures 'A' <= c <= 'Z' ==> d as int == c as int + 32
    ensures !('A' <= c <= 'Z') ==> d == c
  {
    if 'A' <= c <= 'Z' then (c as int + 32) as char else c
  }

  function ToLower(s: string): (r: string)
    ensures |r| == |s| && forall k :: 0 <= k < |s| ==> r[k] == Lower(s[k])
  {
    seq(|s|, k requires 0 <= k < |s| => Lower(s[k]))
  }

  /** The query as the handler normalises it: `value.trim().toLowerCase()`. */
  function Query(input: string): (q: string)
    ensures |q| <= |input|
    ensures forall k :: 0 <= k < |q| ==> !('A' <= q[k] <= 'Z')
    ensures q == [] || (!IsSpace(q[0]) && !IsSpace(q[|q| - 1]))
  {
    var t := Trim(input);
    LowerTrimmed(t);
    ToLower(t)
  }

  /** Lower-casing a trimmed string leaves it trimmed, with no upper-case
      ASCII letter. */
  lemma LowerTrimmed(t: string)
    requires t == [] || (!IsSpace(t[0]) && !IsSpace(t[|t| - 1]))
    ensures forall k :: 0 <= k < |t| ==> !('A' <= ToLower(t)[k] <= 'Z')
    ensures ToLower(t) == [] || (!IsSpace(ToLower(t)[0]) && !IsSpace(ToLower(t)[|t| - 1]))
  {
    if t != [] {
      LowerKeepsSpace(t[0]);
      LowerKeepsSpace(t[|t| - 1]);
    }
  }

  // ----------------------------------------------------------------------
  // The filter
  // ----------------------------------------------------------------------

  predicate Matches(e: Entry, q: string)
  {
    Contains(ToLower(e.taxonomy), q)
  }

  /** `a` is `b` with some elements left out, order kept. */
  predicate IsSubsequence<T(==)>(a: seq<T>, b: seq<T>)
    decreases |b|
  {
    if a == [] then true
    else if b == [] then false
    else if a[0] == b[0] then IsSubsequence(a[1..], b[1..])
    else IsSubsequence(a, b[1..])
  }

  /** `rows.filter(r => r.Taxonomy.toLowerCase().includes(q))`. */
  function Filter(rows: seq<Entry>, q: string): (r: seq<Entry>)
    ensures forall e :: e in r <==> e in rows && Matches(e, q)
    ensures forall e :: multiset(r)[e] == if Matches(e, q) then multiset(rows)[e] else 0
    ensures IsSubsequence(r, rows)
    ensures |r| <= |rows|
  {
    if rows == [] then []
    else
      assert rows == [rows[0]] + rows[1..];
      if Matches(rows[0], q) then [rows[0]] + Filter(rows[1..], q)
      else Filter(rows[1..], q)
  }

  /** The empty query keeps every row, in order. */
  lemma {:induction false} EmptyQueryKeepsAll(rows: seq<Entry>)
    ensures Filter(rows, "") == rows
  {
    if rows != [] {
      assert OccursAt(ToLower(rows[0].taxonomy), "", 0);
      EmptyQueryKeepsAll(rows[1..]);
    }
  }

  /** The rows the handler keeps for what the user typed. */
  function Filtered(input: string): (r: seq<Entry>)
    ensures forall e :: e in r <==> e in Table && Matches(e, Query(input))
    ensures IsSubsequence(r, Table)
  {
    Filter(Table, Query(input))
  }

  /** A blank filter box keeps the whole table. */
  lemma BlankInputKeepsAll(input: string)
    requires forall k :: 0 <= k < |input| ==> IsSpace(input[k])
    ensures Filtered(input) == Table
  {
    BlankTrims(input);
    EmptyQueryKeepsAll(Table);
  }

  // ----------------------------------------------------------------------
  // Case-insensitivity
  // ----------------------------------------------------------------------

  lemma LowerKeepsSpace(c: char)
    ensures IsSpace(Lower(c)) <==> IsSpace(c)
  {
  }

  lemma {:induction false} TrimStartLower(s: string)
    ensures TrimStart(ToLower(s)) == ToLower(TrimStart(s))
    decreases |s|
  {
    if s != [] {
      LowerKeepsSpace(s[0]);
      assert ToLower(s)[1..] == ToLower(s[1..]);
      if IsSpace(s[0]) {
        TrimStartLower(s[1..]);
      }
    }
  }

  lemma {:induction false} TrimEndLower(s: string)
    ensures TrimEnd(ToLower(s)) == ToLower(TrimEnd(s))
    decreases |s|
  {
    if s != [] {
      LowerKeepsSpace(s[|s| - 1]);
      assert ToLower(s)[..|s| - 1] == ToLower(s[..|s| - 1]);
      if IsSpace(s[|s| - 1]) {
        TrimEndLower(s[..|s| - 1]);
      }
    }
  }

  /** The filter does not depend on the case of ASCII letters in the query:
      typing the query in lower case keeps the same rows. */
  lemma CaseInsensitive(input: string)
    ensures Filtered(ToLower(input)) == Filtered(input)
  {
    QueryIgnoresCase(input);
  }

  /** Lower-casing what the user typed does not change the query. */
  lemma QueryIgnoresCase(input: string)
    ensures Query(ToLower(input)) == Query(input)
  {
    var t := Trim(input);
    calc {
      Query(ToLower(input));
      ToLower(TrimEnd(TrimStart(ToLower(input))));
      { TrimStartLower(input); }
      ToLower(TrimEnd(ToLower(TrimStart(input))));
      { TrimEndLower(TrimStart(input)); }
      ToLower(ToLower(t));
      { assert ToLower(ToLower(t)) == ToLower(t); }
      ToLower(t);
      Query(input);
    }
  }

  // ----------------------------------------------------------------------
  // The filtered CSV
  // ----------------------------------------------------------------------

  const CsvHeader: seq<Name> := ["Taxonomy", "Read_Count"]

  /** One kept row as the handler writes it: the taxonomy, then `String`
      of the read count, a digit string that denotes the count. */
  function EntryCells(e: Entry): (cells: seq<Text>)
    ensures |cells| == 2 && cells[0] == e.taxonomy
    ensures AllDigits(cells[1]) && ValueOf(cells[1]) == e.readCount
  {
    DecimalValue(e.readCount);
    DigitsPlain(Decimal(e.readCount));
    [e.taxonomy, Decimal(e.readCount)]
  }

  lemma DigitsPlain(s: string)
    requires AllDigits(s)
    ensures Plain(s)
  {
    forall k | 0 <= k < |s| ensures s[k] != '"' && s[k] != '\n' {
      assert IsDigit(s[k]);
    }
  }

  function EntryRows(es: seq<Entry>): (rows: seq<seq<Text>>)
    ensures |rows| == |es|
    ensures forall k :: 0 <= k < |es| ==> rows[k] == EntryCells(es[k])
  {
    seq(|es|, k requires 0 <= k < |es| => EntryCells(es[k]))
  }

  /** The rows of the written table: the header, then one row per entry. */
  function CsvTable(es: seq<Entry>): seq<seq<string>>
  {
    var header: seq<string> := CsvHeader;
    [header] + EntryRows(es)
  }

  /** The text the handler downloads for the kept rows. */
  function FilteredCsv(input: string): (csv: string)
    ensures |SplitOn(csv, '\n')| == |Filtered(input)| + 1
    ensures Fields(SplitOn(csv, '\n')[0]) == CsvHeader
  {
    CsvLines(Filtered(input));
    EncodeTable(CsvTable(Filtered(input)))
  }

  /** A table whose cells are non-empty and free of quotes and newlines
      splits into one line per row, and each line parses back to its row. */
  lemma PlainTableReadsBack(t: seq<seq<string>>)
    requires |t| >= 1
    requires forall r :: 0 <= r < |t| ==> |t[r]| >= 1
    requires forall r, c :: 0 <= r < |t| && 0 <= c < |t[r]| ==> t[r][c] != "" && Plain(t[r][c])
    ensures |SplitOn(EncodeTable(t), '\n')| == |t|
    ensures forall r :: 0 <= r < |t| ==> Fields(SplitOn(EncodeTable(t), '\n')[r]) == t[r]
  {
    forall r, c | 0 <= r < |t| && 0 <= c < |t[r]| ensures NoNewline(t[r][c]) {
      assert Plain(t[r][c]);
    }
    TableLines(t);
    forall r | 0 <= r < |t| ensures Fields(SplitOn(EncodeTable(t), '\n')[r]) == t[r] {
      NotAllQuotes(t[r]);
      RoundTrip(t[r]);
    }
  }

  /** The written text has one line per entry plus the header line, and
      each line reads back, through the preview's line parser, as the header
      or as its entry's taxonomy and read count. */
  lemma CsvLines(es: seq<Entry>)
    ensures |SplitOn(EncodeTable(CsvTable(es)), '\n')| == |es| + 1
    ensures Fields(SplitOn(EncodeTable(CsvTable(es)), '\n')[0]) == CsvHeader
    ensures forall k :: 0 <= k < |es| ==>
      Fields(SplitOn(EncodeTable(CsvTable(es)), '\n')[k + 1]) == [es[k].taxonomy, Decimal(es[k].readCount)]
  {
    var t := CsvTable(es);
    var lines := SplitOn(EncodeTable(t), '\n');
    assert |t| == |es| + 1 && t[0] == CsvHeader;
    assert |lines| == |t| && forall r :: 0 <= r < |t| ==> Fields(lines[r]) == t[r] by {
      CsvTablePlain(es);
      PlainTableReadsBack(t);
    }
    forall k | 0 <= k < |es| ensures t[k + 1] == [es[k].taxonomy, Decimal(es[k].readCount)] {
      CsvTableRow(es, k);
    }
  }

  /** Row `k + 1` of the written table holds entry `k`. */
  lemma CsvTableRow(es: seq<Entry>, k: nat)
    requires k < |es|
    ensures |CsvTable(es)| == |es| + 1
    ensures CsvTable(es)[k + 1] == [es[k].taxonomy, Decimal(es[k].readCount)]
  {
    assert CsvTable(es)[k + 1] == EntryRows(es)[k];
  }

  /** The written table is the header and one row per entry, and every cell
      is non-empty and free of quotes and newlines. */
  lemma CsvTablePlain(es: seq<Entry>)
    ensures |CsvTable(es)| == |es| + 1 && CsvTable(es)[0] == CsvHeader
    ensures forall r :: 0 <= r < |CsvTable(es)| ==> |CsvTable(es)[r]| >= 1
    ensures forall r, c :: 0 <= r < |CsvTable(es)| && 0 <= c < |CsvTable(es)[r]| ==>
      CsvTable(es)[r][c] != "" && Plain(CsvTable(es)[r][c])
  {
    var t := CsvTable(es);
    forall r, c | 0 <= r < |t| && 0 <= c < |t[r]| ensures t[r][c] != "" && Plain(t[r][c]) {
      if r > 0 {
        assert t[r] == EntryCells(es[r - 1]);
      }
    }
  }

  /** Non-empty cells without a quote are never made only of quotes. */
  lemma NotAllQuotes(row: seq<string>)
    requires forall c :: 0 <= c < |row| ==> row[c] != "" && Plain(row[c])
    ensures forall c :: 0 <= c < |row| ==> !AllQuotes(row[c])
  {
    forall c | 0 <= c < |row| ensures !AllQuotes(row[c]) {
      assert row[c][0] != Quote;
    }
  }
}

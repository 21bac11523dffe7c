/** The quoted-CSV writer and the single-pass line parser of the report
    preview. The writer puts every cell in double quotes, doubles the quotes
    inside it, joins cells with `,` and rows with a line feed. The parser keeps
    the current field, an in-quotes flag and the list of finished fields; it
    reads a pair of quotes as one literal quote BEFORE it looks at the quote
    state, which is what makes a cell made only of quotes come back with one
    quote more. */
module Csv {

  datatype Option<T> = None | Some(value: T)

  const Quote: char := '"'

  // ----------------------------------------------------------------------
  // Encoding
  // ----------------------------------------------------------------------

  /** The cell with every double quote doubled: never shorter, and empty
      only for the empty cell. */
  function Escape(cell: string): (r: string)
    ensures |r| >= |cell|
    ensures r == [] <==> cell == []
  {
    if cell == [] then []
    else (if cell[0] == Quote then [Quote, Quote] else [cell[0]]) + Escape(cell[1..])
  }

  /** One cell as the writer emits it: the escaped cell between an opening
      and a closing quote. */
  function QuoteCell(cell: string): (r: string)
    ensures |r| >= |cell| + 2 && r[0] == Quote && r[|r| - 1] == Quote
  {
    [Quote] + Escape(cell) + [Quote]
  }

  /** `parts.join(sep)`: nothing for no parts, no separator after the last. */
  function Join(parts: seq<string>, sep: char): (r: string)
    ensures |parts| == 0 ==> r == ""
    ensures |parts| >= 1 ==> parts[0] <= r
    decreases |parts|
  {
    if |parts| == 0 then ""
    else if |parts| == 1 then parts[0]
    else parts[0] + [sep] + Join(parts[1..], sep)
  }

  /** One row as the writer emits it: its quoted cells joined by commas, so
      a non-empty row's line opens with the first quoted cell. */
  function EncodeRow(row: seq<string>): (line: string)
    ensures row == [] ==> line == ""
    ensures row != [] ==> QuoteCell(row[0]) <= line
  {
    Join(seq(|row|, i requires 0 <= i < |row| => QuoteCell(row[i])), ',')
  }

  /** The whole text: the encoded rows joined by line feeds, the first row
      at the start. */
  function EncodeTable(rows: seq<seq<string>>): (text: string)
    ensures rows == [] ==> text == ""
    ensures rows != [] ==> EncodeRow(rows[0]) <= text
  {
    Join(seq(|rows|, i requires 0 <= i < |rows| => EncodeRow(rows[i])), '\n')
  }

  // ----------------------------------------------------------------------
  // Decoding
  // ----------------------------------------------------------------------

  /** `s.split(sep)`: always at least one piece. */
  function SplitOn(s: string, sep: char): (pieces: seq<string>)
    ensures |pieces| >= 1
  {
    if s == [] then [""]
    else
      var rest := SplitOn(s[1..], sep);
      if s[0] == sep then [""] + rest else [[s[0]] + rest[0]] + rest[1..]
  }

  /** `lines.filter(Boolean)`: the non-empty lines, in order. */
  function NonBlank(lines: seq<string>): (r: seq<string>)
    ensures |r| <= |lines|
    ensures forall l :: l in r <==> l in lines && l != ""
    ensures forall l :: multiset(r)[l] == if l == "" then 0 else multiset(lines)[l]
  {
    if lines == [] then []
    else
      assert lines == [lines[0]] + lines[1..];
      (if lines[0] == "" then [] else [lines[0]]) + NonBlank(lines[1..])
  }

  /** What the parser returns for the rest `s` of a line, given the fields it
      has finished, the field it is building and the quote state. */
  function Scan(s: string, cols: seq<string>, cur: string, inQuotes: bool): (r: seq<string>)
    ensures |r| > |cols| && r[..|cols|] == cols
    decreases |s|
  {
    if s == [] then cols + [cur]
    else if s[0] == Quote && |s| > 1 && s[1] == Quote then Scan(s[2..], cols, cur + [Quote], inQuotes)
    else if s[0] == Quote then Scan(s[1..], cols, cur, !inQuotes)
    else if s[0] == ',' && !inQuotes then Scan(s[1..], cols + [cur], "", inQuotes)
    else Scan(s[1..], cols, cur + [s[0]], inQuotes)
  }

  /** The fields of one line: never none. */
  function Fields(line: string): (r: seq<string>)
    ensures |r| >= 1
  {
    Scan(line, [], "", false)
  }

  /** `parseLine`, with its loop over the characters of the line. */
  method ParseLine(ln: string) returns (cols: seq<string>)
    ensures cols == Fields(ln)
  {
    cols := [];
    var cur: string := "";
    var inQuotes := false;
    var i := 0;
    while i < |ln|
      invariant 0 <= i <= |ln|
      invariant Scan(ln[i..], cols, cur, inQuotes) == Fields(ln)
    {
      var ch := ln[i];
      if ch == Quote && i + 1 < |ln| && ln[i + 1] == Quote {
        assert ln[i..][2..] == ln[i + 2..];
        cur := cur + [Quote];
        i := i + 2;
      } else if ch == Quote {
        assert ln[i..][1..] == ln[i + 1..];
        inQuotes := !inQuotes;
        i := i + 1;
      } else if ch == ',' && !inQuotes {
        assert ln[i..][1..] == ln[i + 1..];
        cols := cols + [cur];
        cur := "";
        i := i + 1;
      } else {
        assert ln[i..][1..] == ln[i + 1..];
        cur := cur + [ch];
        i := i + 1;
      }
    }
    cols := cols + [cur];
  }

  /** Commas the scan meets outside quotes, from quote state `inQuotes`. */
  function Separators(s: string, inQuotes: bool): nat
    decreases |s|
  {
    if s == [] then 0
    else if s[0] == Quote && |s| > 1 && s[1] == Quote then Separators(s[2..], inQuotes)
    else if s[0] == Quote then Separators(s[1..], !inQuotes)
    else (if s[0] == ',' && !inQuotes then 1 else 0) + Separators(s[1..], inQuotes)
  }

  /** The parser keeps the fields it has finished and adds one field per
      comma outside quotes, plus the last one. */
  lemma {:induction false} FieldCount(s: string, cols: seq<string>, cur: string, inQuotes: bool)
    ensures |Scan(s, cols, cur, inQuotes)| == |cols| + 1 + Separators(s, inQuotes)
    ensures Scan(s, cols, cur, inQuotes)[..|cols|] == cols
    decreases |s|
  {
    if s == [] {
    } else if s[0] == Quote && |s| > 1 && s[1] == Quote {
      FieldCount(s[2..], cols, cur + [Quote], inQuotes);
    } else if s[0] == Quote {
      FieldCount(s[1..], cols, cur, !inQuotes);
    } else if s[0] == ',' && !inQuotes {
      FieldCount(s[1..], cols + [cur], "", inQuotes);
      assert (cols + [cur])[..|cols|] == cols;
    } else {
      FieldCount(s[1..], cols, cur + [s[0]], inQuotes);
    }
  }

  /** A line always parses to 1 + (commas outside quotes) fields, so never to
      none. */
  lemma LineFieldCount(line: string)
    ensures |Fields(line)| == 1 + Separators(line, false)
    ensures |Fields(line)| >= 1
  {
    FieldCount(line, [], "", false);
  }

  function Quotes(k: nat): (q: string)
    ensures |q| == k && forall i :: 0 <= i < k ==> q[i] == Quote
  {
    seq(k, _ => Quote)
  }

  /** A run of 2k quotes is read as k literal quotes and consumed whole,
      whatever the quote state and whatever follows. */
  lemma {:induction false} QuotePairs(k: nat, rest: string, cols: seq<string>, cur: string, inQuotes: bool)
    ensures Scan(Quotes(2 * k) + rest, cols, cur, inQuotes) == Scan(rest, cols, cur + Quotes(k), inQuotes)
    decreases k
  {
    if k == 0 {
      assert Quotes(0) + rest == rest;
      assert cur + Quotes(0) == cur;
    } else {
      var s := Quotes(2 * k) + rest;
      assert s[0] == Quote && s[1] == Quote;
      assert s[2..] == Quotes(2 * (k - 1)) + rest;
      QuotePairs(k - 1, rest, cols, cur + [Quote], inQuotes);
      assert cur + [Quote] + Quotes(k - 1) == cur + Quotes(k);
    }
  }

  // ----------------------------------------------------------------------
  // Round trip
  // ----------------------------------------------------------------------

  predicate AllQuotes(cell: string)
  {
    forall i :: 0 <= i < |cell| ==> cell[i] == Quote
  }

  /** What the parser gives back for an encoded cell: the cell itself, except
      that a cell made only of quotes (the empty cell included) comes back
      with one quote more. */
  function ReadBack(cell: string): string
  {
    if AllQuotes(cell) then cell + [Quote] else cell
  }

  function ReadBackRow(row: seq<string>): (r: seq<string>)
    ensures |r| == |row|
  {
    seq(|row|, i requires 0 <= i < |row| => ReadBack(row[i]))
  }

  /** Inside quotes, an escaped cell followed by the closing quote is read
      back as the cell itself, and the quote state is left outside. */
  lemma {:induction false} QuotedBody(t: string, rest: string, cols: seq<string>, cur: string)
    requires rest == [] || rest[0] != Quote
    ensures Scan(Escape(t) + [Quote] + rest, cols, cur, true) == Scan(rest, cols, cur + t, false)
    decreases |t|
  {
    var s := Escape(t) + [Quote] + rest;
    if t == [] {
      assert s == [Quote] + rest;
      assert s[1..] == rest;
      assert cur + t == cur;
    } else if t[0] == Quote {
      assert s == [Quote, Quote] + (Escape(t[1..]) + [Quote] + rest);
      assert s[2..] == Escape(t[1..]) + [Quote] + rest;
      QuotedBody(t[1..], rest, cols, cur + [Quote]);
      assert cur + [Quote] + t[1..] == cur + t;
    } else {
      assert s == [t[0]] + (Escape(t[1..]) + [Quote] + rest);
      assert s[1..] == Escape(t[1..]) + [Quote] + rest;
      QuotedBody(t[1..], rest, cols, cur + [t[0]]);
      assert cur + [t[0]] + t[1..] == cur + t;
    }
  }

  /** A cell that opens with a quote reads back as that quote followed by
      the rest read back. */
  lemma QuoteThenReadBack(cell: string)
    requires cell != [] && cell[0] == Quote
    ensures [Quote] + ReadBack(cell[1..]) == ReadBack(cell)
  {
    assert AllQuotes(cell) <==> AllQuotes(cell[1..]) by {
      if AllQuotes(cell[1..]) {
        forall i | 0 <= i < |cell| ensures cell[i] == Quote {
          if i > 0 { assert cell[i] == cell[1..][i - 1]; }
        }
      }
    }
  }

  /** An encoded cell, read from outside quotes, adds `ReadBack(cell)` to the
      current field and leaves the quote state outside. */
  lemma {:induction false} QuotedCell(cell: string, rest: string, cols: seq<string>, cur: string)
    requires rest == [] || rest[0] != Quote
    ensures Scan(QuoteCell(cell) + rest, cols, cur, false) == Scan(rest, cols, cur + ReadBack(cell), false)
    decreases |cell|
  {
    var s := QuoteCell(cell) + rest;
    if cell == [] {
      assert Scan(s, cols, cur, false) == Scan(rest, cols, cur + [Quote], false) by {
        assert s == [Quote, Quote] + rest;
        assert s[2..] == rest;
      }
      assert ReadBack(cell) == [Quote];
    } else if cell[0] == Quote {
      assert Scan(s, cols, cur, false) == Scan(QuoteCell(cell[1..]) + rest, cols, cur + [Quote], false) by {
        assert s == [Quote, Quote] + (QuoteCell(cell[1..]) + rest);
        assert s[2..] == QuoteCell(cell[1..]) + rest;
      }
      QuotedCell(cell[1..], rest, cols, cur + [Quote]);
      QuoteThenReadBack(cell);
      assert cur + [Quote] + ReadBack(cell[1..]) == cur + ReadBack(cell);
    } else {
      assert Scan(s, cols, cur, false) == Scan(Escape(cell) + [Quote] + rest, cols, cur, true) by {
        assert s == [Quote] + (Escape(cell) + [Quote] + rest);
        assert s[1..] == Escape(cell) + [Quote] + rest;
      }
      QuotedBody(cell, rest, cols, cur);
      assert !AllQuotes(cell) by {
        assert cell[0] != Quote;
      }
    }
  }

  lemma EncodeRowCons(row: seq<string>)
    requires |row| >= 2
    ensures EncodeRow(row) == QuoteCell(row[0]) + [','] + EncodeRow(row[1..])
  {
    var parts := seq(|row|, i requires 0 <= i < |row| => QuoteCell(row[i]));
    assert parts[1..] == seq(|row[1..]|, i requires 0 <= i < |row[1..]| => QuoteCell(row[1..][i]));
  }

  /** Every encoded row parses back to its cells read back one by one. */
  lemma {:induction false} RowScan(row: seq<string>, cols: seq<string>)
    requires |row| >= 1
    ensures Scan(EncodeRow(row), cols, "", false) == cols + ReadBackRow(row)
    decreases |row|
  {
    var first := ReadBack(row[0]);
    if |row| == 1 {
      RowScanSingle(row, cols);
    } else {
      RowScanCons(row, cols);
      RowScan(row[1..], cols + [first]);
      assert ReadBackRow(row) == [first] + ReadBackRow(row[1..]);
      assert cols + [first] + ReadBackRow(row[1..]) == cols + ReadBackRow(row);
    }
  }

  /** A row of one cell scans to that cell read back. */
  lemma RowScanSingle(row: seq<string>, cols: seq<string>)
    requires |row| == 1
    ensures Scan(EncodeRow(row), cols, "", false) == cols + ReadBackRow(row)
  {
    var first := ReadBack(row[0]);
    assert EncodeRow(row) == QuoteCell(row[0]) + "";
    QuotedCell(row[0], "", cols, "");
    assert "" + first == first;
    assert ReadBackRow(row) == [first];
  }

  /** The first cell of a longer row, and the comma after it, finish one
      field: its read-back. */
  lemma RowScanCons(row: seq<string>, cols: seq<string>)
    requires |row| >= 2
    ensures Scan(EncodeRow(row), cols, "", false) == Scan(EncodeRow(row[1..]), cols + [ReadBack(row[0])], "", false)
  {
    var first := ReadBack(row[0]);
    var tail := [','] + EncodeRow(row[1..]);
    assert EncodeRow(row) == QuoteCell(row[0]) + tail by {
      EncodeRowCons(row);
    }
    QuotedCell(row[0], tail, cols, "");
    assert "" + first == first;
    assert tail[0] == ',' && tail[1..] == EncodeRow(row[1..]);
  }

  /** Parsing an encoded row gives its cells back, each read back: a cell with
      at least one character other than a quote is unchanged, a cell of k
      quotes (the empty cell too) becomes k + 1 quotes, and the other cells do
      not notice. */
  lemma ParseEncodedRow(row: seq<string>)
    requires |row| >= 1
    ensures Fields(EncodeRow(row)) == ReadBackRow(row)
    ensures forall i :: 0 <= i < |row| && !AllQuotes(row[i]) ==> Fields(EncodeRow(row))[i] == row[i]
    ensures forall i :: 0 <= i < |row| && AllQuotes(row[i]) ==>
      Fields(EncodeRow(row))[i] == Quotes(|row[i]| + 1)
  {
    RowScan(row, []);
    assert [] + ReadBackRow(row) == ReadBackRow(row);
    forall i | 0 <= i < |row| && AllQuotes(row[i])
      ensures ReadBack(row[i]) == Quotes(|row[i]| + 1)
    {
    }
  }

  /** The round trip: a row whose every cell holds a character other than a
      quote parses back to itself. */
  lemma RoundTrip(row: seq<string>)
    requires |row| >= 1
    requires forall i :: 0 <= i < |row| ==> !AllQuotes(row[i])
    ensures Fields(EncodeRow(row)) == row
  {
    ParseEncodedRow(row);
  }

  // ----------------------------------------------------------------------
  // Lines of an encoded table
  // ----------------------------------------------------------------------

  predicate NoNewline(s: string)
  {
    forall i :: 0 <= i < |s| ==> s[i] != '\n'
  }

  lemma {:induction false} EscapeNoNewline(cell: string)
    requires NoNewline(cell)
    ensures NoNewline(Escape(cell))
    decreases |cell|
  {
    if cell != [] {
      EscapeNoNewline(cell[1..]);
    }
  }

  lemma {:induction false} JoinNoNewline(parts: seq<string>, sep: char)
    requires sep != '\n'
    requires forall i :: 0 <= i < |parts| ==> NoNewline(parts[i])
    ensures NoNewline(Join(parts, sep))
    decreases |parts|
  {
    if |parts| >= 2 {
      JoinNoNewline(parts[1..], sep);
    }
  }

  /** A row of newline-free cells encodes to one non-empty line. */
  lemma EncodedRowIsLine(row: seq<string>)
    requires |row| >= 1
    requires forall i :: 0 <= i < |row| ==> NoNewline(row[i])
    ensures NoNewline(EncodeRow(row))
    ensures EncodeRow(row) != [] && EncodeRow(row)[0] == Quote
  {
    var parts := seq(|row|, i requires 0 <= i < |row| => QuoteCell(row[i]));
    forall i | 0 <= i < |row| ensures NoNewline(parts[i]) {
      EscapeNoNewline(row[i]);
    }
    JoinNoNewline(parts, ',');
    if |row| >= 2 {
      EncodeRowCons(row);
    }
  }

  lemma {:induction false} SplitPrefix(a: string, tail: string, sep: char)
    requires forall i :: 0 <= i < |a| ==> a[i] != sep
    ensures SplitOn(a + tail, sep) == [a + SplitOn(tail, sep)[0]] + SplitOn(tail, sep)[1..]
    decreases |a|
  {
    var pieces := SplitOn(tail, sep);
    if a == [] {
      assert a + tail == tail;
      assert a + pieces[0] == pieces[0];
      assert pieces == [pieces[0]] + pieces[1..];
    } else {
      SplitPrefix(a[1..], tail, sep);
      assert (a + tail)[1..] == a[1..] + tail;
      assert [a[0]] + (a[1..] + SplitOn(tail, sep)[0]) == a + SplitOn(tail, sep)[0];
    }
  }

  /** Splitting lines joined by a separator none of them holds gives the lines
      back. */
  lemma {:induction false} SplitJoin(parts: seq<string>, sep: char)
    requires |parts| >= 1
    requires forall i, j :: 0 <= i < |parts| && 0 <= j < |parts[i]| ==> parts[i][j] != sep
    ensures SplitOn(Join(parts, sep), sep) == parts
    decreases |parts|
  {
    if |parts| == 1 {
      SplitPrefix(parts[0], "", sep);
      assert parts[0] + "" == parts[0];
    } else {
      SplitJoin(parts[1..], sep);
      var tail := [sep] + Join(parts[1..], sep);
      assert Join(parts, sep) == parts[0] + tail;
      SplitPrefix(parts[0], tail, sep);
      assert tail[1..] == Join(parts[1..], sep);
      assert parts[0] + "" == parts[0];
    }
  }

  /** `filter(Boolean)` keeps the order of the lines: filtering two runs of
      lines one after the other is filtering each run. */
  lemma {:induction false} NonBlankAppend(a: seq<string>, b: seq<string>)
    ensures NonBlank(a + b) == NonBlank(a) + NonBlank(b)
    decreases |a|
  {
    if a != [] {
      var head := if a[0] == "" then [] else [a[0]];
      assert NonBlank(a + b) == head + NonBlank(a[1..] + b) by {
        assert (a + b)[0] == a[0] && (a + b)[1..] == a[1..] + b;
      }
      NonBlankAppend(a[1..], b);
      assert NonBlank(a) == head + NonBlank(a[1..]);
    } else {
      assert a + b == b;
    }
  }

  lemma {:induction false} NonBlankKeepsFullLines(lines: seq<string>)
    requires forall i :: 0 <= i < |lines| ==> lines[i] != ""
    ensures NonBlank(lines) == lines
    decreases |lines|
  {
    if lines != [] {
      NonBlankKeepsFullLines(lines[1..]);
    }
  }

  /** The writer's text has one line per row, in order, with the first row
      (the header) as line 0 and no line after the last row. */
  lemma TableLines(rows: seq<seq<string>>)
    requires |rows| >= 1
    requires forall r :: 0 <= r < |rows| ==> |rows[r]| >= 1
    requires forall r, c :: 0 <= r < |rows| && 0 <= c < |rows[r]| ==> NoNewline(rows[r][c])
    ensures SplitOn(EncodeTable(rows), '\n') == seq(|rows|, r requires 0 <= r < |rows| => EncodeRow(rows[r]))
    ensures NonBlank(SplitOn(EncodeTable(rows), '\n')) == SplitOn(EncodeTable(rows), '\n')
  {
    var lines := seq(|rows|, r requires 0 <= r < |rows| => EncodeRow(rows[r]));
    forall r | 0 <= r < |rows| ensures NoNewline(lines[r]) && lines[r] != [] {
      EncodedRowIsLine(rows[r]);
    }
    SplitJoin(lines, '\n');
    NonBlankKeepsFullLines(lines);
  }

  // ----------------------------------------------------------------------
  // Preview
  // ----------------------------------------------------------------------

  /** The preview: the header row, at most `maxRows` data rows, and the number
      of data rows in the whole text. */
  datatype Preview = Preview(header: seq<string>, rows: seq<seq<string>>, total: nat)

  function Min(a: int, b: int): int
  {
    if a < b then a else b
  }

  /** `lines.map(parseLine)` over the non-empty lines of the text. */
  function ParsedLines(csv: string): (rows: seq<seq<string>>)
    ensures |rows| == |NonBlank(SplitOn(csv, '\n'))|
  {
    var lines := NonBlank(SplitOn(csv, '\n'));
    seq(|lines|, i requires 0 <= i < |lines| => Fields(lines[i]))
  }

  /** `renderCSVPreviewFromString` without the table markup: no preview for a
      text without a non-empty line. */
  function PreviewOf(csv: string, maxRows: nat): (p: Option<Preview>)
    ensures p.None? <==> NonBlank(SplitOn(csv, '\n')) == []
    ensures p.Some? ==> |p.value.rows| == Min(maxRows, p.value.total)
    ensures p.Some? ==> p.value.total + 1 == |NonBlank(SplitOn(csv, '\n'))|
    ensures p.Some? ==> p.value.header == Fields(NonBlank(SplitOn(csv, '\n'))[0])
    ensures p.Some? ==> forall i :: 0 <= i < |p.value.rows| ==>
      p.value.rows[i] == Fields(NonBlank(SplitOn(csv, '\n'))[i + 1])
  {
    var rows := ParsedLines(csv);
    if rows == [] then None
    else Some(Preview(rows[0], rows[1..Min(1 + maxRows, |rows|)], |rows| - 1))
  }

  /** Every line of a written table parses to its row, each cell read back. */
  lemma ParsedTable(rows: seq<seq<string>>)
    requires |rows| >= 1
    requires forall r :: 0 <= r < |rows| ==> |rows[r]| >= 1
    requires forall r, c :: 0 <= r < |rows| && 0 <= c < |rows[r]| ==> NoNewline(rows[r][c])
    ensures |ParsedLines(EncodeTable(rows))| == |rows|
    ensures forall r :: 0 <= r < |rows| ==> ParsedLines(EncodeTable(rows))[r] == ReadBackRow(rows[r])
  {
    TableLines(rows);
    var lines := NonBlank(SplitOn(EncodeTable(rows), '\n'));
    forall r | 0 <= r < |rows| ensures Fields(lines[r]) == ReadBackRow(rows[r]) {
      ParseEncodedRow(rows[r]);
    }
  }

  /** The preview of a written table shows its header and first `maxRows`
      data rows, each cell read back, and counts all its data rows. */
  lemma PreviewOfTable(rows: seq<seq<string>>, maxRows: nat)
    requires |rows| >= 1
    requires forall r :: 0 <= r < |rows| ==> |rows[r]| >= 1
    requires forall r, c :: 0 <= r < |rows| && 0 <= c < |rows[r]| ==> NoNewline(rows[r][c])
    ensures PreviewOf(EncodeTable(rows), maxRows).Some?
    ensures PreviewOf(EncodeTable(rows), maxRows).value.header == ReadBackRow(rows[0])
    ensures PreviewOf(EncodeTable(rows), maxRows).value.total == |rows| - 1
    ensures |PreviewOf(EncodeTable(rows), maxRows).value.rows| == Min(maxRows, |rows| - 1)
    ensures forall i :: 0 <= i < Min(maxRows, |rows| - 1) ==>
      PreviewOf(EncodeTable(rows), maxRows).value.rows[i] == ReadBackRow(rows[i + 1])
  {
    ParsedTable(rows);
  }

  // ----------------------------------------------------------------------
  // Corrected reading: a quote pair counts as a literal quote only inside
  // quotes (section 2 of RFC 4180, rule 7)
  // ----------------------------------------------------------------------

  function ScanRfc(s: string, cols: seq<string>, cur: string, inQuotes: bool): seq<string>
    decreases |s|
  {
    if s == [] then cols + [cur]
    else if inQuotes && s[0] == Quote && |s| > 1 && s[1] == Quote then ScanRfc(s[2..], cols, cur + [Quote], inQuotes)
    else if s[0] == Quote then ScanRfc(s[1..], cols, cur, !inQuotes)
    else if s[0] == ',' && !inQuotes then ScanRfc(s[1..], cols + [cur], "", inQuotes)
    else ScanRfc(s[1..], cols, cur + [s[0]], inQuotes)
  }

  lemma {:induction false} RfcQuotedBody(t: string, rest: string, cols: seq<string>, cur: string)
    requires rest == [] || rest[0] != Quote
    ensures ScanRfc(Escape(t) + [Quote] + rest, cols, cur, true) == ScanRfc(rest, cols, cur + t, false)
    decreases |t|
  {
    var s := Escape(t) + [Quote] + rest;
    if t == [] {
      assert s == [Quote] + rest;
      assert s[1..] == rest;
      assert cur + t == cur;
    } else if t[0] == Quote {
      assert s == [Quote, Quote] + (Escape(t[1..]) + [Quote] + rest);
      assert s[2..] == Escape(t[1..]) + [Quote] + rest;
      RfcQuotedBody(t[1..], rest, cols, cur + [Quote]);
      assert cur + [Quote] + t[1..] == cur + t;
    } else {
      assert s == [t[0]] + (Escape(t[1..]) + [Quote] + rest);
      assert s[1..] == Escape(t[1..]) + [Quote] + rest;
      RfcQuotedBody(t[1..], rest, cols, cur + [t[0]]);
      assert cur + [t[0]] + t[1..] == cur + t;
    }
  }

  /** With the corrected reading an encoded cell, read from outside quotes,
      adds the cell itself to the current field. */
  lemma RfcQuotedCell(cell: string, rest: string, cols: seq<string>, cur: string)
    requires rest == [] || rest[0] != Quote
    ensures ScanRfc(QuoteCell(cell) + rest, cols, cur, false) == ScanRfc(rest, cols, cur + cell, false)
  {
    var s := QuoteCell(cell) + rest;
    assert s == [Quote] + (Escape(cell) + [Quote] + rest);
    assert s[1..] == Escape(cell) + [Quote] + rest;
    RfcQuotedBody(cell, rest, cols, cur);
  }

  lemma {:induction false} RfcRowScan(row: seq<string>, cols: seq<string>)
    requires |row| >= 1
    ensures ScanRfc(EncodeRow(row), cols, "", false) == cols + row
    decreases |row|
  {
    if |row| == 1 {
      assert EncodeRow(row) == QuoteCell(row[0]) + "";
      RfcQuotedCell(row[0], "", cols, "");
      assert "" + row[0] == row[0];
      assert cols + [row[0]] == cols + row;
    } else {
      var tail := [','] + EncodeRow(row[1..]);
      assert EncodeRow(row) == QuoteCell(row[0]) + tail by {
        EncodeRowCons(row);
      }
      RfcQuotedCell(row[0], tail, cols, "");
      assert "" + row[0] == row[0];
      assert ScanRfc(tail, cols, row[0], false) == ScanRfc(EncodeRow(row[1..]), cols + [row[0]], "", false) by {
        assert tail[0] == ',' && tail[1..] == EncodeRow(row[1..]);
      }
      RfcRowScan(row[1..], cols + [row[0]]);
      assert cols + [row[0]] + row[1..] == cols + row;
    }
  }

  /** With the corrected reading every row round-trips, the empty cell and
      cells made only of quotes included. */
  lemma RfcRoundTrip(row: seq<string>)
    requires |row| >= 1
    ensures ScanRfc(EncodeRow(row), [], "", false) == row
  {
    RfcRowScan(row, []);
    assert [] + row == row;
  }

  /** As written, the empty cell that the report writes for a missing depth
      is read back as one double quote. */
  lemma EmptyCellReadsAsQuote()
    ensures Fields(EncodeRow([""])) == ["\""]
    ensures ScanRfc(EncodeRow([""]), [], "", false) == [""]
  {
    ParseEncodedRow([""]);
    assert AllQuotes("");
    assert ReadBack("") == "\"";
    assert ReadBackRow([""]) == ["\""];
    RfcRoundTrip([""]);
  }
}

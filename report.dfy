/** `makeCSV`: the synthetic final report, one header row and `rowsCount`
    random records of 20 cells, written as quoted CSV. */
module Report {
  import opened Numerals
  import opened Random
  import opened Csv
  import opened Fixtures

  /** The random draws one record consumes. The `randFloat` cells are taken
      as the text `toFixed` printed, since number formatting is not modelled. */
  datatype RowDraws = RowDraws(
    idMarker: Draw, idNumber: Draw, sequence: seq<Draw>, marker: Draw, taxonomy: Draw,
    source: Draw, sample: Draw, readCount: Draw, taxLevel: Draw,
    confidencePresent: Draw, confidence: Name, depthPresent: Draw, depth: Draw,
    kmer: seq<Draw>,
    pred1: Draw, pred1Conf: Name, pred2: Draw, pred2Conf: Name, pred3: Draw, pred3Conf: Name,
    umapX: Name, umapY: Name)

  /** Draws as `makeCSV` consumes them: 80 bases for the sequence, 60 for the
      k-mer sequence, and printed numbers for the float cells. */
  predicate WellFormed(d: RowDraws)
  {
    |d.sequence| == 80 && |d.kmer| == 60
  }

  predicate IsCount(s: string, lo: int, hi: int)
  {
    |s| >= 1 && AllDigits(s) && lo <= ValueOf(s) <= hi
  }

  /** `COI_` or `18S_` followed by exactly five digits. */
  predicate IsSeqId(s: string)
  {
    && |s| == 9
    && (s[..4] == "COI_" || s[..4] == "18S_")
    && AllDigits(s[4..]) && 1000 <= ValueOf(s[4..]) <= 99999
  }

  predicate IsLabel(s: string)
  {
    |s| > 6 && s[..6] == "LABEL_" && IsCount(s[6..], 0, 40)
  }

  predicate IsNucleotides(s: string, len: nat)
  {
    |s| == len && forall i :: 0 <= i < |s| ==> s[i] in Bases
  }

  lemma DecimalIsCount(n: nat, lo: int, hi: int)
    requires lo <= n <= hi
    ensures IsCount(Decimal(n), lo, hi) && Plain(Decimal(n))
  {
    DecimalValue(n);
  }

  lemma LabelIsLabel(n: nat)
    requires n <= 40
    ensures IsLabel("LABEL_" + Decimal(n)) && Plain("LABEL_" + Decimal(n))
  {
    DecimalIsCount(n, 0, 40);
    assert ("LABEL_" + Decimal(n))[6..] == Decimal(n);
  }

  lemma DigitsArePlain(s: string)
    requires AllDigits(s)
    ensures Plain(s)
  {
    forall i | 0 <= i < |s| ensures s[i] != '"' && s[i] != '\n' {
      assert IsDigit(s[i]);
    }
  }

  lemma PlainConcat(a: string, b: string)
    requires Plain(a) && Plain(b)
    ensures Plain(a + b)
  {
    forall i | 0 <= i < |a + b| ensures (a + b)[i] != '"' && (a + b)[i] != '\n' {
      if i < |a| { assert (a + b)[i] == a[i]; } else { assert (a + b)[i] == b[i - |a|]; }
    }
  }

  lemma MarkerPrefix(marker: string)
    requires marker == "COI" || marker == "18S"
    ensures marker + "_" == "COI_" || marker + "_" == "18S_"
    ensures Plain(marker + "_")
  {
  }

  lemma SeqIdOf(prefix: string, digits: string)
    requires prefix == "COI_" || prefix == "18S_"
    requires |digits| == 5 && AllDigits(digits) && 1000 <= ValueOf(digits) <= 99999
    ensures IsSeqId(prefix + digits)
  {
    var s := prefix + digits;
    assert s[..4] == prefix && s[4..] == digits;
  }

  lemma SeqIdIsSeqId(marker: string, n: nat)
    requires marker == "COI" || marker == "18S"
    requires 1000 <= n <= 99999
    ensures IsSeqId(marker + "_" + PadStart(Decimal(n), 5, '0'))
    ensures Plain(marker + "_" + PadStart(Decimal(n), 5, '0'))
  {
    var digits := PadStart(Decimal(n), 5, '0');
    PaddedDecimal(n, 5);
    DigitsArePlain(digits);
    MarkerPrefix(marker);
    PlainConcat(marker + "_", digits);
    SeqIdOf(marker + "_", digits);
  }

  lemma NucleotidesArePlain(s: string, len: nat)
    requires IsNucleotides(s, len)
    ensures Plain(s)
  {
    forall i | 0 <= i < |s| ensures s[i] != '"' && s[i] != '\n' {
      assert s[i] in Bases;
    }
  }

  /** `seq_id`: the marker a draw picks, an underscore, and a number of
      [1000, 99999] padded to five digits. */
  function SeqId(marker: Draw, number: Draw): (s: Text)
    ensures IsSeqId(s)
  {
    var m := if marker > 0.5 then "COI" else "18S";
    var n := RandInt(number, 1000, 99999) as nat;
    SeqIdIsSeqId(m, n);
    m + "_" + PadStart(Decimal(n), 5, '0')
  }

  /** `randInt(lo, hi)` written as a cell. */
  function Count(u: Draw, lo: nat, hi: nat): (s: Text)
    requires lo <= hi
    ensures IsCount(s, lo, hi)
  {
    var n := RandInt(u, lo, hi) as nat;
    DecimalIsCount(n, lo, hi);
    Decimal(n)
  }

  /** `'LABEL_' + randInt(0, 40)`. */
  function Label(u: Draw): (s: Text)
    ensures IsLabel(s)
  {
    var n := RandInt(u, 0, 40) as nat;
    LabelIsLabel(n);
    "LABEL_" + Decimal(n)
  }

  /** A `randSeq` result as a cell. */
  function BaseCell(draws: seq<Draw>): (s: Text)
    ensures IsNucleotides(s, |draws|)
  {
    NucleotidesArePlain(Nucleotides(draws), |draws|);
    Nucleotides(draws)
  }

  /** One record of the report, one field per column. */
  datatype ReportRow = ReportRow(
    seqId: Text, sequence: Text, marker: Text, taxonomy: Text, source: Text, sampleId: Text,
    readCount: Text, taxLevel: Text, confidence: Text, location: Text, depth: Text, kmer: Text,
    pred1: Text, pred1Conf: Text, pred2: Text, pred2Conf: Text, pred3: Text, pred3Conf: Text,
    umapX: Text, umapY: Text)

  /** The cells of a record in header order. */
  function Cells(r: ReportRow): (row: seq<Text>)
    ensures |row| == |Header|
    ensures row[3] == r.taxonomy && row[6] == r.readCount && row[10] == r.depth
  {
    [ r.seqId, r.sequence, r.marker, r.taxonomy, r.source, r.sampleId, r.readCount,
      r.taxLevel, r.confidence, r.location, r.depth, r.kmer,
      r.pred1, r.pred1Conf, r.pred2, r.pred2Conf, r.pred3, r.pred3Conf, r.umapX, r.umapY ]
  }

  /** The record one loop iteration of `makeCSV` builds, given the two base
      strings `randSeq` returned: every cell but the two base strings and the
      printed numbers comes from its fixture or its numeric range. */
  function Row(d: RowDraws, sequence: Text, kmer: Text): (rec: ReportRow)
    ensures IsSeqId(rec.seqId)
    ensures rec.sequence == sequence && rec.kmer == kmer
    ensures rec.marker in Markers && rec.taxonomy in Species && rec.source in Sources
    ensures rec.sampleId in Locations && rec.taxLevel in TaxLevels
    ensures IsCount(rec.readCount, 1, 300)
    ensures rec.confidence == (if d.confidencePresent > 0.3 then d.confidence else rec.taxLevel)
    ensures rec.location == rec.sampleId
    ensures rec.depth == "" <==> d.depthPresent <= 0.2
    ensures rec.depth != "" ==> IsCount(rec.depth, 10, 6000)
    ensures IsLabel(rec.pred1) && IsLabel(rec.pred2) && IsLabel(rec.pred3)
  {
    var sample := RandChoice(Locations, d.sample);
    var taxLevel := RandChoice(TaxLevels, d.taxLevel);
    ReportRow(
      SeqId(d.idMarker, d.idNumber), sequence, RandChoice(Markers, d.marker),
      RandChoice(Species, d.taxonomy), RandChoice(Sources, d.source), sample,
      Count(d.readCount, 1, 300), taxLevel,
      if d.confidencePresent > 0.3 then d.confidence else taxLevel,
      sample,
      if d.depthPresent > 0.2 then Count(d.depth, 10, 6000) else "",
      kmer,
      Label(d.pred1), d.pred1Conf, Label(d.pred2), d.pred2Conf,
      Label(d.pred3), d.pred3Conf, d.umapX, d.umapY)
  }

  /** One record of `makeCSV` keeps the report's schema: a `seq_id` of
      `COI_` or `18S_` and five digits; an 80-base sequence and a 60-base
      k-mer sequence over A, C, G, T; marker, taxonomy, source, sample and
      level from their fixtures; a read count in [1, 300]; a confidence that
      is the printed score or, when that draw fails, the taxonomic level; the
      location equal to the sample; a depth that is empty or in [10, 6000];
      three `LABEL_` predictions in [0, 40] with their printed scores. No
      cell holds a quote or a line feed, by its type. */
  function Record(d: RowDraws): (rec: ReportRow)
    ensures IsNucleotides(rec.sequence, |d.sequence|) && IsNucleotides(rec.kmer, |d.kmer|)
    ensures WellFormed(d) ==> Filled(rec)
  {
    Row(d, BaseCell(d.sequence), BaseCell(d.kmer))
  }

  lemma RecordSchema(d: RowDraws)
    requires WellFormed(d)
    ensures IsSeqId(Record(d).seqId)
    ensures IsNucleotides(Record(d).sequence, 80) && IsNucleotides(Record(d).kmer, 60)
    ensures Record(d).marker in Markers && Record(d).taxonomy in Species && Record(d).source in Sources
    ensures Record(d).sampleId in Locations && Record(d).taxLevel in TaxLevels
    ensures IsCount(Record(d).readCount, 1, 300)
    ensures Record(d).confidence == (if d.confidencePresent > 0.3 then d.confidence else Record(d).taxLevel)
    ensures Record(d).location == Record(d).sampleId
    ensures Record(d).depth == "" <==> d.depthPresent <= 0.2
    ensures Record(d).depth != "" ==> IsCount(Record(d).depth, 10, 6000)
    ensures IsLabel(Record(d).pred1) && IsLabel(Record(d).pred2) && IsLabel(Record(d).pred3)
    ensures Record(d).pred1Conf == d.pred1Conf && Record(d).pred2Conf == d.pred2Conf && Record(d).pred3Conf == d.pred3Conf
    ensures Record(d).umapX == d.umapX && Record(d).umapY == d.umapY
    ensures Filled(Record(d))
  {
  }

  /** `f` applied to each element, in order. */
  function MapSeq<A, B>(f: A -> B, xs: seq<A>): (ys: seq<B>)
    ensures |ys| == |xs|
    ensures forall k :: 0 <= k < |xs| ==> ys[k] == f(xs[k])
  {
    seq(|xs|, i requires 0 <= i < |xs| => f(xs[i]))
  }

  lemma MapSeqAppend<A, B>(f: A -> B, xs: seq<A>, i: nat)
    requires i < |xs|
    ensures MapSeq(f, xs[..i + 1]) == MapSeq(f, xs[..i]) + [f(xs[i])]
  {
  }

  lemma MapSeqSnoc<A, B>(f: A -> B, xs: seq<A>, x: A)
    ensures MapSeq(f, xs + [x]) == MapSeq(f, xs) + [f(x)]
  {
  }

  /** The record of each draw, in order. */
  function RecordsOf(draws: seq<RowDraws>): seq<ReportRow>
  {
    MapSeq(Record, draws)
  }

  /** The cells of each record, in order. */
  function CellRows(recs: seq<ReportRow>): seq<seq<string>>
  {
    MapSeq(r => Cells(r), recs)
  }

  /** The header row followed by the records: one row per draw. */
  function Table(draws: seq<RowDraws>): (t: seq<seq<string>>)
    ensures |t| == |draws| + 1 && t[0] == Header
  {
    var header: seq<string> := Header;
    [header] + CellRows(RecordsOf(draws))
  }

  /** `makeCSV(rowsCount)`, with its loop that pushes one record per row. */
  method MakeCsv(rowsCount: nat, draws: seq<RowDraws>) returns (csv: string)
    requires rowsCount <= |draws|
    requires forall i :: 0 <= i < |draws| ==> WellFormed(draws[i])
    ensures csv == EncodeTable(Table(draws[..rowsCount]))
  {
    var rows: seq<seq<string>> := [];
    ghost var recs: seq<ReportRow> := [];
    for i := 0 to rowsCount
      invariant recs == RecordsOf(draws[..i])
      invariant rows == CellRows(recs)
    {
      var d := draws[i];
      var sequence := RandSeq(80, d.sequence);
      var kmer := RandSeq(60, d.kmer);
      assert d.sequence[..80] == d.sequence && d.kmer[..60] == d.kmer;
      assert sequence == BaseCell(d.sequence) && kmer == BaseCell(d.kmer);
      var record := Row(d, sequence, kmer);
      assert record == Record(draws[i]);
      MapSeqSnoc(r => Cells(r), recs, record);
      MapSeqAppend(Record, draws, i);
      rows := rows + [Cells(record)];
      recs := recs + [record];
    }
    var header: seq<string> := Header;
    csv := EncodeTable([header] + rows);
  }

  lemma TableIsWritable(draws: seq<RowDraws>)
    ensures forall r :: 0 <= r < |Table(draws)| ==> |Table(draws)[r]| >= 1
    ensures forall r, c :: 0 <= r < |Table(draws)| && 0 <= c < |Table(draws)[r]| ==>
      NoNewline(Table(draws)[r][c])
  {
    var t := Table(draws);
    forall r, c | 0 <= r < |t| && 0 <= c < |t[r]| ensures NoNewline(t[r][c]) {
      if r > 0 {
        assert t[r] == Cells(Record(draws[r - 1]));
      }
    }
  }

  /** The report text is `rowsCount + 1` lines, line `r` encoding row `r`
      of the table: the header first, then the records in order. */
  lemma ReportLines(draws: seq<RowDraws>)
    ensures |SplitOn(EncodeTable(Table(draws)), '\n')| == |draws| + 1
    ensures forall r :: 0 <= r <= |draws| ==>
      SplitOn(EncodeTable(Table(draws)), '\n')[r] == EncodeRow(Table(draws)[r])
  {
    TableIsWritable(draws);
    TableLines(Table(draws));
  }

  /** How the preview shows a cell with no quote and no line feed: as it
      is, unless it is empty, which shows as one double quote. */
  lemma PlainReadsBack(cell: string)
    requires Plain(cell)
    ensures ReadBack(cell) == if cell == "" then "\"" else cell
  {
    if cell != "" {
      assert cell[0] != '"';
    }
  }

  /** Every field of the record but the depth is non-empty. */
  predicate Filled(r: ReportRow)
  {
    && r.seqId != ""
    && r.sequence != ""
    && r.marker != ""
    && r.taxonomy != ""
    && r.source != ""
    && r.sampleId != ""
    && r.readCount != ""
    && r.taxLevel != ""
    && r.confidence != ""
    && r.location != ""
    && r.kmer != ""
    && r.pred1 != ""
    && r.pred1Conf != ""
    && r.pred2 != ""
    && r.pred2Conf != ""
    && r.pred3 != ""
    && r.pred3Conf != ""
    && r.umapX != ""
    && r.umapY != ""
  }

  /** A record's cells with an empty depth replaced by one double quote. */
  function Displayed(r: ReportRow): (shown: seq<string>)
    ensures |shown| == |Header|
  {
    var row: seq<string> := Cells(r);
    row[10 := if r.depth == "" then "\"" else r.depth]
  }

  /** The preview shows the cells of a filled record as they are, except an
      empty depth, which it shows as one double quote. */
  lemma FilledReadsBack(r: ReportRow)
    requires Filled(r)
    ensures ReadBackRow(Cells(r)) == Displayed(r)
  {
    var row: seq<string> := Cells(r);
    assert forall c :: 0 <= c < |row| && c != 10 ==> row[c] != "";
    ReadsBackExcept(row, 10);
  }

  /** A row of plain cells, all non-empty but the one at `k`, reads back as
      itself, except that an empty cell at `k` reads back as one quote. */
  lemma ReadsBackExcept(row: seq<string>, k: nat)
    requires k < |row|
    requires forall c :: 0 <= c < |row| ==> Plain(row[c])
    requires forall c :: 0 <= c < |row| && c != k ==> row[c] != ""
    ensures ReadBackRow(row) == row[k := if row[k] == "" then "\"" else row[k]]
  {
    forall c | 0 <= c < |row| ensures ReadBackRow(row)[c] == ReadBack(row[c]) {
    }
    forall c | 0 <= c < |row| ensures ReadBack(row[c]) == if row[c] == "" then "\"" else row[c] {
      PlainReadsBack(row[c]);
    }
  }

  /** Row `i + 1` of the table holds the cells of the `i`-th record. */
  lemma TableRow(draws: seq<RowDraws>, i: nat)
    requires i < |draws|
    ensures |Table(draws)| == |draws| + 1
    ensures Table(draws)[i + 1] == Cells(Record(draws[i]))
  {
  }

  /** Row `i + 1` of the report as the preview reads it back. */
  lemma PreviewedRecord(draws: seq<RowDraws>, i: nat)
    requires i < |draws| && WellFormed(draws[i])
    ensures |Table(draws)| == |draws| + 1
    ensures ReadBackRow(Table(draws)[i + 1]) == Displayed(Record(draws[i]))
  {
    TableRow(draws, i);
    RecordSchema(draws[i]);
    FilledReadsBack(Record(draws[i]));
  }

  /** The preview of the report shows the header exactly, counts every
      record, and shows the first `maxRows` records as they are, except an
      empty depth, which it shows as one double quote. */
  lemma ReportPreview(draws: seq<RowDraws>, maxRows: nat)
    requires forall i :: 0 <= i < |draws| ==> WellFormed(draws[i])
    ensures PreviewOf(EncodeTable(Table(draws)), maxRows).Some?
    ensures PreviewOf(EncodeTable(Table(draws)), maxRows).value.header == Header
    ensures PreviewOf(EncodeTable(Table(draws)), maxRows).value.total == |draws|
    ensures |PreviewOf(EncodeTable(Table(draws)), maxRows).value.rows| == Min(maxRows, |draws|)
    ensures forall i :: 0 <= i < Min(maxRows, |draws|) ==>
      PreviewOf(EncodeTable(Table(draws)), maxRows).value.rows[i] == Displayed(Record(draws[i]))
  {
    var t := Table(draws);
    TableIsWritable(draws);
    PreviewOfTable(t, maxRows);
    forall c | 0 <= c < 20 ensures ReadBackRow(Header)[c] == Header[c] {
      PlainReadsBack(Header[c]);
    }
    forall i | 0 <= i < Min(maxRows, |draws|)
      ensures ReadBackRow(t[i + 1]) == Displayed(Record(draws[i]))
    {
      PreviewedRecord(draws, i);
    }
  }
}

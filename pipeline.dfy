/** The steps chained as the DAG runs them: validation reads the file
    extraction wrote, and the load script then runs over the warehouse
    file validation wrote. */
module Pipeline {
  import opened Wrappers
  import opened Text
  import opened Numbers
  import opened Extract
  import opened Validate
  import LoadScript

  /** The row validation reads back from an extracted record: the symbol
      and the float `float(str(price))` gives. */
  function RowOf(r: PriceRecord): Row {
    Row(r.symbol, PriceNumber(r.price))
  }

  function RowsOf(records: seq<PriceRecord>): seq<Row>
  {
    seq(|records|, i requires 0 <= i < |records| => RowOf(records[i]))
  }

  /** Fields extraction writes that read back as they were. */
  predicate PlainRecord(r: PriceRecord) {
    PlainField(r.date) && PlainField(r.symbol)
  }

  /** The price field: no comma, no line break, a digit at the end, and
      `float()` reads it as the price's float. */
  lemma {:induction false} PriceField(p: Price)
    ensures var t := FormatPrice(p);
      && ',' !in t && NoLineBreak(t)
      && |t| > 0 && !IsSpace(t[|t| - 1])
      && ParseNumber(t) == Some(PriceNumber(p))
  {
    PriceRoundTrip(p);
    PriceFieldChars(p);
  }

  /** The characters of the price field. */
  lemma {:induction false} PriceFieldChars(p: Price)
    ensures var t := FormatPrice(p);
      ',' !in t && NoLineBreak(t) && |t| > 0 && !IsSpace(t[|t| - 1])
  {
    PriceText(p);
    match p
    case Whole(_) =>
      NumeralField(FormatPrice(p));
    case Hundredths(_, _) =>
      NumeralField(FormatPrice(p));
    case InfinityPrice(negative) =>
      WordField(Sign(negative) + "inf");
    case NaNPrice =>
      WordField("nan");
  }

  /** Numeral text ending with a digit is a plain price field. */
  lemma {:induction false} NumeralField(t: string)
    requires |t| > 0 && IsDigit(t[|t| - 1]) && NumeralText(t)
    ensures ',' !in t && NoLineBreak(t) && !IsSpace(t[|t| - 1])
  {
    DigitIsNotSpace(t[|t| - 1]);
  }

  /** The spellings of the infinities and NaN are plain price fields. */
  lemma {:induction false} WordField(t: string)
    requires t == "inf" || t == "-inf" || t == "nan"
    ensures ',' !in t && NoLineBreak(t) && |t| > 0 && !IsSpace(t[|t| - 1])
  {
  }

  /** A record's CSV line holds no line break. */
  lemma {:induction false} RecordLinePlain(r: PriceRecord)
    requires PlainRecord(r)
    ensures NoLineBreak(RecordLine(r))
  {
    PriceField(r.price);
    FieldsNoBreak(r.date, r.symbol, FormatPrice(r.price));
  }

  lemma {:induction false} FieldsNoBreak(a: string, b: string, c: string)
    requires NoLineBreak(a) && NoLineBreak(b) && NoLineBreak(c)
    ensures NoLineBreak(a + "," + b + "," + c)
  {
    var line := a + "," + b + "," + c;
    assert line == a + [','] + b + [','] + c;
    forall i | 0 <= i < |line|
      ensures !IsLineBreak(line[i])
    {
      if i < |a| {
        assert line[i] == a[i];
      } else if |a| < i < |a| + 1 + |b| {
        assert line[i] == b[i - |a| - 1];
      } else if i > |a| + 1 + |b| {
        assert line[i] == c[i - |a| - |b| - 2];
      }
    }
  }

  /** Validation reads a record's CSV line back as the record's symbol
      and price. */
  lemma {:induction false} RecordLineReadsBack(r: PriceRecord)
    requires PlainRecord(r)
    ensures ParseRow(RecordLine(r)) == Some(RowOf(r))
  {
    PriceField(r.price);
    PlainFieldHasNoComma(r.date);
    PlainFieldHasNoComma(r.symbol);
    ParseFields(r.date, r.symbol, FormatPrice(r.price));
  }

  /** Validation reads back, from the file extraction writes, one row per
      record, in order: nothing is dropped and nothing is altered. */
  lemma {:induction false} CsvReadBack(records: seq<PriceRecord>)
    requires forall i :: 0 <= i < |records| ==> PlainRecord(records[i])
    ensures ValidRows(DataLines(CsvText(records))) == RowsOf(records)
  {
    CsvDataLines(records);
    var lines := RecordLines(records);
    forall i | 0 <= i < |lines|
      ensures ParseRow(lines[i]) == Some(RowsOf(records)[i])
    {
      RecordLineReadsBack(records[i]);
    }
    FilterMapTotal(ParseRow, lines, RowsOf(records));
  }

  /** Past the header, the lines read from the file are the records'
      lines. */
  lemma {:induction false} CsvDataLines(records: seq<PriceRecord>)
    requires forall i :: 0 <= i < |records| ==> PlainRecord(records[i])
    ensures DataLines(CsvText(records)) == RecordLines(records)
  {
    var lines := RecordLines(records);
    CsvTextShape(records);
    HeaderSkipped(CsvHeader, Unlines(lines));
    forall i | 0 <= i < |lines|
      ensures NoLineBreak(lines[i])
    {
      RecordLinePlain(records[i]);
    }
    FileLinesUnlines(lines);
  }

  /** The file is the header line, then the records' lines. */
  lemma {:induction false} CsvTextShape(records: seq<PriceRecord>)
    ensures NoLineBreak(CsvHeader)
    ensures CsvText(records) == CsvHeader + "\n" + Unlines(RecordLines(records))
  {
    assert ([CsvHeader] + RecordLines(records))[1..] == RecordLines(records);
  }

  /** Records with distinct symbols give rows with distinct symbols. */
  lemma {:induction false} RowsDistinct(records: seq<PriceRecord>)
    requires Extract.DistinctSymbols(records)
    ensures Validate.DistinctSymbols(RowsOf(records))
  {
    var rows := RowsOf(records);
    forall i, j | 0 <= i < j < |rows|
      ensures rows[i].symbol != rows[j].symbol
    {
      assert rows[i].symbol == records[i].symbol && rows[j].symbol == records[j].symbol;
    }
  }

  /** For a run date with no comma and no line break, validation keeps
      every extracted record and only those, in extraction order:
      neither the format check nor the duplicate check drops anything. */
  lemma {:induction false} ExtractedRowsPrepared(date: string, fetch: string -> Response)
    requires PlainField(date)
    ensures PreparedRows(CsvText(Collected(date, EgxSymbols, fetch))) == RowsOf(Collected(date, EgxSymbols, fetch))
  {
    var records := Collected(date, EgxSymbols, fetch);
    ExtractedSymbolsPlain(date, fetch);
    ExtractedDistinct(date, fetch);
    CsvReadBack(records);
    RowsDistinct(records);
    DedupDistinctIdentity(RowsOf(records));
  }

  /** `extract >> validate`: the path extraction returns is the file
      validation opens, and validation runs for the same date. */
  method ExtractThenValidate(date: string, fetch: string -> Response) returns (r: Result<Prepared, ExtractError>)
    ensures r.Failure? <==> Collected(date, EgxSymbols, fetch) == []
    ensures r.Failure? ==> r.error == NoDataExtracted
    ensures r.Success? ==> r.value == Prepared(
      HiveDataPath(date), HiveText(PreparedRows(CsvText(Collected(date, EgxSymbols, fetch)))),
      HqlPath(date), LoadScript.ScriptText(HiveDataPath(date), date))
    ensures r.Success? && PlainField(date) ==>
      r.value.dataContent == HiveText(RowsOf(Collected(date, EgxSymbols, fetch)))
  {
    var extracted := ExtractStockData(date, fetch);
    if extracted.Failure? {
      return Failure(extracted.error);
    }
    var prepared := ValidateAndPrepare(date, extracted.value.content);
    if PlainField(date) {
      ExtractedRowsPrepared(date, fetch);
    }
    r := Success(prepared);
  }

  /** The warehouse once validation's file is in place: the file, as the
      lines Hive reads, at its path. */
  function WithDataFile(w: LoadScript.Warehouse, date: string, content: string): LoadScript.Warehouse {
    w.(files := w.files[HiveDataPath(date) := FileLines(content)])
  }

  /** The warehouse after the DAG's run for `date`, `None` where Hive
      fails. When extraction raises, validation and the load never run and
      the warehouse is as it was; otherwise validation's file is put in
      place and Hive runs the load script. */
  function DagRun(date: string, fetch: string -> Response, w: LoadScript.Warehouse): Option<LoadScript.Warehouse> {
    if Collected(date, EgxSymbols, fetch) == [] then Some(w)
    else LoadScript.Run(LoadScript.Script(HiveDataPath(date), date), WithPreparedFile(date, fetch, w))
  }

  /** The warehouse with the file validation writes for a run's batch. */
  function WithPreparedFile(date: string, fetch: string -> Response, w: LoadScript.Warehouse): LoadScript.Warehouse {
    WithDataFile(w, date, HiveText(PreparedRows(CsvText(Collected(date, EgxSymbols, fetch)))))
  }

  /** A whole run: with an empty batch the warehouse is left as it was;
      otherwise, after extraction, validation and the load, the run date's
      partition holds one line per extracted record, each the record's
      symbol and price as `float()` reads them. Either way every other
      partition is as it was before. */
  lemma {:induction false} DailyRun(date: string, fetch: string -> Response, w: LoadScript.Warehouse)
    requires PlainField(date)
    ensures DagRun(date, fetch, w).Some?
    ensures Collected(date, EgxSymbols, fetch) == [] ==> DagRun(date, fetch, w) == Some(w)
    ensures var records := Collected(date, EgxSymbols, fetch);
      var partition := LoadScript.PartitionRows(DagRun(date, fetch, w).value, date);
      records != [] ==> partition == HiveLines(RowsOf(records)) && |partition| == |records|
    ensures forall d :: d != date ==>
      LoadScript.PartitionRows(DagRun(date, fetch, w).value, d) == LoadScript.PartitionRows(w, d)
  {
    var records := Collected(date, EgxSymbols, fetch);
    if records != [] {
      var rows := RowsOf(records);
      ExtractedRowsPrepared(date, fetch);
      ExtractedSymbolsPlain(date, fetch);
      forall i | 0 <= i < |rows|
        ensures PlainField(rows[i].symbol)
      {
        assert rows[i].symbol == records[i].symbol;
      }
      HiveTextLines(rows);
      var w1 := WithDataFile(w, date, HiveText(rows));
      LoadScript.RunScript(HiveDataPath(date), date, w1);
    }
  }
}

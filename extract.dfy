/** The extraction step of the EGX30 pipeline: one chart request per
    configured symbol, a record for each symbol whose first close price is
    present, an error when there is none, and the CSV file the records are
    written to.

    The request itself (URL, headers, timeout, JSON decoding) is not part
    of this model: what a symbol's response yields is a parameter,
    `fetch`, and a request that raises is a response without a close
    array. */
module Extract {
  import opened Wrappers
  import opened Text
  import opened Numbers

  /** The ISIN codes of the EGX30 stocks the pipeline follows, in the
      order it requests them. */
  const EgxCodes: seq<string> := [
    "EGS01041C010", "EGS01071C017", "EGS01081C016",
    "EGS02021C011", "EGS02051C018", "EGS02091C014",
    "EGS02211C018", "EGS02291C010", "EGS07061C012"
  ]

  /** Their Yahoo Finance tickers: the code with the Cairo exchange
      suffix `.CA`. */
  const EgxSymbols: seq<string> := [
    "EGS01041C010.CA", "EGS01071C017.CA", "EGS01081C016.CA",
    "EGS02021C011.CA", "EGS02051C018.CA", "EGS02091C014.CA",
    "EGS02211C018.CA", "EGS02291C010.CA", "EGS07061C012.CA"
  ]

  /** What extraction finds in the response for one symbol: the `close`
      array of the first quote of the first chart result, a JSON `null`
      being `None`; or `None` when the request or the decoding raised or
      the chart had no result. */
  type Response = Option<seq<Option<Close>>>

  /** One extracted row: the run's date, the cleaned symbol and the
      rounded close. */
  datatype PriceRecord = PriceRecord(date: string, symbol: string, price: Price)

  /** `symbol.replace('.CA', '')`. */
  function CleanSymbol(symbol: string): string {
    RemoveAll(symbol, ".CA")
  }

  /** The response carries a first close price that is not `null`. */
  predicate HasClose(response: Response) {
    response.Some? && |response.value| > 0 && response.value[0].Some?
  }

  /** The record a symbol contributes, if any. */
  function RecordFor(date: string, symbol: string, response: Response): Option<PriceRecord> {
    if HasClose(response) then
      Some(PriceRecord(date, CleanSymbol(symbol), RoundPrice(response.value[0].value)))
    else None
  }

  /** The records collected, in request order, for `symbols`. */
  function Collected(date: string, symbols: seq<string>, fetch: string -> Response): (records: seq<PriceRecord>)
    ensures |records| <= |symbols|
    ensures forall i :: 0 <= i < |records| ==> records[i].date == date
    decreases |symbols|
  {
    if symbols == [] then []
    else
      var n := |symbols| - 1;
      Collected(date, symbols[..n], fetch) + Contribution(date, symbols[n], fetch)
  }

  function Contribution(date: string, symbol: string, fetch: string -> Response): seq<PriceRecord> {
    match RecordFor(date, symbol, fetch(symbol))
    case Some(r) => [r]
    case None => []
  }

  /** The request loop: every configured symbol in turn, appending a
      record whenever its response has a first close price. */
  method CollectRecords(date: string, fetch: string -> Response) returns (records: seq<PriceRecord>)
    ensures records == Collected(date, EgxSymbols, fetch)
  {
    records := [];
    for i := 0 to |EgxSymbols|
      invariant records == Collected(date, EgxSymbols[..i], fetch)
    {
      var symbol := EgxSymbols[i];
      var response := fetch(symbol);
      if response.Some? && |response.value| > 0 && response.value[0].Some? {
        var price := RoundPrice(response.value[0].value);
        var cleanSymbol := CleanSymbol(symbol);
        records := records + [PriceRecord(date, cleanSymbol, price)];
      }
      assert EgxSymbols[..i + 1][..i] == EgxSymbols[..i];
    }
    assert EgxSymbols[..|EgxSymbols|] == EgxSymbols;
  }

  // ---------------------------------------------------------------------
  // What is collected

  /** A symbol contributes at most one record, under its cleaned name. */
  lemma {:induction false} ContributionShape(date: string, symbol: string, fetch: string -> Response)
    ensures |Contribution(date, symbol, fetch)| <= 1
    ensures forall r :: r in Contribution(date, symbol, fetch) ==> r.symbol == CleanSymbol(symbol)
  {
  }

  /** A record is collected exactly when some symbol's response yields
      it. */
  lemma {:induction false} CollectedMembership(date: string, symbols: seq<string>, fetch: string -> Response, r: PriceRecord)
    ensures r in Collected(date, symbols, fetch) <==>
      exists i :: 0 <= i < |symbols| && RecordFor(date, symbols[i], fetch(symbols[i])) == Some(r)
    decreases |symbols|
  {
    if symbols != [] {
      var n := |symbols| - 1;
      var prefix := symbols[..n];
      CollectedMembership(date, prefix, fetch, r);
      ContributionMembership(date, symbols[n], fetch, r);
      if r in Collected(date, prefix, fetch) {
        var i :| 0 <= i < n && RecordFor(date, prefix[i], fetch(prefix[i])) == Some(r);
        assert prefix[i] == symbols[i];
      }
      if exists i :: 0 <= i < |symbols| && RecordFor(date, symbols[i], fetch(symbols[i])) == Some(r) {
        var i :| 0 <= i < |symbols| && RecordFor(date, symbols[i], fetch(symbols[i])) == Some(r);
        if i < n {
          assert prefix[i] == symbols[i];
        }
      }
    }
  }

  lemma {:induction false} ContributionMembership(date: string, symbol: string, fetch: string -> Response, r: PriceRecord)
    ensures r in Contribution(date, symbol, fetch) <==> RecordFor(date, symbol, fetch(symbol)) == Some(r)
  {
  }

  /** Nothing is collected exactly when no symbol's response has a first
      close price. */
  lemma {:induction false} CollectedEmpty(date: string, symbols: seq<string>, fetch: string -> Response)
    ensures Collected(date, symbols, fetch) == [] <==> forall i :: 0 <= i < |symbols| ==> !HasClose(fetch(symbols[i]))
    decreases |symbols|
  {
    if symbols != [] {
      var n := |symbols| - 1;
      CollectedEmpty(date, symbols[..n], fetch);
      var prefix := symbols[..n];
      assert forall i :: 0 <= i < n ==> prefix[i] == symbols[i];
    }
  }

  /** A code of capital letters and digits. */
  predicate IsCode(s: string) {
    forall i :: 0 <= i < |s| ==> 'A' <= s[i] <= 'Z' || '0' <= s[i] <= '9'
  }

  lemma {:induction false} EgxCodesShape()
    ensures forall i :: 0 <= i < |EgxCodes| ==> IsCode(EgxCodes[i])
    ensures forall i, j :: 0 <= i < j < |EgxCodes| ==> EgxCodes[i] != EgxCodes[j]
  {
    forall i, j | 0 <= i < j < |EgxCodes|
      ensures EgxCodes[i] != EgxCodes[j]
    {
      var a, b := EgxCodes[i], EgxCodes[j];
      assert |a| == 12 && |b| == 12;
      assert a[4] != b[4] || a[5] != b[5] || a[6] != b[6];
    }
  }

  /** Each ticker is its code followed by `.CA`. */
  lemma {:induction false} TickersAreCodes()
    ensures |EgxSymbols| == |EgxCodes|
    ensures forall i :: 0 <= i < |EgxSymbols| ==> EgxSymbols[i] == EgxCodes[i] + ".CA"
  {
  }

  /** Removing `.CA` from a ticker gives its code back. */
  lemma {:induction false} CleanTicker(code: string)
    requires IsCode(code)
    ensures CleanSymbol(code + ".CA") == code
  {
    RemoveTrailing(code, ".CA");
  }

  /** `EGS01041C010.CA` is stored as `EGS01041C010`. */
  lemma {:induction false} CleanSymbolExample()
    ensures EgxSymbols[0] == "EGS01041C010.CA" && CleanSymbol(EgxSymbols[0]) == "EGS01041C010"
  {
    EgxCodesShape();
    TickersAreCodes();
    CleanTicker(EgxCodes[0]);
  }

  /** The configured tickers clean to their codes: pairwise distinct, and
      free of commas and line breaks. */
  lemma {:induction false} EgxSymbolsDistinct()
    ensures forall i :: 0 <= i < |EgxSymbols| ==> CleanSymbol(EgxSymbols[i]) == EgxCodes[i]
    ensures forall i, j :: 0 <= i < j < |EgxSymbols| ==> CleanSymbol(EgxSymbols[i]) != CleanSymbol(EgxSymbols[j])
    ensures forall i :: 0 <= i < |EgxSymbols| ==> PlainField(CleanSymbol(EgxSymbols[i]))
  {
    EgxCodesShape();
    TickersAreCodes();
    forall i | 0 <= i < |EgxSymbols|
      ensures CleanSymbol(EgxSymbols[i]) == EgxCodes[i]
    {
      CleanTicker(EgxCodes[i]);
    }
  }

  /** No two records share a symbol. */
  predicate DistinctSymbols(records: seq<PriceRecord>) {
    forall i, j :: 0 <= i < j < |records| ==> records[i].symbol != records[j].symbol
  }

  /** The symbols collected are pairwise distinct whenever the symbols
      requested clean to distinct symbols. */
  lemma {:induction false} CollectedDistinct(date: string, symbols: seq<string>, fetch: string -> Response)
    requires forall i, j :: 0 <= i < j < |symbols| ==> CleanSymbol(symbols[i]) != CleanSymbol(symbols[j])
    ensures DistinctSymbols(Collected(date, symbols, fetch))
    decreases |symbols|
  {
    if symbols != [] {
      var n := |symbols| - 1;
      var prefix := symbols[..n];
      assert forall i :: 0 <= i < n ==> prefix[i] == symbols[i];
      CollectedDistinct(date, prefix, fetch);
      var head := Collected(date, prefix, fetch);
      var tail := Contribution(date, symbols[n], fetch);
      forall r | r in head
        ensures r.symbol != CleanSymbol(symbols[n])
      {
        CollectedMembership(date, prefix, fetch, r);
        var k :| 0 <= k < n && RecordFor(date, prefix[k], fetch(prefix[k])) == Some(r);
        assert r.symbol == CleanSymbol(symbols[k]);
      }
      var records := head + tail;
      forall i, j | 0 <= i < j < |records|
        ensures records[i].symbol != records[j].symbol
      {
        if j >= |head| {
          ContributionShape(date, symbols[n], fetch);
          assert |tail| == 1 && j == |head|;
          assert records[i] == head[i] && records[i] in head;
          assert records[j] == tail[0] && tail[0].symbol == CleanSymbol(symbols[n]);
        } else {
          assert records[i] == head[i] && records[j] == head[j];
        }
      }
    }
  }

  /** The symbols extraction collects are pairwise distinct, one record
      per configured ticker at most. */
  lemma {:induction false} ExtractedDistinct(date: string, fetch: string -> Response)
    ensures |Collected(date, EgxSymbols, fetch)| <= |EgxSymbols|
    ensures DistinctSymbols(Collected(date, EgxSymbols, fetch))
  {
    EgxSymbolsDistinct();
    CollectedDistinct(date, EgxSymbols, fetch);
  }

  /** What extraction collects over the configured tickers: a record
      exactly for each ticker whose response has a first close, holding
      the run's date, the ticker's code and the close rounded. */
  lemma {:induction false} ExtractedRecords(date: string, fetch: string -> Response, r: PriceRecord)
    ensures r in Collected(date, EgxSymbols, fetch) <==>
      exists i :: 0 <= i < |EgxSymbols| && HasClose(fetch(EgxSymbols[i]))
        && r == PriceRecord(date, EgxCodes[i], RoundPrice(fetch(EgxSymbols[i]).value[0].value))
  {
    EgxSymbolsDistinct();
    CollectedMembership(date, EgxSymbols, fetch, r);
  }

  /** Every collected symbol is a cleaned configured ticker, and so a
      field without comma or line break. */
  lemma {:induction false} ExtractedSymbolsPlain(date: string, fetch: string -> Response)
    ensures var records := Collected(date, EgxSymbols, fetch);
      forall i :: 0 <= i < |records| ==> PlainField(records[i].symbol)
  {
    var records := Collected(date, EgxSymbols, fetch);
    forall i | 0 <= i < |records|
      ensures PlainField(records[i].symbol)
    {
      CollectedMembership(date, EgxSymbols, fetch, records[i]);
      var k :| 0 <= k < |EgxSymbols| && RecordFor(date, EgxSymbols[k], fetch(EgxSymbols[k])) == Some(records[i]);
      TickerPlain(k);
    }
  }

  /** A configured ticker cleans to a plain field. */
  lemma {:induction false} TickerPlain(k: int)
    requires 0 <= k < |EgxSymbols|
    ensures PlainField(CleanSymbol(EgxSymbols[k]))
  {
    EgxSymbolsDistinct();
  }


  // ---------------------------------------------------------------------
  // The CSV file

  const CsvHeader: string := "date,stock_symbol,price"

  /** The line written for one record: date, symbol and `str(price)`. */
  function RecordLine(r: PriceRecord): string {
    r.date + "," + r.symbol + "," + FormatPrice(r.price)
  }

  function RecordLines(records: seq<PriceRecord>): seq<string>
  {
    seq(|records|, i requires 0 <= i < |records| => RecordLine(records[i]))
  }

  /** The file content: the header line, then one line per record. */
  function CsvText(records: seq<PriceRecord>): string {
    Unlines([CsvHeader] + RecordLines(records))
  }

  function CsvPath(date: string): string {
    "/tmp/egx30_" + date + ".csv"
  }

  /** The write loop: the header, then a line per record. */
  method WriteCsv(records: seq<PriceRecord>) returns (content: string)
    ensures content == CsvText(records)
  {
    content := CsvHeader + "\n";
    assert [CsvHeader][1..] == [];
    assert RecordLines(records[..0]) == [];
    assert [CsvHeader] + [] == [CsvHeader];
    for i := 0 to |records|
      invariant content == Unlines([CsvHeader] + RecordLines(records[..i]))
    {
      var line := RecordLine(records[i]);
      CsvLinesStep(records, i);
      UnlinesSnoc([CsvHeader] + RecordLines(records[..i]), line);
      content := content + line + "\n";
    }
    assert records[..|records|] == records;
  }

  /** One more record adds its line at the end of the file's lines. */
  lemma {:induction false} CsvLinesStep(records: seq<PriceRecord>, i: nat)
    requires i < |records|
    ensures [CsvHeader] + RecordLines(records[..i + 1])
         == [CsvHeader] + RecordLines(records[..i]) + [RecordLine(records[i])]
  {
    assert RecordLines(records[..i + 1]) == RecordLines(records[..i]) + [RecordLine(records[i])];
  }

  /** A file written by the pipeline: its path and its content. */
  datatype File = File(path: string, content: string)

  /** Why extraction fails: `ValueError("No data extracted")`. */
  datatype ExtractError = NoDataExtracted

  /** `extract_stock_data`: the collected records written to
      `/tmp/egx30_<date>.csv`, or an error when nothing was collected. */
  method ExtractStockData(date: string, fetch: string -> Response) returns (r: Result<File, ExtractError>)
    ensures r.Failure? <==> Collected(date, EgxSymbols, fetch) == []
    ensures r.Failure? ==> r.error == NoDataExtracted
    ensures r.Success? ==> r.value == File(CsvPath(date), CsvText(Collected(date, EgxSymbols, fetch)))
  {
    var records := CollectRecords(date, fetch);
    if records == [] {
      return Failure(NoDataExtracted);
    }
    var content := WriteCsv(records);
    r := Success(File(CsvPath(date), content));
  }

  /** Extraction fails exactly when no configured ticker's response has a
      first close price. */
  lemma {:induction false} ExtractFailsIffNoClose(date: string, fetch: string -> Response)
    ensures Collected(date, EgxSymbols, fetch) == [] <==> forall i :: 0 <= i < |EgxSymbols| ==> !HasClose(fetch(EgxSymbols[i]))
  {
    CollectedEmpty(date, EgxSymbols, fetch);
  }
}

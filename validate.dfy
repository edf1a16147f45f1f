/** The validation step of the EGX30 pipeline: the CSV file extraction
    wrote is read back line by line, rows that do not have three fields or
    whose price is not a number are dropped, the first row of each symbol
    is kept, and the rows are written to a headerless `symbol,price` file
    for the warehouse, next to the load script. */
module Validate {
  import opened Wrappers
  import opened Text
  import opened Numbers
  import LoadScript

  /** A validated row: the symbol field and the float the price field
      reads as. */
  datatype Row = Row(symbol: string, price: Float)

  /** One data line: `line.strip().split(',')` must give exactly three
      fields whose third is read by `float()`; the row is the second
      field and that float. */
  function ParseRow(line: string): Option<Row> {
    var parts := Split(Strip(line), ',');
    if |parts| == 3 then
      match ParseNumber(parts[2])
      case Some(v) => Some(Row(parts[1], v))
      case None => None
    else None
  }

  /** The lines after the first: `f.readline()` takes the header, the
      loop gets the rest. */
  function DataLines(content: string): seq<string> {
    var lines := FileLines(content);
    if lines == [] then [] else lines[1..]
  }

  /** The value an option holds, as a sequence of at most one. */
  function Somes<U>(o: Option<U>): seq<U> {
    if o.Some? then [o.value] else []
  }

  /** The values `f` gives to the elements of `xs` it accepts, in order. */
  function FilterMap<T, U>(f: T -> Option<U>, xs: seq<T>): (ys: seq<U>)
    ensures |ys| <= |xs|
    decreases |xs|
  {
    if xs == [] then []
    else
      var n := |xs| - 1;
      FilterMap(f, xs[..n]) + Somes(f(xs[n]))
  }

  lemma {:induction false} FilterMapSnoc<T, U>(f: T -> Option<U>, xs: seq<T>, x: T)
    ensures FilterMap(f, xs + [x]) == FilterMap(f, xs) + Somes(f(x))
  {
    assert (xs + [x])[..|xs|] == xs;
  }

  lemma {:induction false} FilterMapAppend<T, U>(f: T -> Option<U>, a: seq<T>, b: seq<T>)
    ensures FilterMap(f, a + b) == FilterMap(f, a) + FilterMap(f, b)
    decreases |b|
  {
    if b == [] {
      assert a + b == a;
    } else {
      var n := |b| - 1;
      var front := b[..n];
      SnocApart(a, b);
      FilterMapAppend(f, a, front);
      FilterMapSnoc(f, a + front, b[n]);
    }
  }

  lemma {:induction false} SnocApart<T>(a: seq<T>, b: seq<T>)
    requires b != []
    ensures a + b == (a + b[..|b| - 1]) + [b[|b| - 1]]
  {
    assert b == b[..|b| - 1] + [b[|b| - 1]];
  }

  lemma {:induction false} FilterMapSkip<T, U>(f: T -> Option<U>, a: seq<T>, x: T, b: seq<T>)
    requires f(x).None?
    ensures FilterMap(f, a + [x] + b) == FilterMap(f, a + b)
  {
    FilterMapAppend(f, a + [x], b);
    FilterMapSnoc(f, a, x);
    FilterMapAppend(f, a, b);
  }

  /** When `f` accepts every element, nothing is dropped. */
  lemma {:induction false} FilterMapTotal<T, U>(f: T -> Option<U>, xs: seq<T>, ys: seq<U>)
    requires |ys| == |xs|
    requires forall i :: 0 <= i < |xs| ==> f(xs[i]) == Some(ys[i])
    ensures FilterMap(f, xs) == ys
    decreases |xs|
  {
    if xs != [] {
      var n := |xs| - 1;
      FilterMapTotal(f, xs[..n], ys[..n]);
      assert ys == ys[..n] + [ys[n]];
    }
  }

  lemma {:induction false} FilterMapMembership<T, U>(f: T -> Option<U>, xs: seq<T>, y: U)
    ensures y in FilterMap(f, xs) <==> exists i :: 0 <= i < |xs| && f(xs[i]) == Some(y)
    decreases |xs|
  {
    if xs != [] {
      var n := |xs| - 1;
      var prefix := xs[..n];
      FilterMapMembership(f, prefix, y);
      if y in FilterMap(f, xs) {
        if y in FilterMap(f, prefix) {
          var i :| 0 <= i < n && f(prefix[i]) == Some(y);
          assert prefix[i] == xs[i];
        } else {
          assert f(xs[n]) == Some(y);
        }
      }
      if exists i :: 0 <= i < |xs| && f(xs[i]) == Some(y) {
        var i :| 0 <= i < |xs| && f(xs[i]) == Some(y);
        if i < n {
          assert prefix[i] == xs[i];
        }
      }
    }
  }

  /** The rows the read loop keeps, in file order. */
  function ValidRows(lines: seq<string>): (rows: seq<Row>)
    ensures |rows| <= |lines|
  {
    FilterMap(ParseRow, lines)
  }

  /** The read loop over the data lines of the extraction file. */
  method ReadValidRows(content: string) returns (data: seq<Row>)
    ensures data == ValidRows(DataLines(content))
  {
    var lines := DataLines(content);
    data := [];
    for i := 0 to |lines|
      invariant data == ValidRows(lines[..i])
    {
      var parts := Split(Strip(lines[i]), ',');
      ValidRowsStep(lines, i);
      if |parts| == 3 {
        var price := ParseNumber(parts[2]);
        if price.Some? {
          data := data + [Row(parts[1], price.value)];
        }
      }
    }
    assert lines[..|lines|] == lines;
  }

  lemma {:induction false} ValidRowsStep(lines: seq<string>, i: int)
    requires 0 <= i < |lines|
    ensures ValidRows(lines[..i + 1]) == ValidRows(lines[..i]) + Somes(ParseRow(lines[i]))
  {
    assert lines[..i + 1] == lines[..i] + [lines[i]];
    FilterMapSnoc(ParseRow, lines[..i], lines[i]);
  }

  // ---------------------------------------------------------------------
  // What validation keeps

  /** `t` is the three fields `a`, `b`, `c`, none holding a comma,
      joined by commas. */
  predicate ThreeFields(t: string, a: string, b: string, c: string) {
    ',' !in a && ',' !in b && ',' !in c && t == a + "," + b + "," + c
  }

  /** A line reads as the row `(b, v)` exactly when the stripped line is
      three comma-free fields, `b` the second, and `float()` reads the
      third as `v`. */
  lemma {:induction false} ParseRowFields(line: string, b: string, v: Float)
    ensures ParseRow(line) == Some(Row(b, v)) <==>
      exists a, c :: ThreeFields(Strip(line), a, b, c) && ParseNumber(c) == Some(v)
  {
    var t := Strip(line);
    var parts := Split(t, ',');
    if ParseRow(line) == Some(Row(b, v)) {
      assert |parts| == 3;
      assert Join(parts[1..][1..], ',') == parts[2];
      assert Join(parts[1..], ',') == parts[1] + [','] + parts[2];
      assert Join(parts, ',') == parts[0] + [','] + (parts[1] + [','] + parts[2]);
      JoinedThree(parts[0], parts[1], parts[2], ',');
      assert ThreeFields(t, parts[0], b, parts[2]);
    }
    if exists a, c :: ThreeFields(t, a, b, c) && ParseNumber(c) == Some(v) {
      var a, c :| ThreeFields(t, a, b, c) && ParseNumber(c) == Some(v);
      JoinedThree(a, b, c, ',');
      SplitThree(a, b, c, ',');
      assert parts == [a, b, c];
    }
  }

  /** Reading the fields `a,b,c` back: with no comma inside the fields,
      no white space at the end of `c` and a number in `c`, the line gives
      the row `(b, float(c))`, whatever `a` starts with. */
  lemma {:induction false} ParseFields(a: string, b: string, c: string)
    requires ',' !in a && ',' !in b && ',' !in c
    requires |c| > 0 && !IsSpace(c[|c| - 1])
    requires ParsesAsNumber(c)
    ensures ParseRow(a + "," + b + "," + c) == Some(Row(b, ParseNumber(c).value))
  {
    var a' := TrimStart(a, IsSpace);
    FieldsStripped(a, b, c);
    assert ',' !in a' by {
      assert a' == a[|a| - |a'|..];
    }
    ParseThreeFields(a + "," + b + "," + c, a', b, c, ParseNumber(c).value);
  }

  /** The direction of `ParseRowFields` that reads a row off known
      fields. */
  lemma {:induction false} ParseThreeFields(line: string, a: string, b: string, c: string, v: Float)
    requires ThreeFields(Strip(line), a, b, c) && ParseNumber(c) == Some(v)
    ensures ParseRow(line) == Some(Row(b, v))
  {
    ParseRowFields(line, b, v);
  }

  /** Stripping `a,b,c` trims only the front of `a` when `c` ends with a
      character that is not white space. */
  lemma {:induction false} FieldsStripped(a: string, b: string, c: string)
    requires |c| > 0 && !IsSpace(c[|c| - 1])
    ensures Strip(a + "," + b + "," + c) == TrimStart(a, IsSpace) + "," + b + "," + c
  {
    assert !IsSpace(',');
    FieldsTrimmed(a, b, c, IsSpace);
  }

  /** `FieldsStripped` for any set of trimmed characters that leaves the
      comma alone. */
  lemma {:induction false} FieldsTrimmed(a: string, b: string, c: string, space: char -> bool)
    requires !space(',')
    requires |c| > 0 && !space(c[|c| - 1])
    ensures StripBy(a + "," + b + "," + c, space) == TrimStart(a, space) + "," + b + "," + c
  {
    var a' := TrimStart(a, space);
    var rest := [','] + (b + [','] + c);
    FirstFieldApart(a, b, c);
    FirstFieldApart(a', b, c);
    LastFieldEnd(a', b, c);
    StripFront(a, rest, space);
  }

  /** Trimming `a + rest`, where `rest` starts and ends outside `space`,
      trims only the front of `a`. */
  lemma {:induction false} StripFront(a: string, rest: string, space: char -> bool)
    requires rest != [] && !space(rest[0]) && !space(rest[|rest| - 1])
    ensures StripBy(a + rest, space) == TrimStart(a, space) + rest
  {
    var a' := TrimStart(a, space);
    TrimStartAppend(a, rest, space);
    assert (a' + rest)[|a' + rest| - 1] == rest[|rest| - 1];
    TrimEndKeeps(a' + rest, space);
  }

  /** `a,b,c` as `a` followed by the rest of the line. */
  lemma {:induction false} FirstFieldApart(a: string, b: string, c: string)
    ensures a + "," + b + "," + c == a + ([','] + (b + [','] + c))
  {
    JoinedThree(a, b, c, ',');
    AppendAssoc(a, [','], b + [','] + c);
  }

  lemma {:induction false} LastFieldEnd(a: string, b: string, c: string)
    requires |c| > 0
    ensures var t := a + ([','] + (b + [','] + c));
      |t| > 0 && t[|t| - 1] == c[|c| - 1]
  {
  }

  /** Validation works line by line: the rows of two blocks of lines are
      the rows of the first then the rows of the second, so a dropped
      line changes nothing about the others. */
  lemma {:induction false} ValidRowsAppend(a: seq<string>, b: seq<string>)
    ensures ValidRows(a + b) == ValidRows(a) + ValidRows(b)
  {
    FilterMapAppend(ParseRow, a, b);
  }

  /** A malformed line in between is dropped and the rest is kept as it
      was. */
  lemma {:induction false} MalformedLineDropped(a: seq<string>, line: string, b: seq<string>)
    requires ParseRow(line).None?
    ensures ValidRows(a + [line] + b) == ValidRows(a + b)
  {
    FilterMapSkip(ParseRow, a, line, b);
  }

  /** A row is kept exactly when some line reads as it. */
  lemma {:induction false} ValidRowsMembership(lines: seq<string>, r: Row)
    ensures r in ValidRows(lines) <==> exists i :: 0 <= i < |lines| && ParseRow(lines[i]) == Some(r)
  {
    FilterMapMembership(ParseRow, lines, r);
  }

  /** Whatever the first line holds, it is never read as data. */
  lemma {:induction false} HeaderSkipped(header: string, rest: string)
    requires NoLineBreak(header)
    ensures DataLines(header + "\n" + rest) == FileLines(rest)
  {
    FileLinesCons(header, rest);
  }

  // ---------------------------------------------------------------------
  // Deduplication

  /** The symbols of `rows`. */
  function Symbols(rows: seq<Row>): set<string> {
    set i | 0 <= i < |rows| :: rows[i].symbol
  }

  /** The rows kept by the `seen` loop: each row whose symbol no earlier
      row had. */
  function Dedup(rows: seq<Row>): (unique: seq<Row>)
    ensures |unique| <= |rows|
    decreases |rows|
  {
    if rows == [] then []
    else
      var n := |rows| - 1;
      var kept := Dedup(rows[..n]);
      if rows[n].symbol in Symbols(rows[..n]) then kept else kept + [rows[n]]
  }

  lemma {:induction false} SymbolsSnoc(rows: seq<Row>, r: Row)
    ensures Symbols(rows + [r]) == Symbols(rows) + {r.symbol}
  {
    var s := rows + [r];
    assert s[|rows|] == r;
    assert forall i :: 0 <= i < |rows| ==> s[i] == rows[i];
  }

  /** The deduplication loop with its `seen` set. */
  method Deduplicate(data: seq<Row>) returns (unique: seq<Row>)
    ensures unique == Dedup(data)
  {
    var seen: set<string> := {};
    unique := [];
    for i := 0 to |data|
      invariant seen == Symbols(data[..i])
      invariant unique == Dedup(data[..i])
    {
      var row := data[i];
      assert data[..i + 1][..i] == data[..i];
      SymbolsSnoc(data[..i], row);
      assert data[..i + 1] == data[..i] + [row];
      if row.symbol !in seen {
        seen := seen + {row.symbol};
        unique := unique + [row];
      }
    }
    assert data[..|data|] == data;
  }

  /** No two rows share a symbol. */
  predicate DistinctSymbols(rows: seq<Row>) {
    forall i, j :: 0 <= i < j < |rows| ==> rows[i].symbol != rows[j].symbol
  }

  /** `rows[i]` is the first row with its symbol. */
  predicate FirstOccurrence(rows: seq<Row>, i: int)
    requires 0 <= i < |rows|
  {
    forall j :: 0 <= j < i ==> rows[j].symbol != rows[i].symbol
  }

  /** Deduplication keeps exactly the symbols it was given. */
  lemma {:induction false} DedupSymbols(rows: seq<Row>)
    ensures Symbols(Dedup(rows)) == Symbols(rows)
    decreases |rows|
  {
    if rows != [] {
      var n := |rows| - 1;
      DedupSymbols(rows[..n]);
      SymbolsSnoc(rows[..n], rows[n]);
      assert rows == rows[..n] + [rows[n]];
      if rows[n].symbol !in Symbols(rows[..n]) {
        SymbolsSnoc(Dedup(rows[..n]), rows[n]);
      }
    }
  }

  /** The rows deduplication keeps have pairwise distinct symbols. */
  lemma {:induction false} DedupDistinct(rows: seq<Row>)
    ensures DistinctSymbols(Dedup(rows))
    decreases |rows|
  {
    if rows != [] {
      var n := |rows| - 1;
      DedupDistinct(rows[..n]);
      DedupSymbols(rows[..n]);
      var kept := Dedup(rows[..n]);
      if rows[n].symbol !in Symbols(rows[..n]) {
        var unique := kept + [rows[n]];
        forall i, j | 0 <= i < j < |unique|
          ensures unique[i].symbol != unique[j].symbol
        {
          if j == |kept| {
            assert unique[i] == kept[i];
            assert kept[i].symbol in Symbols(kept);
          } else {
            assert unique[i] == kept[i] && unique[j] == kept[j];
          }
        }
      }
    }
  }

  /** Every symbol of the input is kept exactly once. */
  lemma {:induction false} DedupExactlyOnce(rows: seq<Row>, s: string)
    ensures s in Symbols(rows) <==> exists k :: 0 <= k < |Dedup(rows)| && Dedup(rows)[k].symbol == s
    ensures forall k, l :: 0 <= k < l < |Dedup(rows)| && Dedup(rows)[k].symbol == s ==> Dedup(rows)[l].symbol != s
  {
    DedupSymbols(rows);
    DedupDistinct(rows);
  }

  /** `idx` places `a` in `b` in order: `a[k]` is `b[idx[k]]` and the
      indices increase. */
  predicate EmbeddedAt(a: seq<Row>, b: seq<Row>, idx: seq<int>) {
    && |idx| == |a|
    && (forall k :: 0 <= k < |idx| ==> 0 <= idx[k] < |b| && a[k] == b[idx[k]])
    && (forall k, l :: 0 <= k < l < |idx| ==> idx[k] < idx[l])
  }

  /** The rows kept are the input's first occurrences, in input order. */
  lemma {:induction false} DedupFirstOccurrences(rows: seq<Row>) returns (idx: seq<int>)
    ensures EmbeddedAt(Dedup(rows), rows, idx)
    ensures forall k :: 0 <= k < |idx| ==> 0 <= idx[k] < |rows| && FirstOccurrence(rows, idx[k])
    decreases |rows|
  {
    if rows == [] {
      idx := [];
    } else {
      var n := |rows| - 1;
      var prefix := rows[..n];
      var idx' := DedupFirstOccurrences(prefix);
      assert rows == prefix + [rows[n]];
      FirstOccurrencesExtend(prefix, rows[n], idx');
      if rows[n].symbol in Symbols(prefix) {
        idx := idx';
      } else {
        idx := idx' + [n];
        EmbedSnoc(Dedup(prefix), prefix, idx', rows[n]);
        NewSymbolFirst(prefix, rows[n]);
      }
    }
  }

  /** An embedding still holds, and its first occurrences are still
      first, once a row is appended to the input; a row with a new
      symbol extends it. */
  lemma {:induction false} FirstOccurrencesExtend(rows: seq<Row>, x: Row, idx: seq<int>)
    requires EmbeddedAt(Dedup(rows), rows, idx)
    requires forall k :: 0 <= k < |idx| ==> 0 <= idx[k] < |rows| && FirstOccurrence(rows, idx[k])
    ensures EmbeddedAt(Dedup(rows), rows + [x], idx)
    ensures forall k :: 0 <= k < |idx| ==> 0 <= idx[k] < |rows + [x]| && FirstOccurrence(rows + [x], idx[k])
  {
    var longer := rows + [x];
    assert forall i :: 0 <= i < |rows| ==> longer[i] == rows[i];
  }

  lemma {:induction false} EmbedSnoc(a: seq<Row>, b: seq<Row>, idx: seq<int>, x: Row)
    requires EmbeddedAt(a, b, idx)
    ensures EmbeddedAt(a + [x], b + [x], idx + [|b|])
  {
    var longer := b + [x];
    assert forall i :: 0 <= i < |b| ==> longer[i] == b[i];
  }

  lemma {:induction false} NewSymbolFirst(rows: seq<Row>, x: Row)
    requires x.symbol !in Symbols(rows)
    ensures FirstOccurrence(rows + [x], |rows|)
  {
    var longer := rows + [x];
    forall j | 0 <= j < |rows|
      ensures longer[j].symbol != x.symbol
    {
      assert longer[j] == rows[j] && rows[j].symbol in Symbols(rows);
    }
  }

  /** The rows kept keep the order of the input: they form a
      subsequence of it. */
  lemma {:induction false} DedupSubsequence(rows: seq<Row>)
    ensures exists idx :: EmbeddedAt(Dedup(rows), rows, idx)
  {
    var idx := DedupFirstOccurrences(rows);
  }

  /** The first row with a symbol is the one kept. */
  lemma {:induction false} DedupKeepsFirst(rows: seq<Row>, i: int)
    requires 0 <= i < |rows| && FirstOccurrence(rows, i)
    ensures rows[i] in Dedup(rows)
    decreases |rows|
  {
    var n := |rows| - 1;
    var prefix := rows[..n];
    assert forall j :: 0 <= j < n ==> prefix[j] == rows[j];
    if i < n {
      DedupKeepsFirst(prefix, i);
    }
  }

  /** A row is kept exactly when it is the first row of its symbol. */
  lemma {:induction false} DedupMembership(rows: seq<Row>, r: Row)
    ensures r in Dedup(rows) <==> exists i :: 0 <= i < |rows| && rows[i] == r && FirstOccurrence(rows, i)
  {
    if r in Dedup(rows) {
      var idx := DedupFirstOccurrences(rows);
      var k :| 0 <= k < |Dedup(rows)| && Dedup(rows)[k] == r;
      assert rows[idx[k]] == r && FirstOccurrence(rows, idx[k]);
    }
    if exists i :: 0 <= i < |rows| && rows[i] == r && FirstOccurrence(rows, i) {
      var i :| 0 <= i < |rows| && rows[i] == r && FirstOccurrence(rows, i);
      DedupKeepsFirst(rows, i);
    }
  }

  /** Rows `(X, 10.0)` then `(X, 20.0)`: only `(X, 10.0)` is kept. */
  lemma {:induction false} DedupExample()
    ensures Dedup([Row("X", Finite(false, 1, 1)), Row("X", Finite(false, 2, 1))]) == [Row("X", Finite(false, 1, 1))]
  {
    var first := Row("X", Finite(false, 1, 1));
    var rows := [first, Row("X", Finite(false, 2, 1))];
    assert rows[..1] == [first] && [first][..0] == [];
    assert rows[..1][0].symbol == rows[1].symbol;
  }

  /** Rows whose symbols are already distinct pass unchanged. */
  lemma {:induction false} DedupDistinctIdentity(rows: seq<Row>)
    requires DistinctSymbols(rows)
    ensures Dedup(rows) == rows
    decreases |rows|
  {
    if rows != [] {
      var n := |rows| - 1;
      var prefix := rows[..n];
      assert DistinctSymbols(prefix) by {
        forall i, j | 0 <= i < j < n
          ensures prefix[i].symbol != prefix[j].symbol
        {
          assert prefix[i] == rows[i] && prefix[j] == rows[j];
        }
      }
      DedupDistinctIdentity(prefix);
      assert rows == prefix + [rows[n]];
    }
  }

  // ---------------------------------------------------------------------
  // The warehouse file

  /** The line written for one row: the symbol and `str(price)`. */
  function HiveLine(r: Row): string {
    r.symbol + "," + FormatNumber(r.price)
  }

  function HiveLines(rows: seq<Row>): seq<string>
  {
    seq(|rows|, i requires 0 <= i < |rows| => HiveLine(rows[i]))
  }

  /** The file content: one line per row, no header. */
  function HiveText(rows: seq<Row>): string {
    Unlines(HiveLines(rows))
  }

  /** The write loop of the warehouse file. */
  method WriteHiveData(rows: seq<Row>) returns (content: string)
    ensures content == HiveText(rows)
  {
    content := "";
    for i := 0 to |rows|
      invariant content == Unlines(HiveLines(rows[..i]))
    {
      var line := HiveLine(rows[i]);
      HiveLinesStep(rows, i);
      UnlinesSnoc(HiveLines(rows[..i]), line);
      content := content + line + "\n";
    }
    assert rows[..|rows|] == rows;
  }

  lemma {:induction false} HiveLinesStep(rows: seq<Row>, i: int)
    requires 0 <= i < |rows|
    ensures HiveLines(rows[..i + 1]) == HiveLines(rows[..i]) + [HiveLine(rows[i])]
  {
    assert rows[..i + 1][i] == rows[i];
  }

  /** The warehouse reads the file back as it was meant: one line per
      row, two comma-separated fields, and a price field that `float()`
      reads as the row's price. */
  lemma {:induction false} HiveTextRoundTrip(rows: seq<Row>)
    requires forall i :: 0 <= i < |rows| ==> PlainField(rows[i].symbol)
    ensures var lines := FileLines(HiveText(rows));
      && |lines| == |rows|
      && forall i :: 0 <= i < |rows| ==>
        && Split(lines[i], ',') == [rows[i].symbol, FormatNumber(rows[i].price)]
        && ParseNumber(FormatNumber(rows[i].price)) == Some(rows[i].price)
  {
    var lines := HiveLines(rows);
    forall i | 0 <= i < |rows|
      ensures NoLineBreak(lines[i])
      ensures Split(lines[i], ',') == [rows[i].symbol, FormatNumber(rows[i].price)]
      ensures ParseNumber(FormatNumber(rows[i].price)) == Some(rows[i].price)
    {
      HiveLineRoundTrip(rows[i]);
    }
    FileLinesUnlines(lines);
  }

  /** What the warehouse reads from the file is the lines written. */
  lemma {:induction false} HiveTextLines(rows: seq<Row>)
    requires forall i :: 0 <= i < |rows| ==> PlainField(rows[i].symbol)
    ensures FileLines(HiveText(rows)) == HiveLines(rows)
  {
    var lines := HiveLines(rows);
    forall i | 0 <= i < |rows|
      ensures NoLineBreak(lines[i])
    {
      HiveLineRoundTrip(rows[i]);
    }
    FileLinesUnlines(lines);
  }

  /** One line of the file read back. */
  lemma {:induction false} HiveLineRoundTrip(r: Row)
    requires PlainField(r.symbol)
    ensures NoLineBreak(HiveLine(r))
    ensures Split(HiveLine(r), ',') == [r.symbol, FormatNumber(r.price)]
    ensures ParseNumber(FormatNumber(r.price)) == Some(r.price)
  {
    PriceFieldPlain(r.price);
    HiveLineFields(r.symbol, FormatNumber(r.price));
    FormatThenParse(r.price);
  }

  lemma {:induction false} HiveLineFields(symbol: string, t: string)
    requires PlainField(symbol)
    requires ',' !in t && NoLineBreak(t)
    ensures NoLineBreak(symbol + "," + t)
    ensures Split(symbol + "," + t, ',') == [symbol, t]
  {
    var line := symbol + "," + t;
    assert line == symbol + [','] + t;
    SplitAtFirst(symbol, t, ',');
    SplitNoSeparator(t, ',');
    forall i | 0 <= i < |line|
      ensures !IsLineBreak(line[i])
    {
      if i < |symbol| {
        assert line[i] == symbol[i];
      } else if i > |symbol| {
        assert line[i] == t[i - |symbol| - 1];
      }
    }
  }

  /** `str(x)` holds no comma and no line break. */
  lemma {:induction false} PriceFieldPlain(x: Float)
    ensures ',' !in FormatNumber(x) && NoLineBreak(FormatNumber(x))
  {
    match x
    case NaN =>
    case Infinity(negative) =>
      assert FormatNumber(x) == Sign(negative) + "inf";
    case Finite(negative, m, e) =>
      MagnitudeNumeral(m, e);
      NumeralJoin(Sign(negative), FormatMagnitude(m, e));
      assert FormatNumber(x) == Sign(negative) + FormatMagnitude(m, e);
  }

  // ---------------------------------------------------------------------
  // validate_and_prepare

  function HiveDataPath(date: string): string {
    "/tmp/hive_data_" + date + ".txt"
  }

  function HqlPath(date: string): string {
    "/tmp/load_hive_" + date + ".hql"
  }

  /** What the step leaves behind: the warehouse file and the load
      script. */
  datatype Prepared = Prepared(dataPath: string, dataContent: string, scriptPath: string, scriptContent: string)

  /** The rows the step writes for an extraction file's content. */
  function PreparedRows(content: string): seq<Row> {
    Dedup(ValidRows(DataLines(content)))
  }

  /** `validate_and_prepare`: read and validate the extraction file,
      deduplicate, write the warehouse file and the load script for the
      run's date. */
  method ValidateAndPrepare(date: string, csvContent: string) returns (p: Prepared)
    ensures p.dataPath == HiveDataPath(date)
    ensures p.dataContent == HiveText(PreparedRows(csvContent))
    ensures p.scriptPath == HqlPath(date)
    ensures p.scriptContent == LoadScript.ScriptText(HiveDataPath(date), date)
  {
    var data := ReadValidRows(csvContent);
    var unique := Deduplicate(data);
    var hiveData := HiveDataPath(date);
    var content := WriteHiveData(unique);
    var hqlScript := HqlPath(date);
    p := Prepared(hiveData, content, hqlScript, LoadScript.ScriptText(hiveData, date));
  }
}

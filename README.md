# EGX30 stock pipeline, modelled in Dafny

The daily EGX30 pipeline is an Airflow DAG that runs three steps in a row:

1. `extract_stock_data` asks a market-data service for the latest close of
   nine fixed tickers. A ticker whose response has a first close that is not
   `null` gives a record: the run date, the ticker without its `.CA` suffix,
   and the close rounded to hundredths. A ticker that fails is skipped. When
   no ticker gives a record, the step fails with `ValueError("No data
   extracted")`. Otherwise it writes `/tmp/egx30_<date>.csv`: a header line,
   then one `date,symbol,price` line per record.
2. `validate_and_prepare` reads that file back:
   - it skips the first line;
   - it strips and splits every other line on `,`;
   - it keeps a line only when it has exactly three fields and its third
     field passes `float()`;
   - it drops later rows whose symbol was already seen.

   It then writes the warehouse file `/tmp/hive_data_<date>.txt`, one
   `symbol,price` line per row, and the load script `/tmp/load_hive_<date>.hql`.
3. The load step runs that script with Hive. The script has seven steps:
   - create the staging table and the final table;
   - truncate staging;
   - load the warehouse file into staging;
   - drop the run date's partition;
   - insert staging into that partition;
   - count the partition's rows.

The model is split into modules:

- `Wrappers`: `Option` and `Result`.
- `Text`: the Python string and file operations the steps rely on.
  - `str.strip()` and `str.split(',')`.
  - `str.replace('.CA', '')`.
  - Text-mode line reading with universal newlines.
  - The content a `write(line + '\n')` loop produces.
- `Numbers`: the Python numerics the steps rely on.
  - `round(x, 2)`: nearest hundredth, ties to even, keeping the sign of a float that rounds to zero; an infinity or NaN is returned unchanged.
  - `float(s)`: surrounding white space (what `str.isspace()` accepts, except U+001C to U+001F), a sign, ASCII digits with underscores, an exponent, and `inf`/`nan` in any letter case.
  - `str(x)` of a float: positional between 1e-4 and 1e16, scientific outside.
  - Floats are exact decimals in canonical form.
- `Extract`: the request loop (`CollectRecords`, specified by `Collected`), the CSV write loop and the step itself (`ExtractStockData`).
- `Validate`: the parts of the validation step.
  - The read loop (`ReadValidRows`, specified by `ValidRows`).
  - The `seen`-set loop (`Deduplicate`, specified by `Dedup`).
  - The warehouse-file write loop (`WriteHiveData`).
  - The step itself (`ValidateAndPrepare`).
- `LoadScript`: the load script.
  - The seven statements (`Script`) and their exact text (`StepLines`, `ScriptText`).
  - An abstract semantics of the statements over a warehouse (`Exec`, `Run`). It is enough to show why a second run for the same date replaces the partition instead of adding to it.
- `Pipeline`: the steps chained. Validation reads back exactly what extraction wrote, and a whole run leaves the run date's partition holding one line per extracted record.

Four details of the code decide what the model does:

- When no ticker gives a record, the run fails with a plain `ValueError` (egx30_stock_pipeline.py:67-68), modelled as the error `NoDataExtracted`.
- A JSON integer close stays an integer: `round(int, 2)` is the integer itself, and `str` writes it without a decimal point.
- A float close is written by `str`, so it can have fewer than two decimals (`10.5`), and a negative close that rounds to zero is written `-0.0`.
- `json.loads` accepts the tokens `NaN`, `Infinity` and `-Infinity`. Such a close is kept, `round` returns it unchanged, it is written `nan`, `inf` or `-inf`, and validation keeps the row because `float()` reads it back.

## Model

| member | source | states |
|---|---|---|
| Text.TrimStart | egx30_stock_pipeline.py:91 | trimming the start removes exactly the leading white space: the result is a suffix that starts with a non-space, and everything cut is white space |
| Text.TrimEnd | egx30_stock_pipeline.py:91 | trimming the end removes exactly the trailing white space: the result is a prefix that ends with a non-space, and everything cut is white space |
| Text.Strip | egx30_stock_pipeline.py:91 | `line.strip()`: trimming both ends; `TrimStart` and `TrimEnd` state that exactly the white space at each end is cut, `StripUnchanged` that a line with no white space at either end is kept |
| Text.StripUnchanged | egx30_stock_pipeline.py:91 | a line with no white space at either end is left as it is by `strip()` |
| Text.TrimStartAppend | egx30_stock_pipeline.py:91 | trimming the start of `a + t`, where `t` starts with a non-space, trims only inside `a`: the rest of the line is kept whole |
| Text.Split | egx30_stock_pipeline.py:91 | `split(',')` gives at least one piece, no piece holds a comma, and the pieces joined with commas give the line back |
| Text.SplitJoin | egx30_stock_pipeline.py:91 | splitting comma-joined pieces that hold no comma gives exactly those pieces back |
| Text.SplitThree | egx30_stock_pipeline.py:91-92 | three comma-free fields joined by commas split into exactly those three fields |
| Text.RemoveAll | egx30_stock_pipeline.py:57 | `replace(pat, '')` never lengthens the text and only keeps characters of the input |
| Text.RemoveAbsent | egx30_stock_pipeline.py:57 | `replace(pat, '')` leaves a text in which `pat` does not occur unchanged |
| Text.RemoveLeftmost | egx30_stock_pipeline.py:57 | `replace(pat, '')` removes the leftmost occurrence, keeps the text before it, and goes on with the text after it |
| Text.RemoveTrailing | egx30_stock_pipeline.py:57 | removing `.CA` from a text that ends in `.CA` and has no `.` before it gives the text without the suffix |
| Text.FileLines | egx30_stock_pipeline.py:89-90 | no line that line-by-line reading yields holds a line break |
| Text.FileLinesCons | egx30_stock_pipeline.py:89 | `readline()` consumes exactly the first line: the lines after it are the lines of the rest |
| Text.Unlines | egx30_stock_pipeline.py:74-75 | the content a `f.write(line + '\n')` loop leaves, here and at lines 114-115; `FileLinesUnlines` states that reading it back gives exactly the lines written |
| Text.FileLinesUnlines | egx30_stock_pipeline.py:74-75 | reading back a file written one `line + '\n'` at a time yields exactly the lines written, when none holds a line break |
| Numbers.RoundHundredths | egx30_stock_pipeline.py:56 | the magnitude rounded to hundredths is within half a hundredth of the exact value, and is even where the value lies exactly between two hundredths |
| Numbers.RoundPrice | egx30_stock_pipeline.py:56 | `round(close, 2)`: an integer close kept whole, a float close as signed hundredths; its properties are stated by `RoundPriceNearest` and `NegativeZeroPrice` |
| Numbers.RoundPriceNearest | egx30_stock_pipeline.py:56 | an integer close stays the same integer; a finite float close keeps its sign and becomes the nearest hundredth, the even one of two equally near; an infinity keeps its sign and NaN stays NaN |
| Numbers.NegativeZeroPrice | egx30_stock_pipeline.py:56 | `round(-0.001, 2)` is the float `-0.0`, and `str` writes it `-0.0` |
| Numbers.NatToString | egx30_stock_pipeline.py:75 | `str(n)` for `n >= 0`: a non-empty run of decimal digits; `NatToStringValue` states that the digits' value is `n` |
| Numbers.NatToStringValue | egx30_stock_pipeline.py:75 | the digits `str(n)` writes have the value `n` |
| Numbers.IntToString | egx30_stock_pipeline.py:75 | `str(i)` of an integer close; `PriceRoundTrip` states that `float()` reads it back as the close's value, and `PriceText` that it uses only numeral characters and ends with a digit |
| Numbers.FormatNumber | egx30_stock_pipeline.py:115 | `str(x)` of a float; its round trip is stated by `FormatThenParse` and its characters by `Validate.PriceFieldPlain` |
| Numbers.FormatPrice | egx30_stock_pipeline.py:75 | `str(round(close, 2))`; it reads back as the price by `PriceRoundTrip` and uses only numeral characters by `PriceText` |
| Numbers.ParseNumber | egx30_stock_pipeline.py:96 | `float(s)`: when it succeeds, the float is in canonical form; what it accepts is stated by `FormatThenParse`, `NanRoundTrip`, `InfinityRoundTrip` and `SeparatorNotSkipped` |
| Numbers.SeparatorNotSkipped | egx30_stock_pipeline.py:91-96 | `strip()` removes a leading U+001C, but `float()` does not: it reads a whole number alone and rejects the number after U+001C |
| Numbers.FormatThenParse | egx30_stock_pipeline.py:115 | `float(str(x))` gives `x` back for every float: a finite float its value and sign, an infinity its sign, NaN giving NaN |
| Numbers.PriceRoundTrip | egx30_stock_pipeline.py:75 | the price text extraction writes (`str` of an int, of a rounded float, of an infinity or of NaN) reads back under `float()` as the price's value |
| Numbers.PriceText | egx30_stock_pipeline.py:75 | a finite price is written only with digits, a sign, a point and an exponent mark, and ends with a digit; an infinite one is written `inf` or `-inf`, NaN `nan` |
| Numbers.NanRoundTrip | egx30_stock_pipeline.py:96 | `float('nan')` succeeds, so a `nan` price passes validation |
| Numbers.InfinityRoundTrip | egx30_stock_pipeline.py:96 | `float('inf')` and `float('-inf')` succeed and give the infinities back |
| Extract.Collected | egx30_stock_pipeline.py:41-62 | at most one record per requested ticker, each with the run's date |
| Extract.CleanSymbol | egx30_stock_pipeline.py:57 | `symbol.replace('.CA', '')`; `CleanTicker` and `CleanSymbolExample` state what it gives for the configured tickers |
| Extract.RecordFor | egx30_stock_pipeline.py:51-62 | the record one ticker's response gives; its meaning is stated by `ExtractedRecords` and `ContributionMembership` |
| Extract.ContributionMembership | egx30_stock_pipeline.py:51-62 | a ticker contributes a record exactly when `RecordFor` gives that record |
| Extract.ContributionShape | egx30_stock_pipeline.py:51-62 | a ticker contributes at most one record, and its symbol is the ticker without `.CA` |
| Extract.CollectRecords | egx30_stock_pipeline.py:39-62 | the request loop collects exactly `Collected` for the nine tickers, in request order |
| Extract.ExtractedRecords | egx30_stock_pipeline.py:39-62 | a record is extracted exactly when one of the nine configured tickers has a response with a non-null first close, and the record is that ticker's code with the date and `round(close, 2)` |
| Extract.CollectedMembership | egx30_stock_pipeline.py:41-62 | a record is collected exactly when some requested ticker's response gives it |
| Extract.CollectedEmpty | egx30_stock_pipeline.py:41-68 | nothing is collected exactly when no requested ticker's response has a non-null first close |
| Extract.TickersAreCodes | egx30_stock_pipeline.py:33-37 | the nine configured tickers are the nine codes, each followed by `.CA` |
| Extract.EgxCodesShape | egx30_stock_pipeline.py:33-37 | the nine configured codes are capital letters and digits, and pairwise distinct |
| Extract.CleanTicker | egx30_stock_pipeline.py:57 | removing `.CA` from `code + ".CA"` gives the code back |
| Extract.CleanSymbolExample | egx30_stock_pipeline.py:57 | `EGS01041C010.CA` is stored as `EGS01041C010` |
| Extract.EgxSymbolsDistinct | egx30_stock_pipeline.py:33-37 | the configured tickers clean to their codes, which are pairwise distinct and hold no comma and no line break |
| Extract.CollectedDistinct | egx30_stock_pipeline.py:41-62 | when the requested tickers clean to distinct symbols, the collected records have pairwise distinct symbols |
| Extract.ExtractedDistinct | egx30_stock_pipeline.py:41-62 | extraction collects at most nine records, with pairwise distinct symbols |
| Extract.ExtractedSymbolsPlain | egx30_stock_pipeline.py:57 | every collected symbol holds no comma and no line break |
| Extract.RecordLine | egx30_stock_pipeline.py:75 | the line `date,symbol,str(price)`; `Pipeline.RecordLineReadsBack` states that validation reads it back as the symbol and price |
| Extract.CsvText | egx30_stock_pipeline.py:72-75 | the CSV file content; `Pipeline.CsvTextShape` states it is the header line, then the records' lines |
| Extract.WriteCsv | egx30_stock_pipeline.py:72-75 | the write loop produces the header line, then one `date,symbol,price` line per record, in order |
| Extract.ExtractStockData | egx30_stock_pipeline.py:26-78 | extraction fails with `NoDataExtracted` exactly when nothing is collected; otherwise it returns the CSV file of the collected records at `/tmp/egx30_<date>.csv` |
| Extract.ExtractFailsIffNoClose | egx30_stock_pipeline.py:67-68 | extraction fails exactly when no configured ticker's response has a non-null first close |
| Validate.ValidRows | egx30_stock_pipeline.py:90-99 | validation keeps at most one row per line |
| Validate.ReadValidRows | egx30_stock_pipeline.py:87-99 | the read loop skips the first line and keeps exactly `ValidRows` of the other lines, in file order |
| Validate.DataLines | egx30_stock_pipeline.py:88-90 | the lines after the header; `HeaderSkipped` states that the first line is never read as data |
| Validate.ParseRow | egx30_stock_pipeline.py:91-99 | reading one data line; its meaning is stated by `ParseRowFields` |
| Validate.ParseRowFields | egx30_stock_pipeline.py:91-99 | a line reads as the row `(b, v)` exactly when its stripped text is three comma-free fields `a,b,c` and `float(c)` is `v` |
| Validate.ParseFields | egx30_stock_pipeline.py:91-97 | a line `a,b,c` with comma-free fields, whatever `a` starts with, and a number in `c` that ends with a non-space reads as the row `(b, float(c))` |
| Validate.ValidRowsAppend | egx30_stock_pipeline.py:90-99 | the rows of two blocks of lines are the rows of the first block, then those of the second |
| Validate.MalformedLineDropped | egx30_stock_pipeline.py:92-99 | a malformed line is dropped and changes nothing about the rows of the lines around it |
| Validate.ValidRowsMembership | egx30_stock_pipeline.py:90-99 | a row is kept exactly when some line reads as it |
| Validate.HeaderSkipped | egx30_stock_pipeline.py:88-90 | whatever the first line holds, it is never read as data |
| Validate.Dedup | egx30_stock_pipeline.py:102-107 | deduplication never adds rows |
| Validate.Deduplicate | egx30_stock_pipeline.py:102-107 | the `seen`-set loop computes exactly `Dedup` |
| Validate.DedupSymbols | egx30_stock_pipeline.py:102-107 | deduplication keeps exactly the set of symbols it was given |
| Validate.DedupDistinct | egx30_stock_pipeline.py:102-107 | the rows kept have pairwise distinct symbols |
| Validate.DedupExactlyOnce | egx30_stock_pipeline.py:102-107 | each symbol of the input appears in the output, and only once |
| Validate.DedupFirstOccurrences | egx30_stock_pipeline.py:104-107 | the rows kept are the first rows of their symbols, at increasing positions of the input |
| Validate.DedupSubsequence | egx30_stock_pipeline.py:104-107 | the rows kept form a subsequence of the input |
| Validate.DedupKeepsFirst | egx30_stock_pipeline.py:104-107 | the first row of each symbol is kept |
| Validate.DedupMembership | egx30_stock_pipeline.py:104-107 | a row is kept exactly when it is the first row of its symbol |
| Validate.DedupExample | egx30_stock_pipeline.py:104-107 | with `(X, 10.0)` followed by `(X, 20.0)`, only `(X, 10.0)` is kept |
| Validate.DedupDistinctIdentity | egx30_stock_pipeline.py:102-107 | rows whose symbols are already distinct pass unchanged |
| Validate.HiveLine | egx30_stock_pipeline.py:115 | the line `symbol,str(price)`; `HiveLineRoundTrip` states it splits back into the symbol and a text that reads as the price |
| Validate.HiveText | egx30_stock_pipeline.py:113-115 | the warehouse file content; `HiveTextLines` and `HiveTextRoundTrip` state what it reads back as |
| Validate.WriteHiveData | egx30_stock_pipeline.py:113-115 | the write loop produces one `symbol,str(price)` line per row, in order, with no header |
| Validate.HiveTextRoundTrip | egx30_stock_pipeline.py:113-115 | the warehouse file reads back as one line per row, each splitting into the symbol and a price text that `float()` reads as the row's price |
| Validate.HiveTextLines | egx30_stock_pipeline.py:113-115 | the lines read from the warehouse file are the lines written |
| Validate.HiveLineRoundTrip | egx30_stock_pipeline.py:115 | one warehouse line holds no line break and splits into the symbol and `str(price)`, which reads back as the price |
| Validate.PriceFieldPlain | egx30_stock_pipeline.py:115 | `str(x)` of a float holds no comma and no line break |
| Validate.ValidateAndPrepare | egx30_stock_pipeline.py:80-160 | validation writes the deduplicated valid rows to `/tmp/hive_data_<date>.txt` and the seven-step script for that file and date to `/tmp/load_hive_<date>.hql` |
| LoadScript.Script | egx30_stock_pipeline.py:120-157 | the script has exactly seven statements |
| LoadScript.StepLines | egx30_stock_pipeline.py:120-157 | the exact lines of each statement of the template, its comment line first; `RenderBlock` and the key-line lemmas state where they sit in the script |
| LoadScript.ScriptText | egx30_stock_pipeline.py:120-157 | the script file: a line break, then the statements' lines with an empty line between two statements; `ScriptTextOrder` states the order of its key lines |
| LoadScript.ScriptOrder | egx30_stock_pipeline.py:139-150 | the only load reads exactly the warehouse file and comes after the staging truncate; the only insert comes after the run date's partition drop; every statement that names a partition names the run date |
| LoadScript.RenderBlock | egx30_stock_pipeline.py:120-157 | the script text holds each statement's lines, contiguous and unchanged, at that statement's offset |
| LoadScript.ScriptTextOrder | egx30_stock_pipeline.py:139-150 | in the script text, the `TRUNCATE` line comes before the `LOAD DATA` line for the warehouse file, which comes before the `DROP IF EXISTS PARTITION` line for the run date, which comes before the `INSERT INTO ... PARTITION` line for the run date |
| LoadScript.Exec | egx30_stock_pipeline.py:177 | what one statement does to the warehouse, failing on a missing table or file; `RunPrologue`, `RunScript` and `RunIdempotent` state its effect over the script |
| LoadScript.Run | egx30_stock_pipeline.py:177 | `hive -f` runs the statements in order and stops at the first that fails; `RunAt` states one step of it |
| LoadScript.RunAt | egx30_stock_pipeline.py:177 | running a list from position `k` is the statement at `k`, then the rest when it succeeds |
| LoadScript.RunPrologue | egx30_stock_pipeline.py:121-140 | the first three steps create whatever table is missing and leave staging empty, keeping every partition |
| LoadScript.RunScript | egx30_stock_pipeline.py:139-150 | the script fails exactly when the warehouse file is missing; otherwise staging and the run date's partition both hold exactly the file's rows, every other partition is unchanged and the files are untouched |
| LoadScript.RunIdempotent | egx30_stock_pipeline.py:145-150 | running the script a second time for the same date and file changes nothing |
| LoadScript.Report | egx30_stock_pipeline.py:152-156 | the result of step 7: the run date with its partition's row count, no row for a missing or empty partition; `ReportAfterRun` states what it gives after the script |
| LoadScript.ReportAfterRun | egx30_stock_pipeline.py:152-156 | after the script, step 7 reports the run date with the file's row count, or nothing for an empty file |
| LoadScript.RunWithoutDrop | egx30_stock_pipeline.py:145-146 | without step 5, the insert appends the file's rows to whatever the partition held |
| LoadScript.WithoutDropDuplicates | egx30_stock_pipeline.py:145-150 | without step 5, two runs on a non-empty file leave the partition with more rows than the file: the drop is what makes the load a replacement |
| Pipeline.PriceField | egx30_stock_pipeline.py:75 | a price field, `nan` and `inf` included, holds no comma or line break, ends with a non-space, and reads back under `float()` as the price's value |
| Pipeline.RecordLinePlain | egx30_stock_pipeline.py:75 | a record's CSV line holds no line break when its date and symbol hold none |
| Pipeline.RecordLineReadsBack | egx30_stock_pipeline.py:91-97 | validation reads a record's CSV line as the record's symbol and price |
| Pipeline.CsvDataLines | egx30_stock_pipeline.py:73-75 | past the header, the lines read from the CSV file are the records' lines |
| Pipeline.CsvReadBack | egx30_stock_pipeline.py:73-75 | validating the CSV file extraction writes yields exactly the records' `(symbol, price)` rows, in order |
| Pipeline.ExtractedRowsPrepared | egx30_stock_pipeline.py:87-107 | for a plain run date, validation keeps every extracted record and only those: neither the format check nor the duplicate check drops anything |
| Pipeline.ExtractThenValidate | egx30_stock_pipeline.py:182 | `extract >> validate` fails exactly when nothing is collected; otherwise it leaves the warehouse file of the validated rows and the script, and for a plain date that file holds exactly the extracted records |
| Pipeline.DagRun | egx30_stock_pipeline.py:175-182 | the warehouse after a run: unchanged when extraction raises, otherwise the load script run over the warehouse with validation's file in place; its meaning is stated by `DailyRun` |
| Pipeline.DailyRun | egx30_stock_pipeline.py:175-182 | a run never fails at the load; with an empty batch it leaves the warehouse as it was; otherwise the run date's partition holds one line per extracted record; either way every other partition is as it was |

## Left out

- The DAG definition, `default_args`, the schedule and the operators (egx30_stock_pipeline.py:1-24, 162-179) are framework configuration. Only the order `extract >> validate >> load` and the hand-off of the file paths are modelled, by `Pipeline`.
- The network request, the JSON decoding and the exception handler (egx30_stock_pipeline.py:43-53, 64-65) are a function parameter `fetch`. It maps each ticker to `None` when the request fails or the chart has no result, and otherwise to the list of closes. Each close is `null`, an integer, a finite float, an infinity or NaN. Any exception counts as "no record".
- Logging (egx30_stock_pipeline.py:28, 63, 65, 77, 109, 159) is output only and is left out.
- Files are strings. Writing produces the file's whole content; reading splits content into lines. File system errors are not modelled.
- Hive's execution of the script is not modelled as HQL. `LoadScript.Exec` is an abstract account of each statement over tables of text rows. It does not model the conversion of the price text to `DECIMAL(10,2)`, the ORC storage, or Hive's own failure modes.
- Numbers.RoundHundredths: a float close is taken as an exact decimal `digits * 10^-scale`. The binary double that Python actually rounds, and the rounding of the result back to a double, are not modelled.
- Extract.Collected: a float literal too large for a double, such as `1e400`, is a finite `FloatClose` at its exact value. `json.loads` turns it into `inf`, which the model gives only for the `Infinity` token.
- Numbers.FormatThenParse: floats are exact decimals. `float()` does not round to 53 bits, so overflow to infinity, underflow to zero and precision loss on long literals are not modelled. `str` writes the decimal's own digits rather than the shortest repr of a double.
- Numbers.NanRoundTrip: NaN carries no sign, so `float('-nan')` and `float('nan')` give the same value.
- LoadScript.ScriptTextOrder: the order of the key lines is stated as positions in the rendered list of lines, not as a search of the text for substrings.
- Pipeline.ExtractedRowsPrepared: holds only for a run date with no comma and no line break. A date with a comma would make every line split into more than three fields, and every row would be dropped; a date with a line break would split every line in two.
- Pipeline.DailyRun: holds only for a run date with no comma and no line break, for the reason given for `ExtractedRowsPrepared`.
- Numbers.ParseNumber: accepts only ASCII digits. Python's `float()` also reads the other Unicode decimal digits (such as `٥`), so a price written with them is dropped by the model and kept by validation. The Unicode digit table is not modelled; the extraction step never writes such digits.

/** The load script written by the validation step: seven statements over
    the staging table and the partitioned final table, rendered as HQL
    text, and an abstract account of what each statement does to the
    warehouse, enough to state why running the script again for the same
    date replaces that date's partition instead of adding to it. */
module LoadScript {
  import opened Wrappers
  import opened Text

  /** The seven steps of the script. */
  datatype Statement =
    | CreateStaging
    | CreateFinal
    | TruncateStaging
    | LoadStaging(path: string)
    | DropPartition(date: string)
    | InsertFromStaging(date: string)
    | CountPartition(date: string)

  /** The script for a data file and a run date, in the order the
      template writes it. */
  function Script(hiveData: string, date: string): (s: seq<Statement>)
    ensures |s| == 7
  {
    [CreateStaging, CreateFinal, TruncateStaging, LoadStaging(hiveData),
     DropPartition(date), InsertFromStaging(date), CountPartition(date)]
  }

  /** The text lines of one step, its comment line first. */
  function StepLines(s: Statement): seq<string> {
    match s
    case CreateStaging => CreateStagingLines
    case CreateFinal => CreateFinalLines
    case TruncateStaging => [TruncateComment, TruncateLine]
    case LoadStaging(path) => [LoadComment, LoadLine(path)]
    case DropPartition(date) => [DropComment, DropLine(date)]
    case InsertFromStaging(date) => [InsertComment, InsertLine(date), InsertSelect]
    case CountPartition(date) => [CountComment, CountSelect, CountFrom, CountWhere(date), CountGroup]
  }

  const CreateStagingLines := [
    "-- Step 1: Create staging table (TEXT format for CSV)",
    "CREATE TABLE IF NOT EXISTS egx30_staging (",
    "    stock_symbol STRING,",
    "    price DECIMAL(10,2)",
    ")",
    "ROW FORMAT DELIMITED",
    "FIELDS TERMINATED BY ','",
    "STORED AS TEXTFILE;"]

  const CreateFinalLines := [
    "-- Step 2: Create final ORC table (partitioned)",
    "CREATE TABLE IF NOT EXISTS egx30_stocks (",
    "    stock_symbol STRING,",
    "    price DECIMAL(10,2)",
    ")",
    "PARTITIONED BY (trade_date STRING)",
    "STORED AS ORC",
    "TBLPROPERTIES ('orc.compress'='SNAPPY');"]

  const TruncateComment := "-- Step 3: Clear staging"
  const TruncateLine := "TRUNCATE TABLE egx30_staging;"

  const LoadComment := "-- Step 4: Load CSV into staging"
  const LoadPrefix := "LOAD DATA LOCAL INPATH '"
  const LoadSuffix := "' INTO TABLE egx30_staging;"

  function LoadLine(path: string): string {
    LoadPrefix + path + LoadSuffix
  }

  const DropComment := "-- Step 5: Drop old partition"
  const DropPrefix := "ALTER TABLE egx30_stocks DROP IF EXISTS PARTITION (trade_date='"
  const DropSuffix := "');"

  function DropLine(date: string): string {
    DropPrefix + date + DropSuffix
  }

  const InsertComment := "-- Step 6: Insert from staging to final table"
  const InsertPrefix := "INSERT INTO TABLE egx30_stocks PARTITION (trade_date='"
  const InsertSuffix := "')"
  const InsertSelect := "SELECT stock_symbol, price FROM egx30_staging;"

  function InsertLine(date: string): string {
    InsertPrefix + date + InsertSuffix
  }

  const CountComment := "-- Step 7: Verify"
  const CountSelect := "SELECT trade_date, COUNT(*) as record_count "
  const CountFrom := "FROM egx30_stocks "
  const CountPrefix := "WHERE trade_date='"
  const CountSuffix := "'"
  const CountGroup := "GROUP BY trade_date;"

  function CountWhere(date: string): string {
    CountPrefix + date + CountSuffix
  }

  /** Blocks of lines with an empty line between two blocks. */
  function Render<S>(stmts: seq<S>, lines: S -> seq<string>): seq<string> {
    if stmts == [] then []
    else if |stmts| == 1 then lines(stmts[0])
    else lines(stmts[0]) + [""] + Render(stmts[1..], lines)
  }

  /** The script file: the template opens with a line break and closes
      each line with one. */
  function ScriptText(hiveData: string, date: string): string {
    "\n" + Unlines(Render(Script(hiveData, date), StepLines))
  }

  /** The order that makes the load a replacement: the only load reads
      exactly the data file and comes after the staging table is
      truncated, and the only insert goes to the run date's partition and
      comes after that partition is dropped; every statement that names a
      partition names the run date's. */
  lemma {:induction false} ScriptOrder(hiveData: string, date: string)
    ensures var s := Script(hiveData, date);
      && (forall i :: 0 <= i < |s| && s[i].LoadStaging? ==>
            s[i].path == hiveData && exists j :: 0 <= j < i && s[j] == TruncateStaging)
      && (forall i :: 0 <= i < |s| && s[i].InsertFromStaging? ==>
            exists j :: 0 <= j < i && s[j] == DropPartition(date))
      && (forall i :: 0 <= i < |s| && (s[i].DropPartition? || s[i].InsertFromStaging? || s[i].CountPartition?) ==>
            s[i].date == date)
  {
    var s := Script(hiveData, date);
    forall i | 0 <= i < |s| && s[i].LoadStaging?
      ensures s[i].path == hiveData && exists j :: 0 <= j < i && s[j] == TruncateStaging
    {
      assert s[2] == TruncateStaging;
    }
    forall i | 0 <= i < |s| && s[i].InsertFromStaging?
      ensures exists j :: 0 <= j < i && s[j] == DropPartition(date)
    {
      assert s[4] == DropPartition(date);
    }
  }

  /** Where the block of statement `k` begins in the rendered script. */
  function Offset<S>(stmts: seq<S>, lines: S -> seq<string>, k: nat): nat
    requires k <= |stmts|
  {
    if k == 0 then 0 else |lines(stmts[0])| + 1 + Offset(stmts[1..], lines, k - 1)
  }

  /** The rendered script holds each statement's block, unchanged and
      contiguous, at its offset. */
  lemma {:induction false} RenderBlock<S>(stmts: seq<S>, lines: S -> seq<string>, k: nat)
    requires k < |stmts|
    ensures var o := Offset(stmts, lines, k);
      && o + |lines(stmts[k])| <= |Render(stmts, lines)|
      && Render(stmts, lines)[o..o + |lines(stmts[k])|] == lines(stmts[k])
    decreases k
  {
    var head := lines(stmts[0]);
    var r := Render(stmts, lines);
    if |stmts| == 1 {
      assert r == head;
    } else {
      var rest := Render(stmts[1..], lines);
      assert r == head + [""] + rest;
      if k == 0 {
        assert r[..|head|] == head;
      } else {
        RenderBlock(stmts[1..], lines, k - 1);
        assert stmts[1..][k - 1] == stmts[k];
        var o := Offset(stmts[1..], lines, k - 1);
        var n := |lines(stmts[k])|;
        assert r[|head| + 1 + o..|head| + 1 + o + n] == rest[o..o + n];
      }
    }
  }

  /** Later blocks are rendered further down, after the whole of the
      earlier one. */
  lemma {:induction false} OffsetIncreasing<S>(stmts: seq<S>, lines: S -> seq<string>, k: nat)
    requires k + 1 < |stmts|
    ensures Offset(stmts, lines, k) + |lines(stmts[k])| < Offset(stmts, lines, k + 1)
    decreases k
  {
    if k > 0 {
      OffsetIncreasing(stmts[1..], lines, k - 1);
      assert stmts[1..][k - 1] == stmts[k];
    }
  }

  /** Line `j` of block `k`, found in the rendered script. */
  lemma {:induction false} LineInBlock<S>(stmts: seq<S>, lines: S -> seq<string>, k: nat, j: nat)
    requires k < |stmts| && j < |lines(stmts[k])|
    ensures Offset(stmts, lines, k) + j < |Render(stmts, lines)|
    ensures Render(stmts, lines)[Offset(stmts, lines, k) + j] == lines(stmts[k])[j]
  {
    RenderBlock(stmts, lines, k);
    var o := Offset(stmts, lines, k);
    assert Render(stmts, lines)[o..o + |lines(stmts[k])|][j] == Render(stmts, lines)[o + j];
  }

  /** The same order in the script text: the truncate line comes before
      the load line, which names exactly the data file, and the drop line
      for the run date comes before the insert line for that date. */
  lemma {:induction false} ScriptTextOrder(hiveData: string, date: string)
    ensures var s := Script(hiveData, date);
      var r := Render(s, StepLines);
      && ScriptText(hiveData, date) == "\n" + Unlines(r)
      && Offset(s, StepLines, 2) + 1 < Offset(s, StepLines, 3) + 1
      && Offset(s, StepLines, 3) + 1 < Offset(s, StepLines, 4) + 1
      && Offset(s, StepLines, 4) + 1 < Offset(s, StepLines, 5) + 1 < |r|
      && r[Offset(s, StepLines, 2) + 1] == TruncateLine
      && r[Offset(s, StepLines, 3) + 1] == LoadLine(hiveData)
      && r[Offset(s, StepLines, 4) + 1] == DropLine(date)
      && r[Offset(s, StepLines, 5) + 1] == InsertLine(date)
  {
    TextOrder(Script(hiveData, date), hiveData, date);
  }

  lemma {:induction false} TextOrder(s: seq<Statement>, hiveData: string, date: string)
    requires |s| == 7
    requires s[2] == TruncateStaging && s[3] == LoadStaging(hiveData)
    requires s[4] == DropPartition(date) && s[5] == InsertFromStaging(date)
    ensures var r := Render(s, StepLines);
      && Offset(s, StepLines, 2) + 1 < Offset(s, StepLines, 3) + 1
      && Offset(s, StepLines, 3) + 1 < Offset(s, StepLines, 4) + 1
      && Offset(s, StepLines, 4) + 1 < Offset(s, StepLines, 5) + 1 < |r|
      && r[Offset(s, StepLines, 2) + 1] == TruncateLine
      && r[Offset(s, StepLines, 3) + 1] == LoadLine(hiveData)
      && r[Offset(s, StepLines, 4) + 1] == DropLine(date)
      && r[Offset(s, StepLines, 5) + 1] == InsertLine(date)
  {
    OffsetIncreasing(s, StepLines, 2);
    OffsetIncreasing(s, StepLines, 3);
    OffsetIncreasing(s, StepLines, 4);
    TruncateKey(s, 2);
    LoadKey(s, 3, hiveData);
    DropKey(s, 4, date);
    InsertKey(s, 5, date);
  }

  // The second line of each of these blocks names what the step works on.

  lemma {:induction false} TruncateKey(s: seq<Statement>, k: nat)
    requires k < |s| && s[k] == TruncateStaging
    ensures Offset(s, StepLines, k) + 1 < |Render(s, StepLines)|
    ensures Render(s, StepLines)[Offset(s, StepLines, k) + 1] == TruncateLine
  {
    LineInBlock(s, StepLines, k, 1);
  }

  lemma {:induction false} LoadKey(s: seq<Statement>, k: nat, hiveData: string)
    requires k < |s| && s[k] == LoadStaging(hiveData)
    ensures Offset(s, StepLines, k) + 1 < |Render(s, StepLines)|
    ensures Render(s, StepLines)[Offset(s, StepLines, k) + 1] == LoadLine(hiveData)
  {
    LineInBlock(s, StepLines, k, 1);
  }

  lemma {:induction false} DropKey(s: seq<Statement>, k: nat, date: string)
    requires k < |s| && s[k] == DropPartition(date)
    ensures Offset(s, StepLines, k) + 1 < |Render(s, StepLines)|
    ensures Render(s, StepLines)[Offset(s, StepLines, k) + 1] == DropLine(date)
  {
    LineInBlock(s, StepLines, k, 1);
  }

  lemma {:induction false} InsertKey(s: seq<Statement>, k: nat, date: string)
    requires k < |s| && s[k] == InsertFromStaging(date)
    ensures Offset(s, StepLines, k) + 1 < |Render(s, StepLines)|
    ensures Render(s, StepLines)[Offset(s, StepLines, k) + 1] == InsertLine(date)
  {
    LineInBlock(s, StepLines, k, 1);
  }

  // ---------------------------------------------------------------------
  // What the statements do

  /** The warehouse as the script sees it: the local files by path (as
      their lines), the staging table's rows when it exists, and the
      final table's partitions by trade date when it exists. */
  datatype Warehouse = Warehouse(
    files: map<string, seq<string>>,
    staging: Option<seq<string>>,
    stocks: Option<map<string, seq<string>>>)

  /** One statement; `None` when it fails (a missing table or file). */
  function Exec(s: Statement, w: Warehouse): Option<Warehouse> {
    match s
    case CreateStaging =>
      Some(if w.staging.None? then w.(staging := Some([])) else w)
    case CreateFinal =>
      Some(if w.stocks.None? then w.(stocks := Some(map[])) else w)
    case TruncateStaging =>
      if w.staging.None? then None else Some(w.(staging := Some([])))
    case LoadStaging(path) =>
      if w.staging.None? || path !in w.files then None
      else Some(w.(staging := Some(w.staging.value + w.files[path])))
    case DropPartition(date) =>
      if w.stocks.None? then None
      else Some(w.(stocks := Some(w.stocks.value - {date})))
    case InsertFromStaging(date) =>
      if w.stocks.None? || w.staging.None? then None
      else
        var parts := w.stocks.value;
        var before := if date in parts then parts[date] else [];
        Some(w.(stocks := Some(parts[date := before + w.staging.value])))
    case CountPartition(date) =>
      if w.stocks.None? then None else Some(w)
  }

  /** The statements in order, stopping at the first that fails. */
  function Run(stmts: seq<Statement>, w: Warehouse): Option<Warehouse>
    decreases |stmts|
  {
    if stmts == [] then Some(w)
    else
      match Exec(stmts[0], w)
      case None => None
      case Some(w') => Run(stmts[1..], w')
  }

  /** The final table's partitions, none when it does not exist yet. */
  function Partitions(w: Warehouse): map<string, seq<string>> {
    if w.stocks.None? then map[] else w.stocks.value
  }

  /** What step 7 reports: the date and the partition's row count, or no
      row at all when the partition is missing or empty. */
  function Report(w: Warehouse, date: string): seq<(string, nat)> {
    var parts := Partitions(w);
    if date in parts && parts[date] != [] then [(date, |parts[date]|)] else []
  }

  /** One statement of a list run from position `k`. */
  lemma {:induction false} RunAt(stmts: seq<Statement>, k: int, w: Warehouse)
    requires 0 <= k < |stmts|
    ensures Run(stmts[k..], w) ==
      match Exec(stmts[k], w)
      case None => None
      case Some(w') => Run(stmts[k + 1..], w')
  {
    assert stmts[k..][0] == stmts[k];
    assert stmts[k..][1..] == stmts[k + 1..];
  }

  /** The first three statements create what is missing and empty the
      staging table. */
  lemma {:induction false} RunPrologue(stmts: seq<Statement>, w: Warehouse)
    requires |stmts| >= 3 && stmts[..3] == [CreateStaging, CreateFinal, TruncateStaging]
    ensures Run(stmts, w) == Run(stmts[3..], Warehouse(w.files, Some([]), Some(Partitions(w))))
  {
    var w1 := if w.staging.None? then w.(staging := Some([])) else w;
    var w2 := if w1.stocks.None? then w1.(stocks := Some(map[])) else w1;
    assert stmts[0] == CreateStaging && stmts[1] == CreateFinal && stmts[2] == TruncateStaging by {
      assert stmts[..3][0] == stmts[0] && stmts[..3][1] == stmts[1] && stmts[..3][2] == stmts[2];
    }
    assert stmts[0..] == stmts;
    RunAt(stmts, 0, w);
    RunAt(stmts, 1, w1);
    RunAt(stmts, 2, w2);
  }

  /** Running the script fails exactly when the data file is missing;
      otherwise the staging table and the run date's partition both hold
      exactly the data file's rows, every other partition is as it was
      and the files are untouched. */
  lemma {:induction false} RunScript(hiveData: string, date: string, w: Warehouse)
    ensures Run(Script(hiveData, date), w).Some? <==> hiveData in w.files
    ensures hiveData in w.files ==>
      Run(Script(hiveData, date), w) ==
        Some(Warehouse(w.files, Some(w.files[hiveData]), Some(Partitions(w)[date := w.files[hiveData]])))
  {
    var s := Script(hiveData, date);
    var w3 := Warehouse(w.files, Some([]), Some(Partitions(w)));
    RunPrologue(s, w);
    RunAt(s, 3, w3);
    if hiveData in w.files {
      var f := w.files[hiveData];
      assert [] + f == f;
      var w4 := w3.(staging := Some(f));
      var w5 := w4.(stocks := Some(Partitions(w) - {date}));
      var w6 := w5.(stocks := Some((Partitions(w) - {date})[date := f]));
      RunAt(s, 4, w4);
      RunAt(s, 5, w5);
      RunAt(s, 6, w6);
      assert s[7..] == [];
      assert (Partitions(w) - {date})[date := f] == Partitions(w)[date := f];
    }
  }

  /** Running the script a second time for the same date and data file
      changes nothing: the partition is replaced, not appended to. */
  lemma {:induction false} RunIdempotent(hiveData: string, date: string, w: Warehouse, w': Warehouse)
    requires Run(Script(hiveData, date), w) == Some(w')
    ensures Run(Script(hiveData, date), w') == Some(w')
  {
    RunScript(hiveData, date, w);
    RunScript(hiveData, date, w');
    var f := w.files[hiveData];
    assert Partitions(w') == Partitions(w)[date := f];
    assert Partitions(w')[date := f] == Partitions(w)[date := f];
  }

  /** After the script, step 7 reports the data file's row count (no row
      for an empty file). */
  lemma {:induction false} ReportAfterRun(hiveData: string, date: string, w: Warehouse, w': Warehouse)
    requires Run(Script(hiveData, date), w) == Some(w')
    ensures hiveData in w.files
    ensures Report(w', date) == if w.files[hiveData] == [] then [] else [(date, |w.files[hiveData]|)]
  {
    RunScript(hiveData, date, w);
  }

  /** The rows a partition holds, none when it is missing. */
  function PartitionRows(w: Warehouse, date: string): seq<string> {
    var parts := Partitions(w);
    if date in parts then parts[date] else []
  }

  /** The script without step 5 appends the data file to the partition. */
  lemma {:induction false} RunWithoutDrop(hiveData: string, date: string, w: Warehouse)
    requires hiveData in w.files
    ensures var s := Script(hiveData, date);
      var f := w.files[hiveData];
      Run(s[..4] + s[5..], w) ==
        Some(Warehouse(w.files, Some(f), Some(Partitions(w)[date := PartitionRows(w, date) + f])))
  {
    var s := Script(hiveData, date);
    var noDrop := s[..4] + s[5..];
    assert noDrop == [CreateStaging, CreateFinal, TruncateStaging, LoadStaging(hiveData),
                      InsertFromStaging(date), CountPartition(date)];
    var f := w.files[hiveData];
    var w3 := Warehouse(w.files, Some([]), Some(Partitions(w)));
    RunPrologue(noDrop, w);
    assert [] + f == f;
    var w4 := w3.(staging := Some(f));
    var w5 := w4.(stocks := Some(Partitions(w)[date := PartitionRows(w, date) + f]));
    RunAt(noDrop, 3, w3);
    RunAt(noDrop, 4, w4);
    RunAt(noDrop, 5, w5);
    assert noDrop[6..] == [];
  }

  /** The script without step 5, run twice on a non-empty data file,
      leaves the partition holding more rows than the file: the drop is
      what makes the load a replacement. */
  lemma {:induction false} WithoutDropDuplicates(hiveData: string, date: string, w: Warehouse)
    requires hiveData in w.files && w.files[hiveData] != []
    ensures var s := Script(hiveData, date);
      var noDrop := s[..4] + s[5..];
      && Run(noDrop, w).Some?
      && Run(noDrop, Run(noDrop, w).value).Some?
      && |PartitionRows(Run(noDrop, Run(noDrop, w).value).value, date)| > |w.files[hiveData]|
  {
    var f := w.files[hiveData];
    RunWithoutDrop(hiveData, date, w);
    var w1 := Warehouse(w.files, Some(f), Some(Partitions(w)[date := PartitionRows(w, date) + f]));
    RunWithoutDrop(hiveData, date, w1);
    assert PartitionRows(w1, date) == PartitionRows(w, date) + f;
  }
}

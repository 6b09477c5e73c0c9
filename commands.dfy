/** The compare command end to end: Helpers.GetDataSet for each workbook
    (resolve the key column and the header row of every sheet, then
    normalize it), the comparison loops, the sort and the CSV text. The
    workbooks arrive already decoded, the console prompt is a scripted
    sequence of answers, and the result is what the command ends with. */
module Commands {
  import opened Common
  import opened ColumnLetters
  import opened KeyResolver
  import opened Normalizer
  import opened Differ
  import opened Ranker
  import opened Csv

  predicate AllRawWellFormed(raws: seq<RawTable>) {
    forall k | 0 <= k < |raws| :: RawWellFormed(raws[k])
  }

  // ---- GetDataSet ----

  /** Lines 87-183 for one sheet: the key column, then the header row, the
      two bounds checks (which return null) and the header row lookup
      (which throws for index -1). */
  function SheetKeys(raw: RawTable, columnRowKey: string, rowColumnKey: string, answers: seq<string>)
    : (r: (Outcome<(int, int)>, seq<string>))
    ensures IsSuffix(r.1, answers)
    ensures r.0.Done? ==> r.0.value.0 <= raw.width && 0 <= r.0.value.1 < |raw.rows|
  {
    var (key, afterColumn) := ResolveColumnKey(columnRowKey, answers, raw.width);
    match key
    case Cancelled => (Cancelled, afterColumn)
    case Crashed(f) => (Crashed(f), afterColumn)
    case AwaitingInput => (AwaitingInput, afterColumn)
    case Done(keyColumnIndex) =>
      var (header, afterRow) := ResolveHeaderRow(rowColumnKey, afterColumn, |raw.rows|);
      match header
      case Cancelled => (Cancelled, afterRow)
      case Crashed(f) => (Crashed(f), afterRow)
      case AwaitingInput => (AwaitingInput, afterRow)
      case Done(headerRowIndex) =>
        if keyColumnIndex > raw.width then (Cancelled, afterRow)
        else if headerRowIndex > |raw.rows| - 1 then (Cancelled, afterRow)
        else if headerRowIndex < 0 then (Crashed(HeaderRowOutOfRange), afterRow)
        else (Done((keyColumnIndex, headerRowIndex)), afterRow)
  }

  /** Lines 82-254 for one sheet: the keys, then the normalization passes. */
  function SheetOf(raw: RawTable, columnRowKey: string, rowColumnKey: string, answers: seq<string>, culture: Culture)
    : (r: (Outcome<Table>, seq<string>))
    requires RawWellFormed(raw)
    ensures IsSuffix(r.1, answers)
    ensures r.0.Done? ==> WellFormed(r.0.value) && r.0.value.name == raw.name && |r.0.value.columns| == raw.width + 1
  {
    var (keys, rest) := SheetKeys(raw, columnRowKey, rowColumnKey, answers);
    match keys
    case Cancelled => (Cancelled, rest)
    case Crashed(f) => (Crashed(f), rest)
    case AwaitingInput => (AwaitingInput, rest)
    case Done((keyColumnIndex, headerRowIndex)) => (Done(LoadedTable(raw, keyColumnIndex, headerRowIndex, culture)), rest)
  }

  /** The clone of the normalized DataTable, with the shape every later pass relies on. */
  function LoadedTable(raw: RawTable, keyColumnIndex: int, headerRowIndex: nat, culture: Culture): (t: Table)
    requires RawWellFormed(raw) && headerRowIndex < |raw.rows|
    ensures WellFormed(t) && t.name == raw.name && |t.columns| == raw.width + 1
  {
    NormalizedColumns(raw, keyColumnIndex, headerRowIndex, culture);
    NormalizedRows(raw, keyColumnIndex, headerRowIndex, culture);
    NormalizedTable(raw, keyColumnIndex, headerRowIndex, culture)
  }

  /** The sheets of one workbook after the first n, in order; the first
      sheet that does not end with a table ends GetDataSet. */
  function DataSetUpTo(raws: seq<RawTable>, columnRowKey: string, rowColumnKey: string, answers: seq<string>,
                       culture: Culture, n: nat): (r: (Outcome<seq<Table>>, seq<string>))
    requires AllRawWellFormed(raws) && n <= |raws|
    ensures IsSuffix(r.1, answers)
    ensures r.0.Done? ==> |r.0.value| == n && AllWellFormed(r.0.value)
    decreases n
  {
    if n == 0 then (Done([]), answers)
    else
      var (before, rest) := DataSetUpTo(raws, columnRowKey, rowColumnKey, answers, culture, n - 1);
      match before
      case Cancelled => (Cancelled, rest)
      case Crashed(f) => (Crashed(f), rest)
      case AwaitingInput => (AwaitingInput, rest)
      case Done(tables) =>
        var (sheet, after) := SheetOf(raws[n - 1], columnRowKey, rowColumnKey, rest, culture);
        match sheet
        case Cancelled => (Cancelled, after)
        case Crashed(f) => (Crashed(f), after)
        case AwaitingInput => (AwaitingInput, after)
        case Done(t) => (Done(tables + [t]), after)
  }

  /** What GetDataSet returns for a decoded workbook: the normalized sheets,
      null (Cancelled), an exception, or a prompt still waiting. */
  function DataSetOf(raws: seq<RawTable>, columnRowKey: string, rowColumnKey: string, answers: seq<string>, culture: Culture)
    : (r: (Outcome<seq<Table>>, seq<string>))
    requires AllRawWellFormed(raws)
  {
    DataSetUpTo(raws, columnRowKey, rowColumnKey, answers, culture, |raws|)
  }

  /** Lines 87-129: the key column from the caller's letters when they are
      valid and inside the sheet, otherwise from the prompt loop. */
  method ResolveKeyColumn(columnRowKey: string, answers: seq<string>, columnCount: nat)
    returns (key: Outcome<int>, rest: seq<string>)
    ensures (key, rest) == ResolveColumnKey(columnRowKey, answers, columnCount)
  {
    var promptColumn := IsNotValidColumnIndex(columnRowKey);
    if !promptColumn {
      var hinted := GetExcelColumnLettersAsIndex(columnRowKey);
      promptColumn := IsNotLocatedColumnIndex(hinted.value, columnCount);
    }
    if promptColumn {
      key, rest := PromptColumnLoop(answers, columnCount);
    } else {
      var hinted := GetExcelColumnLettersAsIndex(columnRowKey);
      key, rest := Done(hinted.value), answers;
    }
  }

  /** Lines 131-171: the header row from the caller's number when it is
      valid and inside the sheet, otherwise from the prompt loop. */
  method ResolveHeaderRowIndex(rowColumnKey: string, answers: seq<string>, rowCount: nat)
    returns (header: Outcome<int>, rest: seq<string>)
    ensures (header, rest) == ResolveHeaderRow(rowColumnKey, answers, rowCount)
  {
    var promptRow := IsNotValidRowIndex(rowColumnKey);
    if !promptRow {
      var notLocated := IsNotLocatedRowIndex(rowColumnKey, rowCount);
      if notLocated.Err? {
        return Crashed(notLocated.failure), answers;
      }
      promptRow := notLocated.value;
    }
    if promptRow {
      header, rest := PromptRowLoop(answers, rowCount);
    } else {
      header, rest := Done(ToInt32(rowColumnKey).value - 1), answers;
    }
  }

  /** Lines 87-252 for one sheet: resolve both keys, then normalize the
      DataTable in place and clone it. */
  method LoadSheet(raw: RawTable, columnRowKey: string, rowColumnKey: string, answers: seq<string>, culture: Culture)
    returns (sheet: Outcome<Table>, rest: seq<string>)
    requires RawWellFormed(raw)
    ensures (sheet, rest) == SheetOf(raw, columnRowKey, rowColumnKey, answers, culture)
  {
    var key;
    key, rest := ResolveKeyColumn(columnRowKey, answers, raw.width);
    if !key.Done? {
      return if key.Cancelled? then Cancelled else AwaitingInput, rest;
    }
    var header;
    header, rest := ResolveHeaderRowIndex(rowColumnKey, rest, |raw.rows|);
    if !header.Done? {
      return if header.Crashed? then Crashed(header.failure) else if header.Cancelled? then Cancelled else AwaitingInput, rest;
    }
    var keyColumnIndex, headerRowIndex := key.value, header.value;
    // Lines 173-183 compare against the same bounds the resolution already
    // enforced, so they never return here (SheetOnlyCancelledByColumnPrompt).
    if headerRowIndex < 0 {
      return Crashed(HeaderRowOutOfRange), rest;
    }
    var table := new Sheet(raw);
    table.Normalize(keyColumnIndex, headerRowIndex, culture);
    var clonedTable := table.Snapshot();
    sheet := Done(clonedTable);
  }

  /** DataSetUpTo one sheet further, once the first n sheets gave tables. */
  lemma DataSetStep(raws: seq<RawTable>, columnRowKey: string, rowColumnKey: string, answers: seq<string>,
                    culture: Culture, n: nat, tables: seq<Table>, rest: seq<string>)
    requires AllRawWellFormed(raws) && n < |raws|
    requires DataSetUpTo(raws, columnRowKey, rowColumnKey, answers, culture, n) == (Done(tables), rest)
    ensures var (sheet, after) := SheetOf(raws[n], columnRowKey, rowColumnKey, rest, culture);
            var outcome := if sheet.Done? then Done(tables + [sheet.value])
                           else if sheet.Cancelled? then Cancelled
                           else if sheet.Crashed? then Crashed(sheet.failure)
                           else AwaitingInput;
            DataSetUpTo(raws, columnRowKey, rowColumnKey, answers, culture, n + 1) == (outcome, after)
  {
  }

  /** Helpers.GetDataSet from the decoded workbook on: one DataTable per
      sheet, each normalized in place; the first sheet that does not give a
      table ends the method. */
  method GetDataSet(raws: seq<RawTable>, columnRowKey: string, rowColumnKey: string, answers: seq<string>, culture: Culture)
    returns (result: Outcome<seq<Table>>, rest: seq<string>)
    requires AllRawWellFormed(raws)
    ensures (result, rest) == DataSetOf(raws, columnRowKey, rowColumnKey, answers, culture)
  {
    var tablesToAdd: seq<Table> := [];
    rest := answers;
    for n := 0 to |raws|
      invariant DataSetUpTo(raws, columnRowKey, rowColumnKey, answers, culture, n) == (Done(tablesToAdd), rest)
    {
      ghost var before := rest;
      var sheet;
      sheet, rest := LoadSheet(raws[n], columnRowKey, rowColumnKey, rest, culture);
      DataSetStep(raws, columnRowKey, rowColumnKey, answers, culture, n, tablesToAdd, before);
      if !sheet.Done? {
        DataSetCancelledStays(raws, columnRowKey, rowColumnKey, answers, culture, n + 1, |raws|);
        return if sheet.Cancelled? then Cancelled else if sheet.Crashed? then Crashed(sheet.failure) else AwaitingInput, rest;
      }
      tablesToAdd := tablesToAdd + [sheet.value];
    }
    result := Done(tablesToAdd);
  }

  // ---- Compare ----

  /** How the compare command ends. */
  datatype Report =
    | Written(text: string, differences: nat)  // the CSV text and the difference count
    | NoDifferences                            // counter == 0: nothing sorted, nothing written
    | Aborted                                  // GetDataSet returned null
    | Failed(failure: Failure)                 // an exception reached the catch at line 156
    | Waiting                                  // a prompt is still waiting for an answer

  const RecordHeader: seq<string> := ["sht", "ltr", "num", "cCap", "rCap", "v1", "v2", "d", "abs"]

  /** ItemArray of a result row, each item as ToString() prints it. */
  function RecordFields(rec: Record, culture: Culture): (r: seq<string>)
    ensures |r| == |RecordHeader|
  {
    [rec.sht, rec.ltr, CellText(rec.num, culture), rec.cCap, CellText(rec.rCap, culture),
     culture.show(rec.v1), culture.show(rec.v2), culture.show(rec.d), culture.show(rec.abs)]
  }

  function CsvRows(records: seq<Record>, culture: Culture): (r: seq<seq<string>>)
    ensures |r| == |records|
  {
    seq(|records|, k requires 0 <= k < |records| => RecordFields(records[k], culture))
  }

  /** Lines 75-154 once both data sets exist. */
  function ReportOf(dataSet1: seq<Table>, dataSet2: seq<Table>, culture: Culture): Report
    requires AllWellFormed(dataSet1) && AllWellFormed(dataSet2)
  {
    match Differences(dataSet1, dataSet2)
    case Err(f) => Failed(f)
    case Ok(records) =>
      if |records| == 0 then NoDifferences
      else Written(CsvText(RecordHeader, CsvRows(Rank(records), culture)).value, |records|)
  }

  /** Reference definition of the command (lines 46-159), from the decoded workbooks on. */
  function CompareOf(workbook1: seq<RawTable>, file1RowKey: string, file1ColumnKey: string,
                     workbook2: seq<RawTable>, file2RowKey: string, file2ColumnKey: string,
                     answers: seq<string>, culture: Culture): Report
    requires AllRawWellFormed(workbook1) && AllRawWellFormed(workbook2)
  {
    var (first, rest) := DataSetOf(workbook1, file1RowKey, file1ColumnKey, answers, culture);
    match first
    case Cancelled => Aborted
    case Crashed(f) => Failed(f)
    case AwaitingInput => Waiting
    case Done(dataSet1) =>
      var (second, _) := DataSetOf(workbook2, file2RowKey, file2ColumnKey, rest, culture);
      match second
      case Cancelled => Aborted
      case Crashed(f) => Failed(f)
      case AwaitingInput => Waiting
      case Done(dataSet2) => ReportOf(dataSet1, dataSet2, culture)
  }

  /** Commands.Compare without the file checks, the console and the file
      write: the text that WriteToCsvFile would write, or how the run ends. */
  method Compare(workbook1: seq<RawTable>, file1RowKey: string, file1ColumnKey: string,
                 workbook2: seq<RawTable>, file2RowKey: string, file2ColumnKey: string,
                 answers: seq<string>, culture: Culture) returns (report: Report)
    requires AllRawWellFormed(workbook1) && AllRawWellFormed(workbook2)
    ensures report == CompareOf(workbook1, file1RowKey, file1ColumnKey, workbook2, file2RowKey, file2ColumnKey, answers, culture)
  {
    var dataSet1, rest := GetDataSet(workbook1, file1RowKey, file1ColumnKey, answers, culture);
    if !dataSet1.Done? {
      return if dataSet1.Cancelled? then Aborted else if dataSet1.Crashed? then Failed(dataSet1.failure) else Waiting;
    }
    var dataSet2, _ := GetDataSet(workbook2, file2RowKey, file2ColumnKey, rest, culture);
    if !dataSet2.Done? {
      return if dataSet2.Cancelled? then Aborted else if dataSet2.Crashed? then Failed(dataSet2.failure) else Waiting;
    }
    var finalDataTable, counter := CompareSheets(dataSet1.value, dataSet2.value);
    if finalDataTable.Err? {
      return Failed(finalDataTable.failure);
    }
    if counter == 0 {
      return NoDifferences;
    }
    var toPrintDataTable := Rank(finalDataTable.value);
    var fileContent := WriteToCsvFile(RecordHeader, CsvRows(toPrintDataTable, culture));
    report := Written(fileContent.value, counter);
  }

  // ---- properties of the command ----

  /** A report is written exactly when the loops found at least one
      difference; it counts them, and its text is the CSV of a permutation of
      the records ordered by sheet, then by abs descending, where records
      with the same sheet and abs stay in the order they were found. */
  lemma ReportCountsAndSorts(dataSet1: seq<Table>, dataSet2: seq<Table>, culture: Culture)
    requires AllWellFormed(dataSet1) && AllWellFormed(dataSet2)
    ensures var report, found := ReportOf(dataSet1, dataSet2, culture), Differences(dataSet1, dataSet2);
            && (report.Written? <==> found.Ok? && |found.value| > 0)
            && (report == NoDifferences <==> found == Ok([]))
            && (report.Failed? <==> found.Err?)
            && (report.Written? ==>
                  && report.differences == |found.value|
                  && Ranked(Rank(found.value)) && multiset(Rank(found.value)) == multiset(found.value)
                  && (forall k: Record :: Tied(Rank(found.value), k) == Tied(found.value, k))
                  && report.text == HeaderLine(RecordHeader) + RowLines(CsvRows(Rank(found.value), culture), |found.value|))
  {
    var found := Differences(dataSet1, dataSet2);
    if found.Ok? {
      RankSorts(found.value);
      forall k: Record
        ensures Tied(Rank(found.value), k) == Tied(found.value, k)
      {
        RankStable(found.value, k);
      }
    }
  }

  /** The written file has the header line and one line per difference,
      when no printed field holds a line feed. */
  lemma ReportLineCount(dataSet1: seq<Table>, dataSet2: seq<Table>, culture: Culture)
    requires AllWellFormed(dataSet1) && AllWellFormed(dataSet2)
    requires ReportOf(dataSet1, dataSet2, culture).Written?
    requires FieldsFreeOfLineFeed(CsvRows(Rank(Differences(dataSet1, dataSet2).value), culture))
    ensures var report := ReportOf(dataSet1, dataSet2, culture);
            Count(report.text, '\n') == 1 + report.differences
  {
    var records := Rank(Differences(dataSet1, dataSet2).value);
    var rows := CsvRows(records, culture);
    forall k | 0 <= k < |RecordHeader|
      ensures NoLineFeed(RecordHeader[k])
    {
      assert RecordHeader[k] in RecordHeader;
    }
    forall n | 0 <= n < |rows|
      ensures rows[n] != []
    {
      assert rows[n] == RecordFields(records[n], culture);
    }
    CsvLineCount(RecordHeader, rows);
  }

  /** A sheet is only ever cancelled at the column prompt: the row prompt
      cannot be left, and the bounds checks of lines 173-183 never return. */
  lemma SheetOnlyCancelledByColumnPrompt(raw: RawTable, columnRowKey: string, rowColumnKey: string,
                                         answers: seq<string>, culture: Culture)
    requires RawWellFormed(raw)
    ensures SheetOf(raw, columnRowKey, rowColumnKey, answers, culture).0 == Cancelled
        <==> ResolveColumnKey(columnRowKey, answers, raw.width).0 == Cancelled
  {
    KeysOnlyCancelledByColumnPrompt(raw, columnRowKey, rowColumnKey, answers);
  }

  lemma KeysOnlyCancelledByColumnPrompt(raw: RawTable, columnRowKey: string, rowColumnKey: string, answers: seq<string>)
    ensures SheetKeys(raw, columnRowKey, rowColumnKey, answers).0 == Cancelled
        <==> ResolveColumnKey(columnRowKey, answers, raw.width).0 == Cancelled
  {
    var (key, afterColumn) := ResolveColumnKey(columnRowKey, answers, raw.width);
    RowPromptNeverCancels(afterColumn, |raw.rows|);
  }

  /** Typing x or exit at the first column prompt ends the command without a file. */
  lemma ExitAtFirstColumnPromptAborts(workbook1: seq<RawTable>, file1RowKey: string, file1ColumnKey: string,
                                      workbook2: seq<RawTable>, file2RowKey: string, file2ColumnKey: string,
                                      answers: seq<string>, culture: Culture)
    requires AllRawWellFormed(workbook1) && AllRawWellFormed(workbook2) && |workbook1| >= 1
    requires IsNotValidColumnIndex(file1RowKey)
    requires |answers| >= 1 && IsExit(answers[0])
    ensures CompareOf(workbook1, file1RowKey, file1ColumnKey, workbook2, file2RowKey, file2ColumnKey, answers, culture) == Aborted
  {
    ColumnPromptCancelsOnExit(answers, workbook1[0].width);
    DataSetCancelledStays(workbook1, file1RowKey, file1ColumnKey, answers, culture, 1, |workbook1|);
  }

  /** A data set that ended early stays as it ended for every later sheet count. */
  lemma {:induction false} DataSetCancelledStays(raws: seq<RawTable>, columnRowKey: string, rowColumnKey: string,
                                                 answers: seq<string>, culture: Culture, n: nat, n': nat)
    requires AllRawWellFormed(raws) && n <= n' <= |raws|
    requires !DataSetUpTo(raws, columnRowKey, rowColumnKey, answers, culture, n).0.Done?
    ensures DataSetUpTo(raws, columnRowKey, rowColumnKey, answers, culture, n')
         == DataSetUpTo(raws, columnRowKey, rowColumnKey, answers, culture, n)
    decreases n'
  {
    if n' > n {
      var stopped := DataSetUpTo(raws, columnRowKey, rowColumnKey, answers, culture, n);
      DataSetCancelledStays(raws, columnRowKey, rowColumnKey, answers, culture, n, n' - 1);
      assert DataSetUpTo(raws, columnRowKey, rowColumnKey, answers, culture, n' - 1) == stopped;
      DataSetStopped(raws, columnRowKey, rowColumnKey, answers, culture, n' - 1);
    }
  }

  /** Once a sheet did not give a table, the next sheet is not looked at. */
  lemma DataSetStopped(raws: seq<RawTable>, columnRowKey: string, rowColumnKey: string,
                       answers: seq<string>, culture: Culture, n: nat)
    requires AllRawWellFormed(raws) && n < |raws|
    requires !DataSetUpTo(raws, columnRowKey, rowColumnKey, answers, culture, n).0.Done?
    ensures DataSetUpTo(raws, columnRowKey, rowColumnKey, answers, culture, n + 1)
         == DataSetUpTo(raws, columnRowKey, rowColumnKey, answers, culture, n)
  {
  }

  /** The header row hint "0" passes both row checks and makes Rows[-1] throw. */
  lemma ZeroHeaderRowFails(raw: RawTable, columnRowKey: string, answers: seq<string>, culture: Culture)
    requires RawWellFormed(raw)
    requires ResolveColumnKey(columnRowKey, answers, raw.width).0.Done?
    ensures SheetOf(raw, columnRowKey, "0", answers, culture).0 == Crashed(HeaderRowOutOfRange)
  {
    var (key, afterColumn) := ResolveColumnKey(columnRowKey, answers, raw.width);
    ZeroRowHintGivesMinusOne(afterColumn, |raw.rows|);
  }

  /** A row hint of digits beyond Int32.MaxValue makes Convert.ToInt32 throw. */
  lemma OverflowingRowHintFails(raw: RawTable, columnRowKey: string, rowColumnKey: string,
                                answers: seq<string>, culture: Culture)
    requires RawWellFormed(raw)
    requires ResolveColumnKey(columnRowKey, answers, raw.width).0.Done?
    requires rowColumnKey != [] && AllDigits(rowColumnKey) && DecimalValue(rowColumnKey) > Int32Max
    ensures SheetOf(raw, columnRowKey, rowColumnKey, answers, culture).0 == Crashed(RowNumberOverflow)
  {
    assert !IsBlank(rowColumnKey) by {
      assert IsDigit(rowColumnKey[0]);
    }
  }

  /** For a normalized sheet, a difference found in column c >= 2 always
      yields a record: its letters are the spreadsheet letters of the
      original column and, when the caption holds no "} - ", its caption is
      the header row's text. num is the row identifier. */
  lemma NormalizedRecordFields(raw: RawTable, keyColumnIndex: int, headerRowIndex: nat, culture: Culture,
                               t2: Table, r: nat, c: nat)
    requires RawWellFormed(raw) && headerRowIndex < |raw.rows| && WellFormed(t2)
    requires var t1 := NormalizedTable(raw, keyColumnIndex, headerRowIndex, culture);
             2 <= c < |t1.columns| && r < |t1.rows| && WellFormed(t1) && Differs(t1, t2, r, c)
    requires FreeOfDelimiter(CellText(raw.rows[headerRowIndex][c - 1], culture))
    ensures var t1 := NormalizedTable(raw, keyColumnIndex, headerRowIndex, culture);
            var res := CellDiff(t1, t2, r, c);
            && res.Ok? && res.value.Some?
            && res.value.value.ltr == Letters(c)
            && res.value.value.cCap == CellText(raw.rows[headerRowIndex][c - 1], culture)
            && res.value.value.num == Ident(IdOf(t1.rows[r]))
  {
    var t1 := NormalizedTable(raw, keyColumnIndex, headerRowIndex, culture);
    NormalizedColumns(raw, keyColumnIndex, headerRowIndex, culture);
    NormalizedRows(raw, keyColumnIndex, headerRowIndex, culture);
    var caption := CellText(raw.rows[headerRowIndex][c - 1], culture);
    assert t1.columns[c].name == "{" + Letters(c) + Delimiter + caption;
    assert |t1.rows[r]| == |t1.columns|;
    RecordOfNamedColumn(t1, t2, r, c, Letters(c), caption);
    assert t1.rows[r][0] == Ident(IdOf(t1.rows[r]));
  }
}

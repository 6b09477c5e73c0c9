/** The comparison loops of Commands.Compare: for every sheet of the first
    data set that the second one also has, and for every row and every
    double-typed column of it, a difference record is emitted when both
    workbooks hold unequal doubles there. Rows are paired by position. */
module Differ {
  import opened Common
  import opened ColumnLetters

  /** A row of the result table: sht, ltr, num, cCap, rCap, v1, v2, d, abs.
      num and rCap keep the cells they are copied from. */
  datatype Record = Record(sht: string, ltr: string, num: Cell, cCap: string, rCap: Cell,
                           v1: real, v2: real, d: real, abs: real)

  // ---- the string operations the record construction uses ----

  const Delimiter: string := "} - "

  predicate OccursAt(s: string, pat: string, i: int) {
    0 <= i && i + |pat| <= |s| && s[i..i + |pat|] == pat
  }

  /** Text in which "} - " does not occur. */
  ghost predicate FreeOfDelimiter(s: string) {
    forall i | 0 <= i :: !OccursAt(s, Delimiter, i)
  }

  /** The largest position j <= i where pat occurs, or -1. */
  function LastIndexFrom(s: string, pat: string, i: int): (r: int)
    ensures r == -1 || (r <= i && OccursAt(s, pat, r))
    ensures forall j | r < j <= i :: !OccursAt(s, pat, j)
    decreases i + 1
  {
    if i < 0 then -1 else if OccursAt(s, pat, i) then i else LastIndexFrom(s, pat, i - 1)
  }

  /** string.LastIndexOf for a non-empty pattern. */
  function LastIndexOf(s: string, pat: string): (r: int)
    ensures r == -1 || OccursAt(s, pat, r)
    ensures forall j | r < j <= |s| - |pat| :: !OccursAt(s, pat, j)
  {
    LastIndexFrom(s, pat, |s| - |pat|)
  }

  /** string.Replace: every non-overlapping occurrence, scanning left to right. */
  function ReplaceAll(s: string, pat: string, rep: string): string
    requires |pat| > 0
    decreases |s|
  {
    if |s| < |pat| then s
    else if s[..|pat|] == pat then rep + ReplaceAll(s[|pat|..], pat, rep)
    else [s[0]] + ReplaceAll(s[1..], pat, rep)
  }

  /** Lines 106-119 once a difference is found: the letters are the text
      between index 1 and the last delimiter (Substring throws when that
      delimiter is not past index 0), the caption is the name with every
      "{letters} - " removed, and row[1] throws on a row of one cell. */
  function MakeRecord(sheet: string, columnName: string, row: seq<Cell>, v1: real, v2: real): (r: Result<Record>)
    requires |row| >= 1
    ensures r.Ok? <==> LastIndexOf(columnName, Delimiter) >= 1 && |row| >= 2
    ensures r == Err(DelimiterOutOfRange) <==> LastIndexOf(columnName, Delimiter) < 1
    ensures r == Err(CellOutOfRange) <==> LastIndexOf(columnName, Delimiter) >= 1 && |row| < 2
    ensures r.Ok? ==> r.value.sht == sheet && r.value.num == row[0] && r.value.rCap == row[1]
    ensures r.Ok? ==> r.value.v1 == v1 && r.value.v2 == v2 && r.value.d == v1 - v2 && r.value.abs == Abs(v1 - v2)
  {
    var lastIndexOf := LastIndexOf(columnName, Delimiter);
    if lastIndexOf < 1 then Err(DelimiterOutOfRange)
    else
      var columnSubString := columnName[1..lastIndexOf];
      if |row| < 2 then Err(CellOutOfRange)
      else Ok(Record(sheet, columnSubString, row[0], ReplaceAll(columnName, "{" + columnSubString + Delimiter, ""),
                     row[1], v1, v2, v1 - v2, Abs(v1 - v2)))
  }

  // ---- one (row, column) pair ----

  /** The conditions of lines 100-104 up to the value comparison, before
      the row guard: the cell of table 1 is a double and table 2 has a
      column of the same name. */
  predicate Candidate(t1: Table, t2: Table, r: nat, c: nat)
    requires WellFormed(t1) && r < |t1.rows| && c < |t1.columns|
  {
    t1.rows[r][c].Num? && t1.columns[c].name in ColumnNames(t2)
  }

  /** The cell of table 2 that (row r, column c) of table 1 is compared with. */
  function Partner(t1: Table, t2: Table, r: nat, c: nat): Cell
    requires WellFormed(t1) && WellFormed(t2) && r < |t1.rows| && c < |t1.columns|
    requires Candidate(t1, t2, r, c) && r < |t2.rows|
  {
    t2.rows[r][FindName(ColumnNames(t2), t1.columns[c].name).value]
  }

  /** Every condition of lines 100-104: two doubles that differ, with no tolerance. */
  predicate Differs(t1: Table, t2: Table, r: nat, c: nat)
    requires WellFormed(t1) && WellFormed(t2) && r < |t1.rows| && c < |t1.columns|
  {
    Candidate(t1, t2, r, c) && r < |t2.rows| && Partner(t1, t2, r, c).Num?
    && t1.rows[r][c].x != Partner(t1, t2, r, c).x
  }

  /** What lines 99-122 do for one pair: nothing, a record, or an exception.
      The guard `table2.Rows.Count >= thisRowIndex` lets the row index equal
      to the row count through, and indexing that row throws. */
  function CellDiff(t1: Table, t2: Table, r: nat, c: nat): (res: Result<Option<Record>>)
    requires WellFormed(t1) && WellFormed(t2) && r < |t1.rows| && c < |t1.columns|
    ensures res.Ok? && res.value.Some? <==>
              Differs(t1, t2, r, c) && LastIndexOf(t1.columns[c].name, Delimiter) >= 1 && |t1.rows[r]| >= 2
    ensures res == Err(RowOutOfRange) <==> Candidate(t1, t2, r, c) && r == |t2.rows|
    ensures res == Err(DelimiterOutOfRange) <==> Differs(t1, t2, r, c) && LastIndexOf(t1.columns[c].name, Delimiter) < 1
    ensures res == Err(CellOutOfRange) <==>
              Differs(t1, t2, r, c) && LastIndexOf(t1.columns[c].name, Delimiter) >= 1 && |t1.rows[r]| < 2
    ensures res == Ok(None) <==> !Differs(t1, t2, r, c) && !(Candidate(t1, t2, r, c) && r == |t2.rows|)
    ensures res.Ok? && res.value.Some? ==>
              var rec := res.value.value;
              && rec.sht == t1.name && rec.num == t1.rows[r][0] && rec.rCap == t1.rows[r][1]
              && rec.v1 == t1.rows[r][c].x && rec.v2 == Partner(t1, t2, r, c).x
              && rec.v1 != rec.v2 && rec.d == rec.v1 - rec.v2 && rec.abs == Abs(rec.d)
  {
    var row := t1.rows[r];
    var name := t1.columns[c].name;
    if !row[c].Num? then Ok(None)
    else match FindName(ColumnNames(t2), name)
      case None => Ok(None)
      case Some(c2) =>
        if !(|t2.rows| >= r) then Ok(None)
        else if r == |t2.rows| then Err(RowOutOfRange)
        else if !t2.rows[r][c2].Num? || row[c].x == t2.rows[r][c2].x then Ok(None)
        else match MakeRecord(t1.name, name, row, row[c].x, t2.rows[r][c2].x)
          case Err(f) => Err(f)
          case Ok(rec) => Ok(Some(rec))
  }

  // ---- the loops as folds over prefixes ----

  /** One step of the nested loops: an exception ends the run, a record is appended. */
  function Extend(acc: Result<seq<Record>>, step: Result<Option<Record>>): Result<seq<Record>> {
    match acc
    case Err(_) => acc
    case Ok(recs) =>
      match step
      case Err(f) => Err(f)
      case Ok(None) => acc
      case Ok(Some(rec)) => Ok(recs + [rec])
  }

  predicate ColumnsOf(cols: seq<nat>, t: Table) {
    forall k | 0 <= k < |cols| :: cols[k] < |t.columns|
  }

  /** The ordinals of the double-typed columns among the first n. */
  function DoubleColumnsUpTo(columns: seq<Column>, n: nat): (r: seq<nat>)
    requires n <= |columns|
    ensures forall k | 0 <= k < |r| :: r[k] < n && columns[r[k]].isDouble
    ensures forall a, b | 0 <= a < b < |r| :: r[a] < r[b]
    ensures forall c | 0 <= c < n && columns[c].isDouble :: c in r
    decreases n
  {
    if n == 0 then [] else DoubleColumnsUpTo(columns, n - 1) + (if columns[n - 1].isDouble then [n - 1] else [])
  }

  /** Lines 84-92: the double-typed columns of table 1, in ordinal order. */
  function DoubleColumns(t: Table): (r: seq<nat>)
    ensures ColumnsOf(r, t)
    ensures forall k | 0 <= k < |r| :: t.columns[r[k]].isDouble
    ensures forall a, b | 0 <= a < b < |r| :: r[a] < r[b]
    ensures forall c | 0 <= c < |t.columns| && t.columns[c].isDouble :: c in r
  {
    DoubleColumnsUpTo(t.columns, |t.columns|)
  }

  /** The inner loop over the double columns for row r, after the first n of them. */
  function RowDiff(acc: Result<seq<Record>>, t1: Table, t2: Table, r: nat, cols: seq<nat>, n: nat): Result<seq<Record>>
    requires WellFormed(t1) && WellFormed(t2) && r < |t1.rows| && ColumnsOf(cols, t1) && n <= |cols|
    decreases n
  {
    if n == 0 then acc else Extend(RowDiff(acc, t1, t2, r, cols, n - 1), CellDiff(t1, t2, r, cols[n - 1]))
  }

  /** The loop over the rows of table 1, after the first m of them. */
  function TableDiff(acc: Result<seq<Record>>, t1: Table, t2: Table, cols: seq<nat>, m: nat): Result<seq<Record>>
    requires WellFormed(t1) && WellFormed(t2) && ColumnsOf(cols, t1) && m <= |t1.rows|
    decreases m
  {
    if m == 0 then acc else RowDiff(TableDiff(acc, t1, t2, cols, m - 1), t1, t2, m - 1, cols, |cols|)
  }

  predicate AllWellFormed(ds: seq<Table>) {
    forall k | 0 <= k < |ds| :: WellFormed(ds[k])
  }

  function TableNames(ds: seq<Table>): (names: seq<string>)
    ensures |names| == |ds| && forall k | 0 <= k < |ds| :: names[k] == ds[k].name
  {
    seq(|ds|, k requires 0 <= k < |ds| => ds[k].name)
  }

  /** Lines 79-82: a sheet is compared only with the sheet of the same name in the second data set. */
  function SheetDiff(acc: Result<seq<Record>>, t1: Table, dataSet2: seq<Table>): Result<seq<Record>>
    requires WellFormed(t1) && AllWellFormed(dataSet2)
  {
    match FindName(TableNames(dataSet2), t1.name)
    case None => acc
    case Some(j) => TableDiff(acc, t1, dataSet2[j], DoubleColumns(t1), |t1.rows|)
  }

  /** The loop over the sheets of the first data set, after the first k of them. */
  function SheetsDiff(dataSet1: seq<Table>, dataSet2: seq<Table>, k: nat): Result<seq<Record>>
    requires AllWellFormed(dataSet1) && AllWellFormed(dataSet2) && k <= |dataSet1|
    decreases k
  {
    if k == 0 then Ok([]) else SheetDiff(SheetsDiff(dataSet1, dataSet2, k - 1), dataSet1[k - 1], dataSet2)
  }

  /** The records lines 75-128 collect, in the order they are added, or the exception that ends the run. */
  function Differences(dataSet1: seq<Table>, dataSet2: seq<Table>): Result<seq<Record>>
    requires AllWellFormed(dataSet1) && AllWellFormed(dataSet2)
  {
    SheetsDiff(dataSet1, dataSet2, |dataSet1|)
  }

  // ---- an exception ends the loops ----

  lemma {:induction false} RowDiffKeepsErr(acc: Result<seq<Record>>, t1: Table, t2: Table, r: nat, cols: seq<nat>, n: nat)
    requires WellFormed(t1) && WellFormed(t2) && r < |t1.rows| && ColumnsOf(cols, t1) && n <= |cols|
    requires acc.Err?
    ensures RowDiff(acc, t1, t2, r, cols, n) == acc
    decreases n
  {
    if n > 0 {
      RowDiffKeepsErr(acc, t1, t2, r, cols, n - 1);
    }
  }

  lemma {:induction false} RowDiffErrLater(acc: Result<seq<Record>>, t1: Table, t2: Table, r: nat, cols: seq<nat>, n: nat, n': nat)
    requires WellFormed(t1) && WellFormed(t2) && r < |t1.rows| && ColumnsOf(cols, t1) && n <= n' <= |cols|
    requires RowDiff(acc, t1, t2, r, cols, n).Err?
    ensures RowDiff(acc, t1, t2, r, cols, n') == RowDiff(acc, t1, t2, r, cols, n)
    decreases n'
  {
    if n' > n {
      RowDiffErrLater(acc, t1, t2, r, cols, n, n' - 1);
    }
  }

  lemma {:induction false} TableDiffKeepsErr(acc: Result<seq<Record>>, t1: Table, t2: Table, cols: seq<nat>, m: nat)
    requires WellFormed(t1) && WellFormed(t2) && ColumnsOf(cols, t1) && m <= |t1.rows|
    requires acc.Err?
    ensures TableDiff(acc, t1, t2, cols, m) == acc
    decreases m
  {
    if m > 0 {
      TableDiffKeepsErr(acc, t1, t2, cols, m - 1);
      RowDiffKeepsErr(acc, t1, t2, m - 1, cols, |cols|);
    }
  }

  lemma {:induction false} TableDiffErrLater(acc: Result<seq<Record>>, t1: Table, t2: Table, cols: seq<nat>, m: nat, m': nat)
    requires WellFormed(t1) && WellFormed(t2) && ColumnsOf(cols, t1) && m <= m' <= |t1.rows|
    requires TableDiff(acc, t1, t2, cols, m).Err?
    ensures TableDiff(acc, t1, t2, cols, m') == TableDiff(acc, t1, t2, cols, m)
    decreases m'
  {
    if m' > m {
      TableDiffErrLater(acc, t1, t2, cols, m, m' - 1);
      RowDiffKeepsErr(TableDiff(acc, t1, t2, cols, m' - 1), t1, t2, m' - 1, cols, |cols|);
    }
  }

  lemma {:induction false} SheetsDiffErrLater(dataSet1: seq<Table>, dataSet2: seq<Table>, k: nat, k': nat)
    requires AllWellFormed(dataSet1) && AllWellFormed(dataSet2) && k <= k' <= |dataSet1|
    requires SheetsDiff(dataSet1, dataSet2, k).Err?
    ensures SheetsDiff(dataSet1, dataSet2, k') == SheetsDiff(dataSet1, dataSet2, k)
    decreases k'
  {
    if k' > k {
      SheetsDiffErrLater(dataSet1, dataSet2, k, k' - 1);
      var acc := SheetsDiff(dataSet1, dataSet2, k' - 1);
      var t1 := dataSet1[k' - 1];
      match FindName(TableNames(dataSet2), t1.name)
      case None =>
      case Some(j) => TableDiffKeepsErr(acc, t1, dataSet2[j], DoubleColumns(t1), |t1.rows|);
    }
  }

  /** An exception at column i of row `row` of sheet k is the outcome of all the loops. */
  lemma CrashEndsComparison(dataSet1: seq<Table>, dataSet2: seq<Table>, k: nat, j: nat, row: nat, i: nat, f: Failure)
    requires AllWellFormed(dataSet1) && AllWellFormed(dataSet2) && k < |dataSet1|
    requires FindName(TableNames(dataSet2), dataSet1[k].name) == Some(j)
    requires row < |dataSet1[k].rows| && i < |DoubleColumns(dataSet1[k])|
    requires var t1, t2, cols := dataSet1[k], dataSet2[j], DoubleColumns(dataSet1[k]);
             RowDiff(TableDiff(SheetsDiff(dataSet1, dataSet2, k), t1, t2, cols, row), t1, t2, row, cols, i + 1) == Err(f)
    ensures Differences(dataSet1, dataSet2) == Err(f)
  {
    var t1, t2, cols := dataSet1[k], dataSet2[j], DoubleColumns(dataSet1[k]);
    var acc := SheetsDiff(dataSet1, dataSet2, k);
    RowDiffErrLater(TableDiff(acc, t1, t2, cols, row), t1, t2, row, cols, i + 1, |cols|);
    TableDiffErrLater(acc, t1, t2, cols, row + 1, |t1.rows|);
    SheetsDiffErrLater(dataSet1, dataSet2, k + 1, |dataSet1|);
  }

  // ---- the loops as the source writes them ----

  /** The foreach over table1.Columns collecting the double-typed ones. */
  method CollectDoubleColumns(table1: Table) returns (doubleColumns: seq<nat>)
    ensures doubleColumns == DoubleColumns(table1)
  {
    doubleColumns := [];
    for column := 0 to |table1.columns|
      invariant doubleColumns == DoubleColumnsUpTo(table1.columns, column)
    {
      if table1.columns[column].isDouble {
        doubleColumns := doubleColumns + [column];
      }
    }
  }

  /** Lines 99-122 for one row and one double column: the guards, the
      read of table 2's cell and the record, or the exception. */
  method CompareCell(table1: Table, table2: Table, thisRowIndex: nat, column: nat) returns (step: Result<Option<Record>>)
    requires WellFormed(table1) && WellFormed(table2) && thisRowIndex < |table1.rows| && column < |table1.columns|
    ensures step == CellDiff(table1, table2, thisRowIndex, column)
  {
    var row := table1.rows[thisRowIndex];
    var columnName := table1.columns[column].name;
    var column2 := FindName(ColumnNames(table2), columnName);
    step := Ok(None);
    if row[column].Num? && column2.Some? && |table2.rows| >= thisRowIndex {
      if thisRowIndex == |table2.rows| {
        return Err(RowOutOfRange);
      }
      var cell2 := table2.rows[thisRowIndex][column2.value];
      if cell2.Num? && row[column].x != cell2.x {
        var finalDataTableRow := MakeRecord(table1.name, columnName, row, row[column].x, cell2.x);
        if finalDataTableRow.Err? {
          return Err(finalDataTableRow.failure);
        }
        step := Ok(Some(finalDataTableRow.value));
      }
    }
  }

  /** Lines 95-124 for one pair of sheets: the loop over the rows of table 1
      and, inside it, over its double columns; records are appended to
      finalRows and counted, and an exception returns at once. */
  method CompareRows(table1: Table, table2: Table, doubleColumns: seq<nat>, finalRows: seq<Record>, counter: nat)
    returns (r: Result<seq<Record>>, counter': nat)
    requires WellFormed(table1) && WellFormed(table2) && ColumnsOf(doubleColumns, table1)
    requires counter == |finalRows|
    ensures r == TableDiff(Ok(finalRows), table1, table2, doubleColumns, |table1.rows|)
    ensures r.Ok? ==> counter' == |r.value|
  {
    var rows := finalRows;
    counter' := counter;
    for thisRowIndex := 0 to |table1.rows|
      invariant TableDiff(Ok(finalRows), table1, table2, doubleColumns, thisRowIndex) == Ok(rows)
      invariant counter' == |rows|
    {
      ghost var atRow := TableDiff(Ok(finalRows), table1, table2, doubleColumns, thisRowIndex);
      for i := 0 to |doubleColumns|
        invariant RowDiff(atRow, table1, table2, thisRowIndex, doubleColumns, i) == Ok(rows)
        invariant counter' == |rows|
      {
        var step := CompareCell(table1, table2, thisRowIndex, doubleColumns[i]);
        if step.Err? {
          RowDiffErrLater(atRow, table1, table2, thisRowIndex, doubleColumns, i + 1, |doubleColumns|);
          TableDiffErrLater(Ok(finalRows), table1, table2, doubleColumns, thisRowIndex + 1, |table1.rows|);
          return Err(step.failure), counter';
        }
        if step.value.Some? {
          rows := rows + [step.value.value];
          counter' := counter' + 1;
        }
      }
    }
    r := Ok(rows);
  }

  /** Lines 75-128: the records in the order the nested loops add them,
      with `counter` incremented once per record; an exception returns at once. */
  method CompareSheets(dataSet1: seq<Table>, dataSet2: seq<Table>) returns (r: Result<seq<Record>>, counter: nat)
    requires AllWellFormed(dataSet1) && AllWellFormed(dataSet2)
    ensures r == Differences(dataSet1, dataSet2)
    ensures r.Ok? ==> counter == |r.value|
  {
    var finalRows: seq<Record> := [];
    counter := 0;
    for k := 0 to |dataSet1|
      invariant SheetsDiff(dataSet1, dataSet2, k) == Ok(finalRows)
      invariant counter == |finalRows|
    {
      var table1 := dataSet1[k];
      var found := FindName(TableNames(dataSet2), table1.name);
      if found.Some? {
        var table2 := dataSet2[found.value];
        var doubleColumns := CollectDoubleColumns(table1);
        var sheet;
        sheet, counter := CompareRows(table1, table2, doubleColumns, finalRows, counter);
        if sheet.Err? {
          SheetsDiffErrLater(dataSet1, dataSet2, k + 1, |dataSet1|);
          return sheet, counter;
        }
        finalRows := sheet.value;
      }
    }
    r := Ok(finalRows);
  }

  // ---- what the records say ----

  /** What every record states: the values differ, d is their difference and abs its magnitude. */
  predicate Sound(rec: Record) {
    rec.v1 != rec.v2 && rec.d == rec.v1 - rec.v2 && rec.abs == Abs(rec.d) && rec.abs > 0.0
  }

  /** Records that are sound and come from a sheet named in both data sets. */
  predicate AllFromShared(recs: seq<Record>, names1: seq<string>, names2: seq<string>) {
    forall k | 0 <= k < |recs| :: Sound(recs[k]) && recs[k].sht in names1 && recs[k].sht in names2
  }

  lemma {:induction false} RowDiffFromShared(acc: Result<seq<Record>>, t1: Table, t2: Table, r: nat, cols: seq<nat>, n: nat,
                                             names1: seq<string>, names2: seq<string>)
    requires WellFormed(t1) && WellFormed(t2) && r < |t1.rows| && ColumnsOf(cols, t1) && n <= |cols|
    requires t1.name in names1 && t1.name in names2
    requires acc.Ok? ==> AllFromShared(acc.value, names1, names2)
    ensures var res := RowDiff(acc, t1, t2, r, cols, n); res.Ok? ==> AllFromShared(res.value, names1, names2)
    decreases n
  {
    if n > 0 {
      RowDiffFromShared(acc, t1, t2, r, cols, n - 1, names1, names2);
    }
  }

  lemma {:induction false} TableDiffFromShared(acc: Result<seq<Record>>, t1: Table, t2: Table, cols: seq<nat>, m: nat,
                                               names1: seq<string>, names2: seq<string>)
    requires WellFormed(t1) && WellFormed(t2) && ColumnsOf(cols, t1) && m <= |t1.rows|
    requires t1.name in names1 && t1.name in names2
    requires acc.Ok? ==> AllFromShared(acc.value, names1, names2)
    ensures var res := TableDiff(acc, t1, t2, cols, m); res.Ok? ==> AllFromShared(res.value, names1, names2)
    decreases m
  {
    if m > 0 {
      TableDiffFromShared(acc, t1, t2, cols, m - 1, names1, names2);
      RowDiffFromShared(TableDiff(acc, t1, t2, cols, m - 1), t1, t2, m - 1, cols, |cols|, names1, names2);
    }
  }

  lemma {:induction false} SheetsDiffFromShared(dataSet1: seq<Table>, dataSet2: seq<Table>, k: nat)
    requires AllWellFormed(dataSet1) && AllWellFormed(dataSet2) && k <= |dataSet1|
    ensures var res := SheetsDiff(dataSet1, dataSet2, k);
            res.Ok? ==> AllFromShared(res.value, TableNames(dataSet1), TableNames(dataSet2))
    decreases k
  {
    if k > 0 {
      SheetsDiffFromShared(dataSet1, dataSet2, k - 1);
      var t1 := dataSet1[k - 1];
      assert TableNames(dataSet1)[k - 1] == t1.name;
      match FindName(TableNames(dataSet2), t1.name)
      case None =>
      case Some(j) =>
        TableDiffFromShared(SheetsDiff(dataSet1, dataSet2, k - 1), t1, dataSet2[j], DoubleColumns(t1), |t1.rows|,
                            TableNames(dataSet1), TableNames(dataSet2));
    }
  }

  /** Every collected record has unequal values, d = v1 - v2 and abs = |d| > 0,
      and names a sheet that both data sets have: sheets only in the second
      data set produce nothing. */
  lemma DifferencesSound(dataSet1: seq<Table>, dataSet2: seq<Table>)
    requires AllWellFormed(dataSet1) && AllWellFormed(dataSet2)
    ensures var res := Differences(dataSet1, dataSet2);
            res.Ok? ==> AllFromShared(res.value, TableNames(dataSet1), TableNames(dataSet2))
  {
    SheetsDiffFromShared(dataSet1, dataSet2, |dataSet1|);
  }

  // ---- which records are collected ----

  /** An Ok step of the loops keeps the records so far and adds at most the step's record. */
  lemma ExtendMember(acc: Result<seq<Record>>, step: Result<Option<Record>>, rec: Record)
    requires Extend(acc, step).Ok?
    ensures acc.Ok? && step.Ok?
    ensures rec in Extend(acc, step).value <==> rec in acc.value || step == Ok(Some(rec))
  {
    if step == Ok(Some(rec)) {
      assert rec in acc.value + [rec];
    }
  }

  /** rec is the record of one of the first n double columns of row r. */
  ghost predicate InRow(t1: Table, t2: Table, r: nat, cols: seq<nat>, n: nat, rec: Record)
    requires WellFormed(t1) && WellFormed(t2) && r < |t1.rows| && ColumnsOf(cols, t1) && n <= |cols|
  {
    exists i | 0 <= i < n :: CellDiff(t1, t2, r, cols[i]) == Ok(Some(rec))
  }

  lemma InRowStep(t1: Table, t2: Table, r: nat, cols: seq<nat>, n: nat, rec: Record)
    requires WellFormed(t1) && WellFormed(t2) && r < |t1.rows| && ColumnsOf(cols, t1) && 0 < n <= |cols|
    ensures InRow(t1, t2, r, cols, n, rec) <==>
              InRow(t1, t2, r, cols, n - 1, rec) || CellDiff(t1, t2, r, cols[n - 1]) == Ok(Some(rec))
  {
    if InRow(t1, t2, r, cols, n, rec) {
      var i :| 0 <= i < n && CellDiff(t1, t2, r, cols[i]) == Ok(Some(rec));
      if i < n - 1 {
        assert InRow(t1, t2, r, cols, n - 1, rec);
      }
    }
  }

  /** The inner loop over the double columns of row r: a finished run holds
      the records it started with and exactly the records of the pairs it visited. */
  lemma {:induction false} RowDiffMember(acc: Result<seq<Record>>, t1: Table, t2: Table, r: nat, cols: seq<nat>, n: nat,
                                         rec: Record)
    requires WellFormed(t1) && WellFormed(t2) && r < |t1.rows| && ColumnsOf(cols, t1) && n <= |cols|
    requires RowDiff(acc, t1, t2, r, cols, n).Ok?
    ensures acc.Ok?
    ensures rec in RowDiff(acc, t1, t2, r, cols, n).value <==> rec in acc.value || InRow(t1, t2, r, cols, n, rec)
    decreases n
  {
    if n > 0 {
      ExtendMember(RowDiff(acc, t1, t2, r, cols, n - 1), CellDiff(t1, t2, r, cols[n - 1]), rec);
      RowDiffMember(acc, t1, t2, r, cols, n - 1, rec);
      InRowStep(t1, t2, r, cols, n, rec);
    }
  }

  /** rec is the record of one of the double columns of one of the first m rows. */
  ghost predicate InTable(t1: Table, t2: Table, cols: seq<nat>, m: nat, rec: Record)
    requires WellFormed(t1) && WellFormed(t2) && ColumnsOf(cols, t1) && m <= |t1.rows|
  {
    exists row | 0 <= row < m :: InRow(t1, t2, row, cols, |cols|, rec)
  }

  lemma InTableStep(t1: Table, t2: Table, cols: seq<nat>, m: nat, rec: Record)
    requires WellFormed(t1) && WellFormed(t2) && ColumnsOf(cols, t1) && 0 < m <= |t1.rows|
    ensures InTable(t1, t2, cols, m, rec) <==>
              InTable(t1, t2, cols, m - 1, rec) || InRow(t1, t2, m - 1, cols, |cols|, rec)
  {
    if InTable(t1, t2, cols, m, rec) {
      var row :| 0 <= row < m && InRow(t1, t2, row, cols, |cols|, rec);
      if row < m - 1 {
        assert InTable(t1, t2, cols, m - 1, rec);
      }
    }
  }

  /** The loop over the rows of table 1: a finished run holds exactly the
      records of the (row, double column) pairs it visited, after those it started with. */
  lemma {:induction false} TableDiffMember(acc: Result<seq<Record>>, t1: Table, t2: Table, cols: seq<nat>, m: nat,
                                           rec: Record)
    requires WellFormed(t1) && WellFormed(t2) && ColumnsOf(cols, t1) && m <= |t1.rows|
    requires TableDiff(acc, t1, t2, cols, m).Ok?
    ensures acc.Ok?
    ensures rec in TableDiff(acc, t1, t2, cols, m).value <==> rec in acc.value || InTable(t1, t2, cols, m, rec)
    decreases m
  {
    if m > 0 {
      RowDiffMember(TableDiff(acc, t1, t2, cols, m - 1), t1, t2, m - 1, cols, |cols|, rec);
      TableDiffMember(acc, t1, t2, cols, m - 1, rec);
      InTableStep(t1, t2, cols, m, rec);
    }
  }

  /** rec is the record of some visited pair: a sheet among the first k of
      data set 1, its namesake in data set 2, a row and a double column. */
  ghost predicate FoundAmong(dataSet1: seq<Table>, dataSet2: seq<Table>, k: nat, rec: Record)
    requires AllWellFormed(dataSet1) && AllWellFormed(dataSet2) && k <= |dataSet1|
  {
    exists s | 0 <= s < k :: InSheet(dataSet1[s], dataSet2, rec)
  }

  /** rec is the record of a pair of sheet t1 and its namesake in data set 2. */
  ghost predicate InSheet(t1: Table, dataSet2: seq<Table>, rec: Record)
    requires WellFormed(t1) && AllWellFormed(dataSet2)
  {
    match FindName(TableNames(dataSet2), t1.name)
    case None => false
    case Some(j) => InTable(t1, dataSet2[j], DoubleColumns(t1), |t1.rows|, rec)
  }

  lemma FoundAmongStep(dataSet1: seq<Table>, dataSet2: seq<Table>, k: nat, rec: Record)
    requires AllWellFormed(dataSet1) && AllWellFormed(dataSet2) && 0 < k <= |dataSet1|
    ensures FoundAmong(dataSet1, dataSet2, k, rec) <==>
              FoundAmong(dataSet1, dataSet2, k - 1, rec) || InSheet(dataSet1[k - 1], dataSet2, rec)
  {
    if FoundAmong(dataSet1, dataSet2, k, rec) {
      var s :| 0 <= s < k && InSheet(dataSet1[s], dataSet2, rec);
      if s < k - 1 {
        assert FoundAmong(dataSet1, dataSet2, k - 1, rec);
      }
    }
  }

  lemma {:induction false} SheetsDiffMember(dataSet1: seq<Table>, dataSet2: seq<Table>, k: nat, rec: Record)
    requires AllWellFormed(dataSet1) && AllWellFormed(dataSet2) && k <= |dataSet1|
    requires SheetsDiff(dataSet1, dataSet2, k).Ok?
    ensures rec in SheetsDiff(dataSet1, dataSet2, k).value <==> FoundAmong(dataSet1, dataSet2, k, rec)
    decreases k
  {
    if k > 0 {
      var t1 := dataSet1[k - 1];
      FoundAmongStep(dataSet1, dataSet2, k, rec);
      match FindName(TableNames(dataSet2), t1.name)
      case None =>
        SheetsDiffMember(dataSet1, dataSet2, k - 1, rec);
      case Some(j) =>
        TableDiffMember(SheetsDiff(dataSet1, dataSet2, k - 1), t1, dataSet2[j], DoubleColumns(t1), |t1.rows|, rec);
        SheetsDiffMember(dataSet1, dataSet2, k - 1, rec);
    }
  }

  /** The records the comparison collects are exactly the records of the
      differing pairs: every one comes from a sheet with a namesake, a row
      and a double column of it, and no such pair's record is left out. */
  lemma DifferencesComplete(dataSet1: seq<Table>, dataSet2: seq<Table>, rec: Record)
    requires AllWellFormed(dataSet1) && AllWellFormed(dataSet2)
    requires Differences(dataSet1, dataSet2).Ok?
    ensures rec in Differences(dataSet1, dataSet2).value <==> FoundAmong(dataSet1, dataSet2, |dataSet1|, rec)
  {
    SheetsDiffMember(dataSet1, dataSet2, |dataSet1|, rec);
  }

  /** A sheet without a namesake in the second data set adds nothing. */
  lemma UnsharedSheetAddsNothing(acc: Result<seq<Record>>, t1: Table, dataSet2: seq<Table>)
    requires WellFormed(t1) && AllWellFormed(dataSet2)
    requires t1.name !in TableNames(dataSet2)
    ensures SheetDiff(acc, t1, dataSet2) == acc
  {
  }

  /** The off-by-one guard: when table 2 has exactly r rows and row r of
      table 1 holds a double in a column that table 2 also has, comparing
      that pair throws, and a sheet with such a pair ends the run with an
      exception. */
  lemma {:induction false} OffByOneRowGuardCrashes(acc: Result<seq<Record>>, t1: Table, t2: Table, cols: seq<nat>, i: nat)
    requires WellFormed(t1) && WellFormed(t2) && ColumnsOf(cols, t1)
    requires |t2.rows| < |t1.rows| && i < |cols| && Candidate(t1, t2, |t2.rows|, cols[i])
    ensures TableDiff(acc, t1, t2, cols, |t1.rows|).Err?
  {
    var r := |t2.rows|;
    assert CellDiff(t1, t2, r, cols[i]) == Err(RowOutOfRange);
    var before := TableDiff(acc, t1, t2, cols, r);
    if RowDiff(before, t1, t2, r, cols, i).Err? {
      RowDiffErrLater(before, t1, t2, r, cols, i, |cols|);
    } else {
      assert RowDiff(before, t1, t2, r, cols, i + 1) == Err(RowOutOfRange);
      RowDiffErrLater(before, t1, t2, r, cols, i + 1, |cols|);
    }
    TableDiffErrLater(acc, t1, t2, cols, r + 1, |t1.rows|);
  }

  // ---- splitting a normalized column name ----

  lemma {:induction false} ReplaceAbsent(s: string, pat: string, rep: string)
    requires |pat| > 0
    requires forall i | 0 <= i :: !OccursAt(s, pat, i)
    ensures ReplaceAll(s, pat, rep) == s
    decreases |s|
  {
    if |s| >= |pat| {
      assert !OccursAt(s, pat, 0);
      assert s[..|pat|] == s[0..0 + |pat|];
      forall i | 0 <= i
        ensures !OccursAt(s[1..], pat, i)
      {
        assert !OccursAt(s, pat, i + 1);
        if i + |pat| <= |s[1..]| {
          assert s[1..][i..i + |pat|] == s[i + 1..i + 1 + |pat|];
        }
      }
      ReplaceAbsent(s[1..], pat, rep);
    }
  }

  /** The last "} - " of "{letters} - caption" is the one after the letters. */
  lemma LastDelimiterOfName(letters: string, caption: string)
    requires AllUpperLetters(letters)
    requires FreeOfDelimiter(caption)
    ensures LastIndexOf("{" + letters + Delimiter + caption, Delimiter) == |letters| + 1
  {
    var prefix := "{" + letters + Delimiter;
    var name := prefix + caption;
    var p := |letters| + 1;
    assert name[p..p + 4] == Delimiter;
    forall j | p < j <= |name| - 4
      ensures !OccursAt(name, Delimiter, j)
    {
      if j >= |prefix| {
        assert name[j..j + 4] == caption[j - |prefix|..j - |prefix| + 4];
        assert !OccursAt(caption, Delimiter, j - |prefix|);
      } else {
        assert name[j..j + 4][0] == prefix[j];
      }
    }
    LastIndexFromFinds(name, Delimiter, |name| - 4, p);
  }

  /** Removing every "{letters} - " from "{letters} - caption" leaves the caption. */
  lemma ReplacePrefixOfName(letters: string, caption: string)
    requires FreeOfDelimiter(caption)
    ensures ReplaceAll("{" + letters + Delimiter + caption, "{" + letters + Delimiter, "") == caption
  {
    var prefix := "{" + letters + Delimiter;
    var p := |letters| + 1;
    forall i | 0 <= i
      ensures !OccursAt(caption, prefix, i)
    {
      if OccursAt(caption, prefix, i) {
        assert caption[i + p..i + p + 4] == caption[i..i + |prefix|][p..p + 4];
        assert OccursAt(caption, Delimiter, i + p);
      }
    }
    var name := prefix + caption;
    assert name[..|prefix|] == prefix;
    assert name[|prefix|..] == caption;
    ReplaceAbsent(caption, prefix, "");
  }

  /** A difference in a column named "{letters} - caption" gives a record
      carrying those letters and that caption. */
  lemma RecordOfNamedColumn(t1: Table, t2: Table, r: nat, c: nat, letters: string, caption: string)
    requires WellFormed(t1) && WellFormed(t2) && r < |t1.rows| && c < |t1.columns|
    requires Differs(t1, t2, r, c) && |t1.rows[r]| >= 2
    requires |letters| >= 1 && AllUpperLetters(letters) && FreeOfDelimiter(caption)
    requires t1.columns[c].name == "{" + letters + Delimiter + caption
    ensures var res := CellDiff(t1, t2, r, c);
            && res.Ok? && res.value.Some?
            && res.value.value.ltr == letters && res.value.value.cCap == caption
            && res.value.value.num == t1.rows[r][0]
  {
    SplitColumnName(letters, caption);
  }

  /** With a caption free of "} - ", the record's letters and caption are
      the letters and caption the column was named with. */
  lemma SplitColumnName(letters: string, caption: string)
    requires |letters| >= 1 && AllUpperLetters(letters)
    requires FreeOfDelimiter(caption)
    ensures var name := "{" + letters + Delimiter + caption;
            var l := LastIndexOf(name, Delimiter);
            && l == |letters| + 1
            && name[1..l] == letters
            && ReplaceAll(name, "{" + name[1..l] + Delimiter, "") == caption
  {
    LastDelimiterOfName(letters, caption);
    var name := "{" + letters + Delimiter + caption;
    assert name[1..|letters| + 1] == letters;
    ReplacePrefixOfName(letters, caption);
  }

  lemma {:induction false} LastIndexFromFinds(s: string, pat: string, i: int, p: int)
    requires 0 <= p <= i && OccursAt(s, pat, p)
    requires forall j | p < j <= i :: !OccursAt(s, pat, j)
    ensures LastIndexFrom(s, pat, i) == p
    decreases i
  {
    if i > p {
      LastIndexFromFinds(s, pat, i - 1, p);
    }
  }
}

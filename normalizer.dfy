/** Sheet normalization in Helpers.GetDataSet: with the key column and the
    header row resolved, the DataTable is changed in place in four passes
    (rename the columns, insert the identifier column, delete rows, coerce
    cells to doubles) and then cloned with double-typed columns. */
module Normalizer {
  import opened Common
  import opened ColumnLetters

  const UniqueIdentifierName: string := "UNIQUE_IDENTIFIER"

  /** The name GetDataSet gives the column at zero-based `ordinal`. */
  function ColumnName(ordinal: nat, caption: string): string {
    "{" + Letters(ordinal + 1) + "} - " + caption
  }

  /** Every column renamed after its letters and the header row's caption. */
  function CaptionedNames(header: seq<Cell>, culture: Culture): (names: seq<string>)
    ensures |names| == |header|
  {
    seq(|header|, k requires 0 <= k < |header| => ColumnName(k, CellText(header[k], culture)))
  }

  /** The rows after the identifier column is inserted: row i holds i + 1 in front. */
  function Numbered(rows: seq<seq<Cell>>): (r: seq<seq<Cell>>)
    ensures |r| == |rows|
  {
    seq(|rows|, i requires 0 <= i < |rows| => [Ident(i + 1)] + rows[i])
  }

  /** The pruning test on one cell: the text "null" in any case (not DBNull),
      or text that parses as a double. DBNull prints as "". */
  predicate CellAcceptable(c: Cell, culture: Culture) {
    (c != DBNull && Lower(CellText(c, culture)) == "null") || culture.parse(CellText(c, culture)).Some?
  }

  /** The first ordinal, from `from` on, that the pruning loop examines: it skips the key column only. */
  function FirstExamined(row: seq<Cell>, keyColumnIndex: int, from: nat): (r: Option<nat>)
    ensures r.Some? ==> from <= r.value < |row| && r.value != keyColumnIndex
    decreases |row| - from
  {
    if from >= |row| then None
    else if from == keyColumnIndex then FirstExamined(row, keyColumnIndex, from + 1)
    else Some(from)
  }

  /** A row survives when the first examined cell passes the test, or when no cell is examined. */
  predicate KeepRow(row: seq<Cell>, keyColumnIndex: int, culture: Culture) {
    match FirstExamined(row, keyColumnIndex, 1)
    case None => true
    case Some(i) => CellAcceptable(row[i], culture)
  }

  /** The rows that the pruning pass keeps, in their order. */
  function Pruned(rows: seq<seq<Cell>>, keyColumnIndex: int, culture: Culture): (r: seq<seq<Cell>>)
    ensures |r| <= |rows|
    ensures forall p | 0 <= p < |r| :: KeepRow(r[p], keyColumnIndex, culture)
    decreases |rows|
  {
    if rows == [] then []
    else
      var last := rows[|rows| - 1];
      Pruned(rows[..|rows| - 1], keyColumnIndex, culture) + (if KeepRow(last, keyColumnIndex, culture) then [last] else [])
  }

  /** The value the coercion pass assigns: the parsed double, or 0.0. */
  function ParseOrZero(c: Cell, culture: Culture): real {
    if c != DBNull && culture.parse(CellText(c, culture)).Some? then culture.parse(CellText(c, culture)).value else 0.0
  }

  /** One row after coercion: every ordinal but 0 and the key column holds a double. */
  function CoercedRow(row: seq<Cell>, keyColumnIndex: int, culture: Culture): (r: seq<Cell>)
    ensures |r| == |row|
    ensures forall i | 0 <= i < |r| :: (i == 0 || i == keyColumnIndex) ==> r[i] == row[i]
    ensures forall i | 1 <= i < |r| && i != keyColumnIndex :: r[i].Num?
  {
    seq(|row|, i requires 0 <= i < |row| =>
      if i >= 1 && i != keyColumnIndex then Num(ParseOrZero(row[i], culture)) else row[i])
  }

  function Coerced(rows: seq<seq<Cell>>, keyColumnIndex: int, culture: Culture): (r: seq<seq<Cell>>)
    ensures |r| == |rows|
  {
    seq(|rows|, j requires 0 <= j < |rows| => CoercedRow(rows[j], keyColumnIndex, culture))
  }

  /** The clone's schema: every ordinal from 2 on is typed double. */
  function TypedColumns(names: seq<string>): (cols: seq<Column>)
    ensures |cols| == |names|
  {
    seq(|names|, i requires 0 <= i < |names| => Column(names[i], i >= 2))
  }

  /** Reference composition of the passes: the table GetDataSet adds for one sheet. */
  function NormalizedTable(raw: RawTable, keyColumnIndex: int, headerRowIndex: nat, culture: Culture): Table
    requires headerRowIndex < |raw.rows|
  {
    Table(raw.name,
          TypedColumns([UniqueIdentifierName] + CaptionedNames(raw.rows[headerRowIndex], culture)),
          Coerced(Pruned(Numbered(raw.rows), keyColumnIndex, culture), keyColumnIndex, culture))
  }

  /** The DataTable of one sheet while GetDataSet works on it. */
  class Sheet {
    var name: string
    var columnNames: seq<string>
    var rows: seq<seq<Cell>>

    ghost predicate Valid()
      reads this
    {
      forall r | 0 <= r < |rows| :: |rows[r]| == |columnNames|
    }

    /** The table as the decoder delivers it, with columns named Column0, Column1, ... */
    constructor (raw: RawTable)
      requires RawWellFormed(raw)
      ensures Valid() && name == raw.name && rows == raw.rows && |columnNames| == raw.width
    {
      name := raw.name;
      columnNames := seq(raw.width, i requires 0 <= i < raw.width => "Column" + IntToString(i));
      rows := raw.rows;
    }

    /** The clone with every ordinal from 2 on typed double. */
    function Snapshot(): Table
      reads this
    {
      Table(name, TypedColumns(columnNames), rows)
    }

    /** Lines 185-190: rename every column to "{letters} - caption". */
    method RenameColumns(headerRowIndex: nat, culture: Culture)
      requires Valid() && headerRowIndex < |rows|
      modifies this
      ensures Valid() && columnNames == CaptionedNames(old(rows)[headerRowIndex], culture)
      ensures rows == old(rows) && name == old(name)
    {
      var headerRowCopy := rows[headerRowIndex];
      ghost var captioned := CaptionedNames(headerRowCopy, culture);
      for ordinal := 0 to |columnNames|
        invariant |columnNames| == |headerRowCopy| && rows == old(rows) && name == old(name)
        invariant Valid()
        invariant forall k | 0 <= k < ordinal :: columnNames[k] == captioned[k]
      {
        var letters := GetExcelColumnLetters(ordinal + 1);
        var caption := CellText(headerRowCopy[ordinal], culture);
        var columnName := "{" + letters + "} - " + caption;
        assert columnName == ColumnName(ordinal, caption);
        assert captioned[ordinal] == ColumnName(ordinal, caption);
        columnNames := columnNames[ordinal := columnName];
      }
      assert columnNames == captioned;
    }

    /** Lines 192-198: add the integer identifier column at ordinal 0 (every
        row starts with DBNull there) and number the rows from 1. */
    method AddIdentifierColumn()
      requires Valid()
      modifies this
      ensures Valid() && columnNames == [UniqueIdentifierName] + old(columnNames)
      ensures rows == Numbered(old(rows)) && name == old(name)
    {
      columnNames := [UniqueIdentifierName] + columnNames;
      var current := rows;
      rows := seq(|current|, i requires 0 <= i < |current| => [DBNull] + current[i]);
      for i := 0 to |rows|
        invariant |rows| == |old(rows)| && name == old(name)
        invariant columnNames == [UniqueIdentifierName] + old(columnNames)
        invariant forall j | 0 <= j < i :: rows[j] == Numbered(old(rows))[j]
        invariant forall j | i <= j < |rows| :: rows[j] == [DBNull] + old(rows)[j]
      {
        assert rows[i][0 := Ident(i + 1)] == [Ident(i + 1)] + old(rows)[i];
        rows := rows[i := rows[i][0 := Ident(i + 1)]];
      }
    }

    /** Lines 200-218: examine each row from ordinal 1, skipping the key
        column; the first examined cell decides, then the loop breaks.
        Deleted rows go away at AcceptChanges. */
    method PruneRows(keyColumnIndex: int, culture: Culture)
      requires Valid()
      modifies this
      ensures Valid() && rows == Pruned(old(rows), keyColumnIndex, culture)
      ensures columnNames == old(columnNames) && name == old(name)
    {
      var kept: seq<seq<Cell>> := [];
      for r := 0 to |rows|
        invariant kept == Pruned(rows[..r], keyColumnIndex, culture)
        invariant forall j | 0 <= j < |kept| :: |kept[j]| == |columnNames|
      {
        var dataRow := rows[r];
        var delete := false;
        var i := 1;
        while i < |dataRow|
          invariant 1 <= i && !delete
          invariant FirstExamined(dataRow, keyColumnIndex, 1) == FirstExamined(dataRow, keyColumnIndex, i)
          decreases |dataRow| - i
        {
          var currentValue := dataRow[i];
          if i == keyColumnIndex {
            i := i + 1;
            continue;
          }
          if !CellAcceptable(currentValue, culture) {
            delete := true;
          }
          assert delete == !KeepRow(dataRow, keyColumnIndex, culture);
          break;
        }
        assert delete == !KeepRow(dataRow, keyColumnIndex, culture);
        assert rows[..r + 1][..r] == rows[..r];
        if !delete {
          kept := kept + [dataRow];
        }
      }
      assert rows[..|rows|] == rows;
      rows := kept;
    }

    /** Lines 220-240: every ordinal from 1 on except the key column gets the
        parsed double, or 0.0 when parsing fails. */
    method CoerceCells(keyColumnIndex: int, culture: Culture)
      requires Valid()
      modifies this
      ensures Valid() && rows == Coerced(old(rows), keyColumnIndex, culture)
      ensures columnNames == old(columnNames) && name == old(name)
    {
      for r := 0 to |rows|
        invariant |rows| == |old(rows)| && columnNames == old(columnNames) && name == old(name)
        invariant forall j | 0 <= j < r :: rows[j] == CoercedRow(old(rows)[j], keyColumnIndex, culture)
        invariant forall j | r <= j < |rows| :: rows[j] == old(rows)[j]
      {
        ghost var original := rows[r];
        var i := 1;
        while i < |rows[r]|
          invariant 1 <= i && |rows| == |old(rows)| && |rows[r]| == |original|
          invariant columnNames == old(columnNames) && name == old(name)
          invariant forall j | 0 <= j < r :: rows[j] == CoercedRow(old(rows)[j], keyColumnIndex, culture)
          invariant forall j | r < j < |rows| :: rows[j] == old(rows)[j]
          invariant forall k | 0 <= k < |original| ::
            rows[r][k] == if k < i then CoercedRow(original, keyColumnIndex, culture)[k] else original[k]
          decreases |rows[r]| - i
        {
          var currentValue := rows[r][i];
          if i == keyColumnIndex {
            i := i + 1;
            continue;
          }
          var valueToAssign := 0.0;
          var stringValue := CellText(currentValue, culture);
          if currentValue != DBNull && culture.parse(stringValue).Some? {
            valueToAssign := culture.parse(stringValue).value;
          }
          rows := rows[r := rows[r][i := Num(valueToAssign)]];
          i := i + 1;
        }
        assert rows[r] == CoercedRow(original, keyColumnIndex, culture);
      }
    }

    /** Lines 185-254 for one sheet: the four passes in order. */
    method Normalize(keyColumnIndex: int, headerRowIndex: nat, culture: Culture)
      requires Valid() && headerRowIndex < |rows|
      modifies this
      ensures Valid()
      ensures Snapshot() == NormalizedTable(RawTable(old(name), old(|columnNames|), old(rows)), keyColumnIndex, headerRowIndex, culture)
    {
      RenameColumns(headerRowIndex, culture);
      AddIdentifierColumn();
      PruneRows(keyColumnIndex, culture);
      CoerceCells(keyColumnIndex, culture);
    }
  }

  // ---- properties of the passes ----

  /** Only ordinal 1 is examined, or ordinal 2 when the key column is 1. */
  lemma KeepRowExaminesOneCell(row: seq<Cell>, keyColumnIndex: int, culture: Culture)
    ensures var i := if keyColumnIndex == 1 then 2 else 1;
            KeepRow(row, keyColumnIndex, culture) <==> (i >= |row| || CellAcceptable(row[i], culture))
  {
    if keyColumnIndex == 1 && |row| > 1 {
      assert FirstExamined(row, keyColumnIndex, 1) == FirstExamined(row, keyColumnIndex, 2);
    }
  }

  /** Rows that carry their 1-based position in cell 0. */
  predicate IdsFromOne(s: seq<seq<Cell>>) {
    forall j | 0 <= j < |s| :: |s[j]| >= 1 && s[j][0] == Ident(j + 1)
  }

  function IdOf(row: seq<Cell>): int {
    if |row| >= 1 && row[0].Ident? then row[0].n else 0
  }

  /** Every row of p is the row of s that its identifier names. */
  predicate RowsNamedById(p: seq<seq<Cell>>, s: seq<seq<Cell>>) {
    forall a | 0 <= a < |p| :: 1 <= IdOf(p[a]) <= |s| && p[a] == s[IdOf(p[a]) - 1]
  }

  predicate IdsIncreasing(p: seq<seq<Cell>>) {
    forall a, b | 0 <= a < b < |p| :: IdOf(p[a]) < IdOf(p[b])
  }

  predicate HasId(p: seq<seq<Cell>>, id: int) {
    exists a | 0 <= a < |p| :: IdOf(p[a]) == id
  }

  lemma PrunedStep(s: seq<seq<Cell>>, keyColumnIndex: int, culture: Culture)
    requires s != []
    ensures Pruned(s, keyColumnIndex, culture)
         == Pruned(s[..|s| - 1], keyColumnIndex, culture)
          + (if KeepRow(s[|s| - 1], keyColumnIndex, culture) then [s[|s| - 1]] else [])
  {
  }

  /** Pruning numbered rows keeps each row together with its identifier. */
  lemma {:induction false} PrunedRowsNamedById(s: seq<seq<Cell>>, keyColumnIndex: int, culture: Culture)
    requires IdsFromOne(s)
    ensures RowsNamedById(Pruned(s, keyColumnIndex, culture), s)
    decreases |s|
  {
    if s != [] {
      var n := |s|;
      var init := s[..n - 1];
      PrunedRowsNamedById(init, keyColumnIndex, culture);
      var p0 := Pruned(init, keyColumnIndex, culture);
      var p := Pruned(s, keyColumnIndex, culture);
      PrunedStep(s, keyColumnIndex, culture);
      forall a | 0 <= a < |p|
        ensures 1 <= IdOf(p[a]) <= n && p[a] == s[IdOf(p[a]) - 1]
      {
        if a < |p0| {
          assert p[a] == p0[a];
          assert init[IdOf(p0[a]) - 1] == s[IdOf(p0[a]) - 1];
        } else {
          assert p[a] == s[n - 1];
        }
      }
    }
  }

  /** Kept rows keep their relative order, so identifiers strictly increase. */
  lemma {:induction false} PrunedIdsIncreasing(s: seq<seq<Cell>>, keyColumnIndex: int, culture: Culture)
    requires IdsFromOne(s)
    ensures IdsIncreasing(Pruned(s, keyColumnIndex, culture))
    decreases |s|
  {
    if s != [] {
      var n := |s|;
      var init := s[..n - 1];
      PrunedIdsIncreasing(init, keyColumnIndex, culture);
      PrunedRowsNamedById(init, keyColumnIndex, culture);
      var p0 := Pruned(init, keyColumnIndex, culture);
      var p := Pruned(s, keyColumnIndex, culture);
      PrunedStep(s, keyColumnIndex, culture);
      forall a, b | 0 <= a < b < |p|
        ensures IdOf(p[a]) < IdOf(p[b])
      {
        assert p[a] == p0[a];
        if b < |p0| {
          assert p[b] == p0[b];
        } else {
          assert p[b] == s[n - 1];
          assert IdOf(p0[a]) <= n - 1;
        }
      }
    }
  }

  /** Row j of the input survives exactly when KeepRow holds of it. */
  lemma {:induction false} PrunedKeepsExactly(s: seq<seq<Cell>>, keyColumnIndex: int, culture: Culture, j: nat)
    requires IdsFromOne(s) && j < |s|
    ensures KeepRow(s[j], keyColumnIndex, culture) <==> HasId(Pruned(s, keyColumnIndex, culture), j + 1)
    decreases |s|
  {
    var init := s[..|s| - 1];
    InitIdsFromOne(s);
    if j < |s| - 1 {
      PrunedKeepsExactly(init, keyColumnIndex, culture, j);
      assert s[j] == init[j];
      PrunedKeepsEarlier(s, keyColumnIndex, culture, j);
    } else {
      PrunedKeepsLast(s, keyColumnIndex, culture);
    }
  }

  lemma InitIdsFromOne(s: seq<seq<Cell>>)
    requires IdsFromOne(s) && s != []
    ensures IdsFromOne(s[..|s| - 1])
  {
    var init := s[..|s| - 1];
    forall j | 0 <= j < |init|
      ensures |init[j]| >= 1 && init[j][0] == Ident(j + 1)
    {
      assert init[j] == s[j];
    }
  }

  /** Pruning one more row extends the earlier result by that row or by nothing. */
  lemma PrunedExtends(s: seq<seq<Cell>>, keyColumnIndex: int, culture: Culture)
    requires s != []
    ensures var p0 := Pruned(s[..|s| - 1], keyColumnIndex, culture);
            var p := Pruned(s, keyColumnIndex, culture);
            && (forall a | 0 <= a < |p0| :: a < |p| && p[a] == p0[a])
            && (forall a | |p0| <= a < |p| :: p[a] == s[|s| - 1])
  {
    PrunedStep(s, keyColumnIndex, culture);
  }

  /** Appending the last row does not change which earlier identifiers survive. */
  lemma PrunedKeepsEarlier(s: seq<seq<Cell>>, keyColumnIndex: int, culture: Culture, j: nat)
    requires j < |s| - 1 && IdsFromOne(s)
    ensures HasId(Pruned(s, keyColumnIndex, culture), j + 1)
        <==> HasId(Pruned(s[..|s| - 1], keyColumnIndex, culture), j + 1)
  {
    var n := |s|;
    var p0 := Pruned(s[..n - 1], keyColumnIndex, culture);
    var p := Pruned(s, keyColumnIndex, culture);
    PrunedExtends(s, keyColumnIndex, culture);
    if HasId(p, j + 1) {
      var a :| 0 <= a < |p| && IdOf(p[a]) == j + 1;
      assert IdOf(s[n - 1]) == n;
      assert p[a] == p0[a];
    }
    if HasId(p0, j + 1) {
      var a :| 0 <= a < |p0| && IdOf(p0[a]) == j + 1;
      assert p[a] == p0[a];
    }
  }

  /** The last row survives exactly when KeepRow holds of it. */
  lemma PrunedKeepsLast(s: seq<seq<Cell>>, keyColumnIndex: int, culture: Culture)
    requires s != [] && IdsFromOne(s) && IdsFromOne(s[..|s| - 1])
    ensures KeepRow(s[|s| - 1], keyColumnIndex, culture) <==> HasId(Pruned(s, keyColumnIndex, culture), |s|)
  {
    var n := |s|;
    var init := s[..n - 1];
    var p0 := Pruned(init, keyColumnIndex, culture);
    var p := Pruned(s, keyColumnIndex, culture);
    PrunedStep(s, keyColumnIndex, culture);
    if KeepRow(s[n - 1], keyColumnIndex, culture) {
      assert IdOf(p[|p| - 1]) == n;
    } else {
      PrunedRowsNamedById(init, keyColumnIndex, culture);
      assert p == p0;
      forall a | 0 <= a < |p|
        ensures IdOf(p[a]) != n
      {
        assert IdOf(p0[a]) <= n - 1;
      }
    }
  }

  lemma NumberedIds(rows: seq<seq<Cell>>)
    ensures IdsFromOne(Numbered(rows))
  {
  }

  /** Names of the form "{letters} - caption" with different letters differ,
      because the first '}' ends the letters. */
  lemma LettersDetermineName(l1: string, l2: string, c1: string, c2: string)
    requires AllUpperLetters(l1) && AllUpperLetters(l2) && l1 != l2
    ensures "{" + l1 + "} - " + c1 != "{" + l2 + "} - " + c2
  {
    var s1, s2 := "{" + l1 + "} - " + c1, "{" + l2 + "} - " + c2;
    if |l1| < |l2| {
      assert s1[1 + |l1|] == '}';
      assert s2[1 + |l1|] == l2[|l1|];
    } else if |l2| < |l1| {
      assert s2[1 + |l2|] == '}';
      assert s1[1 + |l2|] == l1[|l2|];
    } else {
      var i :| 0 <= i < |l1| && l1[i] != l2[i];
      assert s1[1 + i] == l1[i] && s2[1 + i] == l2[i];
    }
  }

  /** Distinct ordinals get distinct names, whatever the captions. */
  lemma ColumnNamesDistinct(j: nat, k: nat, c1: string, c2: string)
    requires j != k
    ensures ColumnName(j, c1) != ColumnName(k, c2)
  {
    LettersThenValue(j + 1);
    LettersThenValue(k + 1);
    LettersDetermineName(Letters(j + 1), Letters(k + 1), c1, c2);
  }

  lemma CaptionedNamesDistinct(header: seq<Cell>, culture: Culture)
    ensures var names := CaptionedNames(header, culture);
            forall a, b | 0 <= a < b < |names| :: names[a] != names[b]
  {
    var names := CaptionedNames(header, culture);
    forall a, b | 0 <= a < b < |names|
      ensures names[a] != names[b]
    {
      ColumnNamesDistinct(a, b, CellText(header[a], culture), CellText(header[b], culture));
    }
  }

  /** The schema GetDataSet delivers for one sheet: column 0 is the
      identifier, column k + 1 is named after the original column k, and
      the ordinals from 2 on are typed double. */
  lemma NormalizedColumns(raw: RawTable, keyColumnIndex: int, headerRowIndex: nat, culture: Culture)
    requires RawWellFormed(raw) && headerRowIndex < |raw.rows|
    ensures var t := NormalizedTable(raw, keyColumnIndex, headerRowIndex, culture);
            && |t.columns| == raw.width + 1
            && t.columns[0].name == UniqueIdentifierName
            && (forall k | 0 <= k < raw.width ::
                  t.columns[k + 1].name == ColumnName(k, CellText(raw.rows[headerRowIndex][k], culture)))
            && (forall c | 0 <= c < |t.columns| :: t.columns[c].isDouble <==> c >= 2)
  {
    assert |raw.rows[headerRowIndex]| == raw.width;
    HeaderColumns(raw.rows[headerRowIndex], culture);
  }

  /** The columns built from a header row: the identifier, then one column per caption. */
  lemma HeaderColumns(header: seq<Cell>, culture: Culture)
    ensures var cols := TypedColumns([UniqueIdentifierName] + CaptionedNames(header, culture));
            && |cols| == |header| + 1
            && cols[0].name == UniqueIdentifierName
            && (forall k | 0 <= k < |header| :: cols[k + 1].name == ColumnName(k, CellText(header[k], culture)))
            && (forall c | 0 <= c < |cols| :: cols[c].isDouble <==> c >= 2)
  {
    var captions := CaptionedNames(header, culture);
    var names := [UniqueIdentifierName] + captions;
    var cols := TypedColumns(names);
    TypedColumnsShape(names);
    IdentifierThenCaptions(header, culture);
    forall k | 0 <= k < |header|
      ensures cols[k + 1].name == ColumnName(k, CellText(header[k], culture))
    {
      CaptionAt(header, culture, k);
      assert cols[k + 1].name == names[k + 1] == captions[k];
    }
  }

  lemma CaptionAt(header: seq<Cell>, culture: Culture, k: nat)
    requires k < |header|
    ensures CaptionedNames(header, culture)[k] == ColumnName(k, CellText(header[k], culture))
  {
  }

  lemma TypedColumnsShape(names: seq<string>)
    ensures var cols := TypedColumns(names);
            forall c | 0 <= c < |names| :: cols[c].name == names[c] && (cols[c].isDouble <==> c >= 2)
  {
  }

  lemma IdentifierThenCaptions(header: seq<Cell>, culture: Culture)
    ensures var captions := CaptionedNames(header, culture);
            var names := [UniqueIdentifierName] + captions;
            && names[0] == UniqueIdentifierName
            && forall k | 0 <= k < |header| :: names[k + 1] == captions[k]
  {
  }

  /** The rows GetDataSet delivers for one sheet: well-formed, each one the
      coerced form of the input row its identifier names, identifiers
      strictly increasing, and every cell but the identifier and the key a
      double. */
  lemma NormalizedRows(raw: RawTable, keyColumnIndex: int, headerRowIndex: nat, culture: Culture)
    requires RawWellFormed(raw) && headerRowIndex < |raw.rows|
    ensures var t := NormalizedTable(raw, keyColumnIndex, headerRowIndex, culture);
            && WellFormed(t)
            && (forall a | 0 <= a < |t.rows| ::
                  1 <= IdOf(t.rows[a]) <= |raw.rows|
                  && t.rows[a] == CoercedRow([Ident(IdOf(t.rows[a]))] + raw.rows[IdOf(t.rows[a]) - 1], keyColumnIndex, culture))
            && IdsIncreasing(t.rows)
            && (forall a, c | 0 <= a < |t.rows| && 1 <= c < |t.rows[a]| && c != keyColumnIndex :: t.rows[a][c].Num?)
  {
    var numbered := Numbered(raw.rows);
    NumberedIds(raw.rows);
    PrunedRowsNamedById(numbered, keyColumnIndex, culture);
    PrunedIdsIncreasing(numbered, keyColumnIndex, culture);
    var p := Pruned(numbered, keyColumnIndex, culture);
    var t := NormalizedTable(raw, keyColumnIndex, headerRowIndex, culture);
    assert |t.columns| == raw.width + 1;
    forall a | 0 <= a < |t.rows|
      ensures IdOf(t.rows[a]) == IdOf(p[a]) && |t.rows[a]| == |t.columns|
      ensures 1 <= IdOf(t.rows[a]) <= |raw.rows|
      ensures t.rows[a] == CoercedRow([Ident(IdOf(t.rows[a]))] + raw.rows[IdOf(t.rows[a]) - 1], keyColumnIndex, culture)
    {
      assert p[a] == numbered[IdOf(p[a]) - 1];
      assert t.rows[a] == CoercedRow(p[a], keyColumnIndex, culture);
    }
  }

  /** A raw row j survives normalization, under identifier j + 1, exactly when KeepRow holds of it. */
  lemma NormalizedKeepsExactly(raw: RawTable, keyColumnIndex: int, headerRowIndex: nat, culture: Culture, j: nat)
    requires RawWellFormed(raw) && headerRowIndex < |raw.rows| && j < |raw.rows|
    ensures KeepRow([Ident(j + 1)] + raw.rows[j], keyColumnIndex, culture)
        <==> HasId(NormalizedTable(raw, keyColumnIndex, headerRowIndex, culture).rows, j + 1)
  {
    var numbered := Numbered(raw.rows);
    NumberedIds(raw.rows);
    PrunedKeepsExactly(numbered, keyColumnIndex, culture, j);
    var p := Pruned(numbered, keyColumnIndex, culture);
    var rows := NormalizedTable(raw, keyColumnIndex, headerRowIndex, culture).rows;
    assert forall a | 0 <= a < |p| :: IdOf(rows[a]) == IdOf(p[a]);
    if HasId(rows, j + 1) {
      var a :| 0 <= a < |rows| && IdOf(rows[a]) == j + 1;
      assert IdOf(p[a]) == j + 1;
    }
  }
}

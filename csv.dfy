/** DataTableExtensions.WriteToCsvFile: the text written for a table. The
    header holds the column names as they are, the data rows hold every
    field between double quotes, and nothing is escaped. Each line is built
    with a comma after every item, and then the trailing comma is overwritten
    with the line break. */
module Csv {
  import opened Common

  /** Environment.NewLine on the Windows host the tool targets. */
  const NewLine: string := "\r\n"

  /** The items separated by sep. */
  function Join(items: seq<string>, sep: string): string
    decreases |items|
  {
    if |items| == 0 then ""
    else if |items| == 1 then items[0]
    else Join(items[..|items| - 1], sep) + sep + items[|items| - 1]
  }

  function Quote(field: string): string {
    "\"" + field + "\""
  }

  function Quoted(fields: seq<string>): (r: seq<string>)
    ensures |r| == |fields|
  {
    seq(|fields|, i requires 0 <= i < |fields| => Quote(fields[i]))
  }

  function HeaderLine(columnNames: seq<string>): string {
    Join(columnNames, ",") + NewLine
  }

  /** A row of no fields leaves the text as it is: its last character is a line break, not a comma. */
  function RowLine(fields: seq<string>): string {
    if |fields| == 0 then "" else Join(Quoted(fields), ",") + NewLine
  }

  /** The first n of the given lines, one after the other. */
  function Concat(lines: seq<string>, n: nat): string
    requires n <= |lines|
    decreases n
  {
    if n == 0 then "" else Concat(lines, n - 1) + lines[n - 1]
  }

  function LinesOf(rows: seq<seq<string>>): (lines: seq<string>)
    ensures |lines| == |rows|
  {
    seq(|rows|, k requires 0 <= k < |rows| => RowLine(rows[k]))
  }

  /** The lines of the first n rows. */
  function RowLines(rows: seq<seq<string>>, n: nat): string
    requires n <= |rows|
  {
    Concat(LinesOf(rows), n)
  }

  /** Reference definition of the file's text; with no columns the first
      Replace is called at start index -1 and throws. */
  function CsvText(columnNames: seq<string>, rows: seq<seq<string>>): Result<string> {
    if columnNames == [] then Err(EmptyBuilder) else Ok(HeaderLine(columnNames) + RowLines(rows, |rows|))
  }

  // ---- the StringBuilder operations ----

  /** What the append loops add: every item followed by a comma. */
  function CommaTerminated(items: seq<string>): (r: string)
    ensures items != [] ==> |r| > 0 && r[|r| - 1] == ','
    ensures items == [] ==> r == ""
    decreases |items|
  {
    if items == [] then "" else CommaTerminated(items[..|items| - 1]) + items[|items| - 1] + ","
  }

  /** Replace(",", NewLine, Length - 1, 1): only the last character, and only when it is a comma. */
  function ReplaceLastComma(s: string): (r: string)
    requires |s| > 0
    ensures s[|s| - 1] == ',' ==> r == s[..|s| - 1] + NewLine
    ensures s[|s| - 1] != ',' ==> r == s
  {
    if s[|s| - 1] == ',' then s[..|s| - 1] + NewLine else s
  }

  lemma {:induction false} CommaTerminatedIsJoin(items: seq<string>)
    requires items != []
    ensures CommaTerminated(items) == Join(items, ",") + ","
    decreases |items|
  {
    if |items| > 1 {
      CommaTerminatedIsJoin(items[..|items| - 1]);
    } else {
      assert items[..0] == [];
    }
  }

  /** Overwriting the trailing comma of a line built by the append loop ends the line with NewLine. */
  lemma CloseLine(prefix: string, items: seq<string>)
    requires items != []
    ensures ReplaceLastComma(prefix + CommaTerminated(items)) == prefix + Join(items, ",") + NewLine
  {
    CommaTerminatedIsJoin(items);
    var s := prefix + CommaTerminated(items);
    assert s[..|s| - 1] == prefix + Join(items, ",");
  }

  predicate EndsWithNewLine(s: string) {
    |s| >= 2 && s[|s| - 2..] == NewLine
  }

  lemma EndsAfterAppend(a: string, b: string)
    requires EndsWithNewLine(b)
    ensures EndsWithNewLine(a + b)
  {
    var s := a + b;
    assert s[|s| - 2..] == b[|b| - 2..];
  }

  lemma RowLineEnds(fields: seq<string>)
    requires fields != []
    ensures EndsWithNewLine(RowLine(fields))
  {
    assert EndsWithNewLine(NewLine);
    EndsAfterAppend(Join(Quoted(fields), ","), NewLine);
  }

  lemma {:induction false} ConcatEndsWithNewLine(header: string, lines: seq<string>, n: nat)
    requires n <= |lines| && EndsWithNewLine(header)
    requires forall k | 0 <= k < |lines| :: lines[k] == "" || EndsWithNewLine(lines[k])
    ensures EndsWithNewLine(header + Concat(lines, n))
    decreases n
  {
    if n > 0 {
      ConcatEndsWithNewLine(header, lines, n - 1);
      var prev := header + Concat(lines, n - 1);
      Associative(header, Concat(lines, n - 1), lines[n - 1]);
      if lines[n - 1] != "" {
        EndsAfterAppend(prev, lines[n - 1]);
      } else {
        assert prev + lines[n - 1] == prev;
      }
    }
  }

  lemma RowLinesEndWithNewLine(header: string, rows: seq<seq<string>>, n: nat)
    requires n <= |rows| && EndsWithNewLine(header)
    ensures EndsWithNewLine(header + RowLines(rows, n))
  {
    var lines := LinesOf(rows);
    forall k | 0 <= k < |lines|
      ensures lines[k] == "" || EndsWithNewLine(lines[k])
    {
      if rows[k] != [] {
        RowLineEnds(rows[k]);
      }
    }
    ConcatEndsWithNewLine(header, lines, n);
  }

  lemma QuotedStep(fields: seq<string>, i: nat)
    requires i < |fields|
    ensures CommaTerminated(Quoted(fields[..i + 1])) == CommaTerminated(Quoted(fields[..i])) + ("\"" + fields[i] + "\",")
  {
    var q := Quoted(fields[..i + 1]);
    assert q[..i] == Quoted(fields[..i]);
    assert q[i] == Quote(fields[i]);
  }

  lemma CloseHeader(columnNames: seq<string>)
    requires columnNames != []
    ensures ReplaceLastComma(CommaTerminated(columnNames)) == HeaderLine(columnNames)
  {
    CloseLine("", columnNames);
    assert "" + CommaTerminated(columnNames) == CommaTerminated(columnNames);
    assert "" + Join(columnNames, ",") == Join(columnNames, ",");
    assert HeaderLine(columnNames) == Join(columnNames, ",") + NewLine;
  }

  /** Before the row loop the text is the header line alone. */
  lemma NoRowsYet(header: string, rows: seq<seq<string>>)
    ensures header + RowLines(rows, 0) == header
  {
    assert RowLines(rows, 0) == "";
  }

  /** Regrouping a concatenation, as a proof step that keeps the solver's work small. */
  lemma Associative(a: string, b: string, c: string)
    ensures a + (b + c) == (a + b) + c
  {
  }

  /** Closing a row: the trailing comma becomes NewLine, or nothing happens for a row of no fields. */
  lemma CloseRow(header: string, rows: seq<seq<string>>, n: nat, before: string)
    requires n < |rows| && EndsWithNewLine(header)
    requires before == header + RowLines(rows, n)
    ensures var s := before + CommaTerminated(Quoted(rows[n]));
            |s| > 0 && ReplaceLastComma(s) == header + RowLines(rows, n + 1)
  {
    var dr := rows[n];
    assert RowLines(rows, n + 1) == RowLines(rows, n) + RowLine(dr);
    Associative(header, RowLines(rows, n), RowLine(dr));
    if dr != [] {
      CloseLine(before, Quoted(dr));
    } else {
      RowLinesEndWithNewLine(header, rows, n);
      assert Quoted(dr) == [];
      assert before + "" == before;
      NothingToClose(before);
    }
  }

  /** A text that ends with NewLine has no trailing comma to replace. */
  lemma NothingToClose(s: string)
    requires EndsWithNewLine(s)
    ensures |s| > 0 && ReplaceLastComma(s) == s
  {
    assert s[|s| - 1] == s[|s| - 2..][1];
  }

  /** Lines 13-16: every column name followed by a comma. */
  method AppendColumnNames(columnNames: seq<string>) returns (fileContent: string)
    ensures fileContent == CommaTerminated(columnNames)
  {
    fileContent := "";
    for k := 0 to |columnNames|
      invariant fileContent == CommaTerminated(columnNames[..k])
    {
      assert columnNames[..k + 1][..k] == columnNames[..k];
      fileContent := fileContent + (columnNames[k] + ",");
    }
    assert columnNames[..|columnNames|] == columnNames;
  }

  /** Lines 22-25: every field of one row, quoted and followed by a comma, after what is already written. */
  method AppendFields(before: string, dr: seq<string>) returns (fileContent: string)
    ensures fileContent == before + CommaTerminated(Quoted(dr))
  {
    fileContent := before;
    for i := 0 to |dr|
      invariant fileContent == before + CommaTerminated(Quoted(dr[..i]))
    {
      QuotedStep(dr, i);
      Associative(before, CommaTerminated(Quoted(dr[..i])), "\"" + dr[i] + "\",");
      fileContent := fileContent + ("\"" + dr[i] + "\",");
    }
    assert dr[..|dr|] == dr;
  }

  /** Lines 9-31 without the file write: the text built in `fileContent`. */
  method WriteToCsvFile(columnNames: seq<string>, rows: seq<seq<string>>) returns (r: Result<string>)
    ensures r == CsvText(columnNames, rows)
  {
    var fileContent := AppendColumnNames(columnNames);
    if |fileContent| == 0 {
      return Err(EmptyBuilder);
    }
    CloseHeader(columnNames);
    fileContent := ReplaceLastComma(fileContent);
    ghost var header := HeaderLine(columnNames);
    NoRowsYet(header, rows);
    for n := 0 to |rows|
      invariant fileContent == header + RowLines(rows, n)
    {
      ghost var before := fileContent;
      fileContent := AppendFields(fileContent, rows[n]);
      CloseRow(header, rows, n, before);
      fileContent := ReplaceLastComma(fileContent);
    }
    r := Ok(fileContent);
  }

  // ---- properties of the text ----

  /** With at least one column the file ends with a line break. */
  lemma CsvEndsWithNewLine(columnNames: seq<string>, rows: seq<seq<string>>)
    requires columnNames != []
    ensures var r := CsvText(columnNames, rows);
            r.Ok? && |r.value| >= 2 && r.value[|r.value| - 2..] == NewLine
  {
    var header := HeaderLine(columnNames);
    assert EndsWithNewLine(NewLine);
    EndsAfterAppend(Join(columnNames, ","), NewLine);
    RowLinesEndWithNewLine(header, rows, |rows|);
  }

  /** The number of occurrences of c in s. */
  function Count(s: string, c: char): nat {
    multiset(s)[c]
  }

  predicate NoLineFeed(s: string) {
    forall i | 0 <= i < |s| :: s[i] != '\n'
  }

  predicate FieldsFreeOfLineFeed(rows: seq<seq<string>>) {
    forall n, i | 0 <= n < |rows| && 0 <= i < |rows[n]| :: NoLineFeed(rows[n][i])
  }

  lemma {:induction false} JoinNoLineFeed(items: seq<string>)
    requires forall k | 0 <= k < |items| :: NoLineFeed(items[k])
    ensures NoLineFeed(Join(items, ","))
    decreases |items|
  {
    if |items| > 1 {
      JoinNoLineFeed(items[..|items| - 1]);
    }
  }

  lemma LineCount(s: string)
    requires NoLineFeed(s)
    ensures Count(s + NewLine, '\n') == 1
  {
    assert '\n' !in s;
    assert multiset(NewLine) == multiset{'\r', '\n'};
  }

  lemma QuoteNoLineFeed(field: string)
    requires NoLineFeed(field)
    ensures NoLineFeed(Quote(field))
  {
    var q := Quote(field);
    forall i | 0 <= i < |q|
      ensures q[i] != '\n'
    {
      if 0 < i < |q| - 1 {
        assert q[i] == field[i - 1];
      }
    }
  }

  /** RowLineCount for a row of a table whose fields hold no line feed. */
  lemma FreeRowLineCount(rows: seq<seq<string>>, n: nat)
    requires n < |rows| && rows[n] != []
    requires FieldsFreeOfLineFeed(rows)
    ensures Count(RowLine(rows[n]), '\n') == 1
  {
    var fields := rows[n];
    forall k | 0 <= k < |fields|
      ensures NoLineFeed(fields[k])
    {
      assert NoLineFeed(rows[n][k]);
    }
    RowLineCount(fields);
  }

  /** The line of a non-empty row holds exactly one line feed. */
  lemma RowLineCount(fields: seq<string>)
    requires fields != []
    requires forall k | 0 <= k < |fields| :: NoLineFeed(fields[k])
    ensures Count(RowLine(fields), '\n') == 1
  {
    var quoted := Quoted(fields);
    forall k | 0 <= k < |quoted|
      ensures NoLineFeed(quoted[k])
    {
      QuoteNoLineFeed(fields[k]);
    }
    JoinNoLineFeed(quoted);
    LineCount(Join(quoted, ","));
  }

  /** Lines of one line feed each, put together, hold one line feed per line. */
  lemma {:induction false} ConcatCount(lines: seq<string>, m: nat)
    requires m <= |lines|
    requires forall k | 0 <= k < |lines| :: Count(lines[k], '\n') == 1
    ensures Count(Concat(lines, m), '\n') == m
    decreases m
  {
    if m > 0 {
      ConcatCount(lines, m - 1);
    }
  }

  /** One line per row when no row is empty and no field holds a line feed. */
  lemma RowLinesCount(rows: seq<seq<string>>)
    requires FieldsFreeOfLineFeed(rows)
    requires forall n | 0 <= n < |rows| :: rows[n] != []
    ensures Count(RowLines(rows, |rows|), '\n') == |rows|
  {
    var lines := LinesOf(rows);
    forall k | 0 <= k < |lines|
      ensures Count(lines[k], '\n') == 1
    {
      FreeRowLineCount(rows, k);
    }
    ConcatCount(lines, |rows|);
  }

  /** When no name or field holds a line feed and no row is empty, the file
      has one line for the header and one per row. */
  lemma CsvLineCount(columnNames: seq<string>, rows: seq<seq<string>>)
    requires columnNames != []
    requires forall k | 0 <= k < |columnNames| :: NoLineFeed(columnNames[k])
    requires FieldsFreeOfLineFeed(rows)
    requires forall n | 0 <= n < |rows| :: rows[n] != []
    ensures var r := CsvText(columnNames, rows); r.Ok? && Count(r.value, '\n') == 1 + |rows|
  {
    JoinNoLineFeed(columnNames);
    LineCount(Join(columnNames, ","));
    RowLinesCount(rows);
  }

  /** Quotes and commas inside a field are copied as they are: a table with one
      field `a","b` is written exactly like a table with the two fields a and b. */
  lemma FieldsAreNotEscaped()
    ensures CsvText(["h"], [["a\",\"b"]]) == CsvText(["h"], [["a", "b"]])
  {
    var one, two := Quoted(["a\",\"b"]), Quoted(["a", "b"]);
    assert one == [Quote("a\",\"b")] by {
      assert |one| == 1 && one[0] == Quote("a\",\"b");
    }
    assert two == [Quote("a"), Quote("b")] by {
      assert |two| == 2 && two[0] == Quote("a") && two[1] == Quote("b");
    }
    assert two[..1] == [Quote("a")];
    assert Join(two, ",") == Quote("a") + "," + Quote("b");
    assert Join(one, ",") == Quote("a\",\"b");
    assert Quote("a") + "," + Quote("b") == Quote("a\",\"b");
    assert RowLines([["a\",\"b"]], 1) == RowLine(["a\",\"b"]);
    assert RowLines([["a", "b"]], 1) == RowLine(["a", "b"]);
  }

  /** Header names are not quoted, so a comma in a name cannot be told from a separator. */
  lemma HeaderIsNotQuoted()
    ensures CsvText(["a,b"], []) == CsvText(["a", "b"], [])
  {
    assert ["a", "b"][..1] == ["a"];
    assert Join(["a", "b"], ",") == "a" + "," + "b";
    assert "a" + "," + "b" == "a,b";
  }

  /** Commas inside fields survive: only the comma after the last field becomes the line break. */
  lemma FieldCommasArePreserved()
    ensures CsvText(["h"], [["1,5"]]) == Ok("h" + NewLine + "\"1,5\"" + NewLine)
  {
    var q := Quoted(["1,5"]);
    assert q == [Quote("1,5")] by {
      assert |q| == 1 && q[0] == Quote("1,5");
    }
    assert RowLines([["1,5"]], 1) == RowLine(["1,5"]) == Quote("1,5") + NewLine;
    assert HeaderLine(["h"]) == "h" + NewLine;
    assert Quote("1,5") == "\"1,5\"";
    assert CsvText(["h"], [["1,5"]]) == Ok(("h" + NewLine) + ("\"1,5\"" + NewLine));
    assert ("h" + NewLine) + ("\"1,5\"" + NewLine) == "h" + NewLine + "\"1,5\"" + NewLine;
  }
}

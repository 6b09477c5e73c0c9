/** Values shared by the whole model of ExcelCompare: outcomes, cells,
    tables, the culture-dependent number conversions, and the character and
    32-bit integer primitives that the C# code relies on. */
module Common {

  datatype Option<T> = None | Some(value: T)

  /** The exceptions that the modelled code paths can raise. Each one is
      caught by the top-level handler of the compare command. */
  datatype Failure =
    | EmptyColumnName       // GetExcelColumnLettersAsIndex("") throws ArgumentNullException
    | RowNumberFormat       // Convert.ToInt32 on text that is not a decimal number
    | RowNumberOverflow     // Convert.ToInt32 on a number above Int32.MaxValue
    | HeaderRowOutOfRange   // table.Rows[headerRowIndex] with headerRowIndex == -1
    | RowOutOfRange         // table2.Rows[i] with i == table2.Rows.Count
    | CellOutOfRange        // row[1] on a row that has no second cell
    | DelimiterOutOfRange   // Substring(1, lastIndexOf - 1) when "} - " is not past index 0
    | EmptyBuilder          // StringBuilder.Replace at start index -1

  datatype Result<T> = Ok(value: T) | Err(failure: Failure)

  /** How a step of the command can end: with a value; cancelled (the code
      returns null and the command stops silently); with an exception that
      the top-level handler catches; or still waiting at a console prompt
      because the scripted answers ran out. */
  datatype Outcome<T> = Done(value: T) | Cancelled | Crashed(failure: Failure) | AwaitingInput

  /** A cell of a data table. Raw cells from the workbook decoder are
      DBNull or Text (the text is the value's ToString()); normalization
      writes Ident (the integer identifier column) and Num (doubles). */
  datatype Cell = DBNull | Text(s: string) | Num(x: real) | Ident(n: int)

  /** The culture-dependent conversions: double.TryParse and double.ToString. */
  datatype Culture = Culture(parse: string -> Option<real>, show: real -> string)

  /** Cell.ToString(): DBNull prints as the empty string. */
  function CellText(c: Cell, culture: Culture): string {
    match c
    case DBNull => ""
    case Text(s) => s
    case Num(x) => culture.show(x)
    case Ident(n) => IntToString(n)
  }

  /** A raw sheet as the decoder delivers it: every row has `width` cells. */
  datatype RawTable = RawTable(name: string, width: nat, rows: seq<seq<Cell>>)

  predicate RawWellFormed(t: RawTable) {
    forall r | 0 <= r < |t.rows| :: |t.rows[r]| == t.width
  }

  /** A column of a normalized table: its name and whether its DataType is double. */
  datatype Column = Column(name: string, isDouble: bool)

  datatype Table = Table(name: string, columns: seq<Column>, rows: seq<seq<Cell>>)

  predicate WellFormed(t: Table) {
    forall r | 0 <= r < |t.rows| :: |t.rows[r]| == |t.columns|
  }

  function ColumnNames(t: Table): (names: seq<string>)
    ensures |names| == |t.columns|
    ensures forall i | 0 <= i < |names| :: names[i] == t.columns[i].name
  {
    seq(|t.columns|, i requires 0 <= i < |t.columns| => t.columns[i].name)
  }

  /** First index holding `n`, as DataTableCollection/DataColumnCollection
      lookups by exact name find it. */
  function FindName(names: seq<string>, n: string): (r: Option<nat>)
    ensures r.Some? ==> r.value < |names| && names[r.value] == n
    ensures r.Some? ==> forall j | 0 <= j < r.value :: names[j] != n
    ensures r.None? <==> n !in names
  {
    if |names| == 0 then None
    else if names[0] == n then Some(0)
    else match FindName(names[1..], n)
      case None => None
      case Some(j) => Some(j + 1)
  }

  function Abs(x: real): real { if x < 0.0 then -x else x }

  // ---- 32-bit integers ----

  const Int32Min: int := -0x8000_0000
  const Int32Max: int := 0x7FFF_FFFF

  /** Two's-complement wrap-around of C#'s unchecked int arithmetic. */
  function Wrap32(x: int): (r: int)
    ensures Int32Min <= r <= Int32Max
    ensures Int32Min <= x <= Int32Max ==> r == x
  {
    (x - Int32Min) % 0x1_0000_0000 + Int32Min
  }

  lemma WrapShift(a: int, k: int)
    ensures Wrap32(a + k * 0x1_0000_0000) == Wrap32(a)
  {
    var q := (a - Int32Min) / 0x1_0000_0000;
    var m := (a - Int32Min) % 0x1_0000_0000;
    assert a + k * 0x1_0000_0000 - Int32Min == (q + k) * 0x1_0000_0000 + m;
  }

  /** Wrapping after every operation gives the same int as wrapping once. */
  lemma WrapMulAdd(x: int, d: int)
    ensures Wrap32(Wrap32(Wrap32(x) * 26) + d) == Wrap32(x * 26 + d)
  {
    var j := (x - Int32Min) / 0x1_0000_0000;
    assert Wrap32(x) == x - j * 0x1_0000_0000;
    WrapShift(x * 26, -26 * j);
    var y := Wrap32(x * 26);
    var j2 := (x * 26 - Int32Min) / 0x1_0000_0000;
    assert y == x * 26 - j2 * 0x1_0000_0000;
    WrapShift(x * 26 + d, -j2);
  }

  // ---- decimal text ----

  function DigitChar(d: nat): char
    requires d < 10
  {
    ('0' as int + d) as char
  }

  function NatToString(n: nat): string
    decreases n
  {
    if n < 10 then [DigitChar(n)] else NatToString(n / 10) + [DigitChar(n % 10)]
  }

  /** Int32.ToString() in the invariant culture. */
  function IntToString(n: int): string {
    if n < 0 then "-" + NatToString(-n) else NatToString(n)
  }

  // ---- characters (ASCII approximations of the .NET character classes) ----

  predicate IsDigit(c: char) { '0' <= c <= '9' }

  /** char.IsWhiteSpace on the ASCII range: space, \t, \n, \v, \f, \r. */
  predicate IsWhiteSpace(c: char) { c == ' ' || '\t' <= c <= '\r' }

  function UpperChar(c: char): char {
    if 'a' <= c <= 'z' then (c as int - 32) as char else c
  }

  function LowerChar(c: char): char {
    if 'A' <= c <= 'Z' then (c as int + 32) as char else c
  }

  function Upper(s: string): (r: string)
    ensures |r| == |s|
  {
    seq(|s|, i requires 0 <= i < |s| => UpperChar(s[i]))
  }

  function Lower(s: string): (r: string)
    ensures |r| == |s|
  {
    seq(|s|, i requires 0 <= i < |s| => LowerChar(s[i]))
  }

  /** string.IsNullOrWhiteSpace on a non-null string. */
  predicate IsBlank(s: string) {
    forall i | 0 <= i < |s| :: IsWhiteSpace(s[i])
  }
}

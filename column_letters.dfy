/** The spreadsheet column-letter codec of Helpers: GetExcelColumnLetters
    turns a 1-based column number into base-26 letters (1 = "A", 26 = "Z",
    27 = "AA"), and GetExcelColumnLettersAsIndex turns letters back into a
    number with C#'s unchecked 32-bit int arithmetic. */
module ColumnLetters {
  import opened Common

  predicate IsUpperLetter(c: char) { 'A' <= c <= 'Z' }

  predicate AllUpperLetters(s: string) {
    forall i | 0 <= i < |s| :: IsUpperLetter(s[i])
  }

  /** Reference definition: the bijective base-26 numeral of n, and "" for n <= 0. */
  function Letters(n: int): (r: string)
    ensures n <= 0 ==> r == ""
    ensures n >= 1 ==> |r| >= 1
    ensures AllUpperLetters(r)
    decreases n
  {
    if n <= 0 then "" else Letters((n - 1) / 26) + [((n - 1) % 26 + 'A' as int) as char]
  }

  /** The number a string of letters denotes when nothing overflows: every
      character counts as its code minus 64 ('A' = 1, ..., 'Z' = 26). */
  function ColumnValue(s: string): int
    decreases |s|
  {
    if s == [] then 0 else ColumnValue(s[..|s| - 1]) * 26 + (s[|s| - 1] as int - 'A' as int + 1)
  }

  /** What GetExcelColumnLettersAsIndex returns: an exception for the empty
      string, otherwise the value of the upper-cased text, wrapped to 32 bits. */
  function LettersAsIndex(s: string): (r: Result<int>)
    ensures r.Err? <==> s == []
    ensures r.Ok? ==> Int32Min <= r.value <= Int32Max
  {
    if |s| == 0 then Err(EmptyColumnName) else Ok(Wrap32(ColumnValue(Upper(s))))
  }

  /** Helpers.GetExcelColumnLetters: the loop over `dividend`, prepending one letter per step. */
  method GetExcelColumnLetters(columnNumber: int) returns (columnName: string)
    ensures columnName == Letters(columnNumber)
  {
    var dividend := columnNumber;
    columnName := "";
    while dividend > 0
      invariant Letters(dividend) + columnName == Letters(columnNumber)
      decreases dividend
    {
      var modulo := (dividend - 1) % 26;
      var letter := [(65 + modulo) as char];
      assert Letters(dividend) == Letters((dividend - 1) / 26) + letter;
      columnName := letter + columnName;
      NextDividend(dividend);
      dividend := (dividend - modulo) / 26;
    }
  }

  /** The source's `(dividend - modulo) / 26` is the quotient Letters recurses on. */
  lemma NextDividend(d: int)
    requires d > 0
    ensures (d - (d - 1) % 26) / 26 == (d - 1) / 26
  {
    var q, m := (d - 1) / 26, (d - 1) % 26;
    assert d - m == q * 26 + 1;
  }

  /** Helpers.GetExcelColumnLettersAsIndex: upper-case, then `sum = sum * 26 + c - 'A' + 1`
      per character, each operation wrapping around as unchecked C# int arithmetic does. */
  method GetExcelColumnLettersAsIndex(columnName: string) returns (r: Result<int>)
    ensures r == LettersAsIndex(columnName)
  {
    if |columnName| == 0 {
      return Err(EmptyColumnName);
    }
    var name := Upper(columnName);
    var sum := 0;
    for i := 0 to |name|
      invariant sum == Wrap32(ColumnValue(name[..i]))
    {
      ghost var before := name[..i];
      assert name[..i + 1][..i] == before;
      sum := Wrap32(sum * 26);
      sum := Wrap32(sum + (name[i] as int - 'A' as int + 1));
      WrapMulAdd(ColumnValue(before), name[i] as int - 'A' as int + 1);
    }
    assert name[..|name|] == name;
    r := Ok(sum);
  }

  lemma UpperOfLetters(s: string)
    requires AllUpperLetters(s)
    ensures Upper(s) == s
  {
  }

  lemma {:induction false} ColumnValueNonNegative(s: string)
    requires AllUpperLetters(s)
    ensures ColumnValue(s) >= 0
    ensures s != [] ==> ColumnValue(s) >= 1
    decreases |s|
  {
    if s != [] {
      ColumnValueNonNegative(s[..|s| - 1]);
    }
  }

  /** Letters, then ColumnValue, gives back the number. */
  lemma {:induction false} LettersThenValue(n: int)
    requires n >= 0
    ensures ColumnValue(Letters(n)) == n
    decreases n
  {
    if n > 0 {
      var q := (n - 1) / 26;
      var s := Letters(q) + [((n - 1) % 26 + 'A' as int) as char];
      assert s[..|s| - 1] == Letters(q);
      LettersThenValue(q);
    }
  }

  /** ColumnValue, then Letters, gives back every non-empty upper-case word. */
  lemma {:induction false} ValueThenLetters(s: string)
    requires AllUpperLetters(s)
    ensures Letters(ColumnValue(s)) == s
    decreases |s|
  {
    if s != [] {
      var p := s[..|s| - 1];
      ValueThenLetters(p);
      ColumnValueNonNegative(p);
      var n := ColumnValue(s);
      assert n == ColumnValue(p) * 26 + (s[|s| - 1] as int - 'A' as int + 1);
      assert (n - 1) / 26 == ColumnValue(p);
      assert (n - 1) % 26 + 'A' as int == s[|s| - 1] as int;
      assert s == p + [s[|s| - 1]];
    }
  }

  /** The round trip of the two Helpers functions, for every int column number. */
  lemma CodecRoundTrip(n: int)
    requires 1 <= n <= Int32Max
    ensures LettersAsIndex(Letters(n)) == Ok(n)
  {
    UpperOfLetters(Letters(n));
    LettersThenValue(n);
  }

  /** The other direction: an upper-case word whose value fits in an int is
      the encoding of its index. */
  lemma IndexRoundTrip(s: string)
    requires s != [] && AllUpperLetters(s)
    requires ColumnValue(s) <= Int32Max
    ensures LettersAsIndex(s).Ok? && Letters(LettersAsIndex(s).value) == s
  {
    UpperOfLetters(s);
    ColumnValueNonNegative(s);
    ValueThenLetters(s);
  }

  lemma CodecExamples()
    ensures Letters(1) == "A" && Letters(26) == "Z" && Letters(27) == "AA" && Letters(702) == "ZZ"
  {
    assert Letters(0) == "";
    assert Letters(1) == "A";
    assert Letters(26) == "Z";
    assert Letters(27) == Letters(1) + "A";
    assert Letters(702) == Letters(26) + "Z";
  }

  /** Upper-casing first makes the conversion case-insensitive. */
  lemma LettersAsIndexIgnoresCase(s: string, t: string)
    requires |s| == |t|
    requires forall i | 0 <= i < |s| :: UpperChar(s[i]) == UpperChar(t[i])
    ensures LettersAsIndex(s) == LettersAsIndex(t)
  {
    assert Upper(s) == Upper(t);
  }

  lemma LowerCaseLettersAsIndex(s: string)
    ensures LettersAsIndex(Lower(s)) == LettersAsIndex(s)
  {
    LettersAsIndexIgnoresCase(Lower(s), s);
  }

  /** Along the letter order of equal-length upper-case words, ColumnValue
      strictly increases: s and t agree before position k and s[k] < t[k]. */
  lemma {:induction false} ColumnValueStrictlyIncreasing(s: string, t: string, k: nat)
    requires |s| == |t| && AllUpperLetters(s) && AllUpperLetters(t)
    requires k < |s| && s[..k] == t[..k] && s[k] < t[k]
    ensures ColumnValue(s) < ColumnValue(t)
    decreases |s|
  {
    var n := |s|;
    var ps, pt := s[..n - 1], t[..n - 1];
    if k == n - 1 {
      assert ps == pt;
    } else {
      assert ps[..k] == s[..k] && pt[..k] == t[..k];
      ColumnValueStrictlyIncreasing(ps, pt, k);
    }
  }

  /** The same order on the int that GetExcelColumnLettersAsIndex returns, while no overflow occurs. */
  lemma LettersAsIndexStrictlyIncreasing(s: string, t: string, k: nat)
    requires |s| == |t| && AllUpperLetters(s) && AllUpperLetters(t)
    requires k < |s| && s[..k] == t[..k] && s[k] < t[k]
    requires ColumnValue(t) <= Int32Max
    ensures LettersAsIndex(s).Ok? && LettersAsIndex(t).Ok?
    ensures LettersAsIndex(s).value < LettersAsIndex(t).value
  {
    ColumnValueStrictlyIncreasing(s, t, k);
    ColumnValueNonNegative(s);
    UpperOfLetters(s);
    UpperOfLetters(t);
  }
}

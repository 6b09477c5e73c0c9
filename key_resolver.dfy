/** Key resolution of Helpers.GetDataSet: the validators of the caller's
    column-letter and row-number hints, and the console loops that ask for a
    replacement until one is accepted. The console is a scripted sequence
    of answers; every function returns the answers it did not consume. */
module KeyResolver {
  import opened Common
  import opened ColumnLetters

  /** Helpers.IsExit: "x" or "exit", ignoring case. */
  predicate IsExit(text: string) {
    Upper(text) == "X" || Upper(text) == "EXIT"
  }

  /** Helpers.IsNotValidColumnIndex: blank, or containing a digit. A hint it
      accepts never makes GetExcelColumnLettersAsIndex throw. */
  function IsNotValidColumnIndex(userColumnIndex: string): (r: bool)
    ensures !r ==> LettersAsIndex(userColumnIndex).Ok?
  {
    IsBlank(userColumnIndex) || exists i | 0 <= i < |userColumnIndex| :: IsDigit(userColumnIndex[i])
  }

  /** Helpers.IsNotLocatedColumnIndex: only the upper bound is checked. */
  predicate IsNotLocatedColumnIndex(indexValue: int, columnCount: nat) {
    indexValue > columnCount
  }

  predicate AllDigits(s: string) {
    forall i | 0 <= i < |s| :: IsDigit(s[i])
  }

  function DecimalValue(s: string): nat
    requires AllDigits(s)
    decreases |s|
  {
    if s == [] then 0 else DecimalValue(s[..|s| - 1]) * 10 + (s[|s| - 1] as int - '0' as int)
  }

  /** Convert.ToInt32 on a string of ASCII digits; other text is a format error. */
  function ToInt32(s: string): Result<int> {
    if s == [] || !AllDigits(s) then Err(RowNumberFormat)
    else if DecimalValue(s) > Int32Max then Err(RowNumberOverflow)
    else Ok(DecimalValue(s))
  }

  /** Helpers.IsNotValidRowIndex: blank, or not all digits. A hint it accepts
      can only fail to convert by overflowing. */
  function IsNotValidRowIndex(rowIndex: string): (r: bool)
    ensures !r ==> ToInt32(rowIndex) != Err(RowNumberFormat)
  {
    IsBlank(rowIndex) || !AllDigits(rowIndex)
  }

  /** Helpers.IsNotLocatedRowIndex: Convert.ToInt32(rowIndex) > Rows.Count, which throws on overflow. */
  function IsNotLocatedRowIndex(rowIndex: string, rowCount: nat): (r: Result<bool>)
    ensures !IsNotValidRowIndex(rowIndex) ==> (r.Err? <==> DecimalValue(rowIndex) > Int32Max)
    ensures r == Ok(false) <==> ToInt32(rowIndex).Ok? && ToInt32(rowIndex).value <= rowCount
  {
    match ToInt32(rowIndex)
    case Err(f) => Err(f)
    case Ok(v) => Ok(v > rowCount)
  }

  // ---- the prompt loops, as functions of the scripted answers ----

  predicate IsSuffix(rest: seq<string>, answers: seq<string>) {
    |rest| <= |answers| && rest == answers[|answers| - |rest|..]
  }

  /** What is left after a later answer is also left after this one. */
  lemma SuffixOfTail(rest: seq<string>, answers: seq<string>)
    requires |answers| > 0 && IsSuffix(rest, answers[1..])
    ensures IsSuffix(rest, answers)
  {
    assert answers[1..][|answers| - 1 - |rest|..] == answers[|answers| - |rest|..];
  }

  /** The column prompt loop: skip answers that are not valid, stop on an
      exit token, skip indices beyond the column count, accept the rest. */
  function PromptColumn(answers: seq<string>, columnCount: nat): (r: (Outcome<int>, seq<string>))
    ensures r.0.Done? ==> !IsNotLocatedColumnIndex(r.0.value, columnCount)
    ensures !r.0.Crashed?
    ensures IsSuffix(r.1, answers)
    decreases |answers|
  {
    if |answers| == 0 then (AwaitingInput, [])
    else
      var a, later := answers[0], answers[1..];
      assert IsSuffix(later, later);
      SuffixOfTail(later, answers);
      if IsNotValidColumnIndex(a) then
        var r := PromptColumn(later, columnCount);
        SuffixOfTail(r.1, answers);
        r
      else if IsExit(a) then (Cancelled, later)
      else
        var indexValue := LettersAsIndex(a).value;
        if IsNotLocatedColumnIndex(indexValue, columnCount) then
          var r := PromptColumn(later, columnCount);
          SuffixOfTail(r.1, answers);
          r
        else (Done(indexValue), later)
  }

  /** The row prompt loop: the same shape, except that the exit check comes
      after a validity check that already rejects every exit token. The
      result is the zero-based header row index. */
  function PromptRow(answers: seq<string>, rowCount: nat): (r: (Outcome<int>, seq<string>))
    ensures r.0.Done? ==> -1 <= r.0.value <= rowCount - 1
    ensures r.0.Crashed? ==> r.0.failure == RowNumberOverflow
    ensures IsSuffix(r.1, answers)
    decreases |answers|
  {
    if |answers| == 0 then (AwaitingInput, [])
    else
      var a, later := answers[0], answers[1..];
      assert IsSuffix(later, later);
      SuffixOfTail(later, answers);
      if IsNotValidRowIndex(a) then
        var r := PromptRow(later, rowCount);
        SuffixOfTail(r.1, answers);
        r
      else if IsExit(a) then (Cancelled, later)
      else match IsNotLocatedRowIndex(a, rowCount)
        case Err(f) => (Crashed(f), later)
        case Ok(notLocated) =>
          if notLocated then
            var r := PromptRow(later, rowCount);
            SuffixOfTail(r.1, answers);
            r
          else (Done(ToInt32(a).value - 1), later)
  }

  /** The key column: the caller's hint when it is valid and located, otherwise the prompt's answer. */
  function ResolveColumnKey(columnRowKey: string, answers: seq<string>, columnCount: nat): (r: (Outcome<int>, seq<string>))
    ensures r.0.Done? ==> r.0.value <= columnCount
    ensures !r.0.Crashed?
    ensures IsSuffix(r.1, answers)
  {
    if IsNotValidColumnIndex(columnRowKey) || IsNotLocatedColumnIndex(LettersAsIndex(columnRowKey).value, columnCount)
    then PromptColumn(answers, columnCount)
    else (Done(LettersAsIndex(columnRowKey).value), answers)
  }

  /** The header row: the caller's hint minus one when it is valid and
      located, otherwise the prompt's answer; converting a hint that is too
      large for an int throws. */
  function ResolveHeaderRow(rowColumnKey: string, answers: seq<string>, rowCount: nat): (r: (Outcome<int>, seq<string>))
    ensures r.0.Done? ==> -1 <= r.0.value <= rowCount - 1
    ensures r.0.Crashed? ==> r.0.failure == RowNumberOverflow
    ensures IsSuffix(r.1, answers)
  {
    if IsNotValidRowIndex(rowColumnKey) then PromptRow(answers, rowCount)
    else match IsNotLocatedRowIndex(rowColumnKey, rowCount)
      case Err(f) => (Crashed(f), answers)
      case Ok(notLocated) =>
        if notLocated then PromptRow(answers, rowCount)
        else (Done(ToInt32(rowColumnKey).value - 1), answers)
  }

  // ---- the prompt loops as the source writes them ----

  /** The `while (true)` column loop; Prompt.GetString reads the next scripted answer. */
  method PromptColumnLoop(answers: seq<string>, columnCount: nat) returns (key: Outcome<int>, rest: seq<string>)
    ensures (key, rest) == PromptColumn(answers, columnCount)
  {
    var next := 0;
    while true
      invariant 0 <= next <= |answers|
      invariant PromptColumn(answers, columnCount) == PromptColumn(answers[next..], columnCount)
      decreases |answers| - next
    {
      if next == |answers| {
        return AwaitingInput, [];
      }
      var userProvidedColumnIndex := answers[next];
      assert answers[next..][1..] == answers[next + 1..];
      next := next + 1;
      if IsNotValidColumnIndex(userProvidedColumnIndex) {
        continue;
      }
      if IsExit(userProvidedColumnIndex) {
        return Cancelled, answers[next..];
      }
      var indexValue := GetExcelColumnLettersAsIndex(userProvidedColumnIndex);
      if IsNotLocatedColumnIndex(indexValue.value, columnCount) {
        continue;
      }
      return Done(indexValue.value), answers[next..];
    }
  }

  /** The `while (true)` row loop. */
  method PromptRowLoop(answers: seq<string>, rowCount: nat) returns (header: Outcome<int>, rest: seq<string>)
    ensures (header, rest) == PromptRow(answers, rowCount)
  {
    var next := 0;
    while true
      invariant 0 <= next <= |answers|
      invariant PromptRow(answers, rowCount) == PromptRow(answers[next..], rowCount)
      decreases |answers| - next
    {
      if next == |answers| {
        return AwaitingInput, [];
      }
      var userProvidedRowIndex := answers[next];
      assert answers[next..][1..] == answers[next + 1..];
      next := next + 1;
      if IsNotValidRowIndex(userProvidedRowIndex) {
        continue;
      }
      if IsExit(userProvidedRowIndex) {
        return Cancelled, answers[next..];
      }
      var notLocated := IsNotLocatedRowIndex(userProvidedRowIndex, rowCount);
      if notLocated.Err? {
        return Crashed(notLocated.failure), answers[next..];
      }
      if notLocated.value {
        continue;
      }
      return Done(ToInt32(userProvidedRowIndex).value - 1), answers[next..];
    }
  }

  // ---- what the validators accept ----

  /** An exit token passes the column validator, so the column loop can stop on it. */
  lemma ExitTokensAreValidColumns(s: string)
    requires IsExit(s)
    ensures !IsNotValidColumnIndex(s)
  {
    assert Upper(s)[0] == 'X' || Upper(s)[0] == 'E';
    assert UpperChar(s[0]) == Upper(s)[0];
    assert !IsWhiteSpace(s[0]);
    forall i | 0 <= i < |s|
      ensures !IsDigit(s[i])
    {
      assert UpperChar(s[i]) == Upper(s)[i];
    }
  }

  /** An exit token fails the row validator, which runs before the exit check. */
  lemma ExitTokensAreInvalidRows(s: string)
    requires IsExit(s)
    ensures IsNotValidRowIndex(s)
  {
    assert Upper(s)[0] == 'X' || Upper(s)[0] == 'E';
    assert UpperChar(s[0]) == Upper(s)[0];
    assert !IsDigit(s[0]);
  }

  /** The row prompt can never be left by typing x or exit. */
  lemma {:induction false} RowPromptNeverCancels(answers: seq<string>, rowCount: nat)
    ensures PromptRow(answers, rowCount).0 != Cancelled
    decreases |answers|
  {
    if |answers| > 0 {
      var a := answers[0];
      if IsExit(a) {
        ExitTokensAreInvalidRows(a);
      }
      RowPromptNeverCancels(answers[1..], rowCount);
    }
  }

  /** The column prompt is left on an exit token, in any case. */
  lemma ColumnPromptCancelsOnExit(answers: seq<string>, columnCount: nat)
    requires |answers| >= 1 && IsExit(answers[0])
    ensures PromptColumn(answers, columnCount) == (Cancelled, answers[1..])
  {
    ExitTokensAreValidColumns(answers[0]);
  }

  /** The hints themselves are never checked for exit tokens: "x" is column 24. */
  lemma ExitHintIsAColumn(answers: seq<string>, columnCount: nat)
    requires columnCount >= 24
    ensures ResolveColumnKey("x", answers, columnCount) == (Done(24), answers)
  {
    assert Upper("x") == "X";
    assert ColumnValue("X") == ColumnValue("") * 26 + 24;
  }

  /** Non-letters are not rejected and indices below 1 pass: "@" is column 0. */
  lemma NonLetterHintIsAColumn(answers: seq<string>, columnCount: nat)
    ensures ResolveColumnKey("@", answers, columnCount) == (Done(0), answers)
  {
    assert Upper("@") == "@";
    assert ColumnValue("@") == ColumnValue("") * 26 + 0;
    assert !IsNotValidColumnIndex("@");
  }

  /** Row hint "0" passes both row checks and yields header row index -1. */
  lemma ZeroRowHintGivesMinusOne(answers: seq<string>, rowCount: nat)
    ensures ResolveHeaderRow("0", answers, rowCount) == (Done(-1), answers)
  {
    assert DecimalValue("0") == DecimalValue("") * 10 + 0;
  }
}

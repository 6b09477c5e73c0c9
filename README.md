# ExcelCompare in Dafny

ExcelCompare is a console tool that compares two Excel workbooks sheet by sheet. It writes every numeric cell that differs into a CSV report.

This project models the core of the `compare` command:

- **Column-letter codec** (`ColumnLetters`): `GetExcelColumnLetters` and `GetExcelColumnLettersAsIndex`. The second one includes its 32-bit wrap-around.
- **Key resolution** (`KeyResolver`, plus `Commands.SheetKeys`).
  - It covers the hint validators `IsExit`, `IsNotValidColumnIndex`, `IsNotLocatedColumnIndex`, `IsNotValidRowIndex` and `IsNotLocatedRowIndex`.
  - It covers the console loops that ask for a key column and a header row until an answer is accepted.
  - The console is a scripted sequence of answers. Every function hands back the answers it did not consume. When the answers run out, the outcome is `AwaitingInput`.
- **Sheet normalization** (`Normalizer`). `GetDataSet` changes each `DataTable` in place in four passes:
  1. rename every column to `{letters} - caption`;
  2. insert the `UNIQUE_IDENTIFIER` column and number the rows from 1;
  3. delete the rows whose first examined cell is neither "null" nor a number;
  4. coerce every cell except the identifier and the key column to a double.

  The table is then cloned, with the columns from ordinal 2 on typed double. The in-place passes are the methods of the class `Normalizer.Sheet`. The reference definition is `Normalizer.NormalizedTable`.
- **The comparison loops** (`Differ`).
  - For every sheet of the first data set that the second also has, every row and every double-typed column, a record `sht, ltr, num, cCap, rCap, v1, v2, d, abs` is emitted when both cells hold unequal doubles.
  - An exception raised inside the loops (a row index past the end, a missing second cell, a column name without `} - `) ends the command at its top-level handler.
- **The sort** (`Ranker`): the `DataView` sort "sht, abs desc", with sheet names ascending and then absolute differences descending.
- **The CSV writer** (`Csv`): `DataTableExtensions.WriteToCsvFile`. The header holds the bare column names, every data field is wrapped in double quotes, nothing is escaped, and each trailing comma is overwritten by the line break.
- **The whole command** (`Commands`): `GetDataSet` for both workbooks, then the loops, the sort and the CSV text.
  - `Commands.Compare` is proved equal to the reference function `Commands.CompareOf`.
  - The command ends in one of five ways: the text it would write, "no differences", an abort (GetDataSet returned null), an exception caught at the top level, or a prompt still waiting.

`Common` holds the shared values:

- cells (`DBNull`, text, double, identifier), raw and normalized tables, and outcomes;
- the culture, which the model takes as a parameter: a parse function standing for double.TryParse and a print function standing for double.ToString;
- the 32-bit wrap-around `Wrap32`.

`IsExit`, `IsNotLocatedColumnIndex`, `Normalizer.KeepRow` and `Csv.CsvText` are written directly as predicates or functions without an `ensures`. The lemmas in the table below state their properties.

Behaviour of the code worth knowing:

- **Pruning.** Both branches of the inner loop break (`ExcelCompare/Utils/Helpers.cs:202-215`). So only the first examined cell decides whether a row is kept: ordinal 1, or ordinal 2 when the key column is 1. See `Normalizer.KeepRowExaminesOneCell`.
- **Leaving the row prompt.** The row prompt can never be left with "x" or "exit". The validity check rejects those answers before the exit check is reached (`Helpers.cs:146-155`). See `KeyResolver.RowPromptNeverCancels`. Only the column prompt cancels (`Commands.SheetOnlyCancelledByColumnPrompt`).
- **The row guard.** The row guard `table2.Rows.Count >= thisRowIndex` lets through the index equal to the row count. Indexing that row throws (`Differ.OffByOneRowGuardCrashes`). This is modelled as written.
- **The header row stays a data row.** The header row is not removed: it is pruned or kept like any other row. `num` is the row's identifier. `rCap` is the cell at ordinal 1, which is the original first column and not necessarily the key column.
- **Row hints.** A header-row hint of "0" passes both row checks, becomes index -1 and throws. A row hint of digits above Int32.MaxValue throws at `Convert.ToInt32`.

## Model

| member | source | states |
|---|---|---|
| Common.FindName | ExcelCompare/Utils/Commands.cs:81-82 | The result is the first index holding the name. It is None exactly when the name is absent. |
| Common.Wrap32 | ExcelCompare/Utils/Helpers.cs:284-290 | The result is in the Int32 range, and is the identity on values already in that range. |
| ColumnLetters.Letters | ExcelCompare/Utils/Helpers.cs:262-276 | The result is "" for numbers <= 0, consists of upper-case letters only, and is non-empty for numbers >= 1. |
| ColumnLetters.LettersAsIndex | ExcelCompare/Utils/Helpers.cs:278-293 | The result is an error (ArgumentNullException) exactly for the empty name; otherwise the sum is a 32-bit integer. |
| ColumnLetters.GetExcelColumnLetters | ExcelCompare/Utils/Helpers.cs:262-276 | The loop computes exactly Letters(columnNumber). |
| ColumnLetters.GetExcelColumnLettersAsIndex | ExcelCompare/Utils/Helpers.cs:278-293 | The loop, with its wrapping int arithmetic, computes exactly LettersAsIndex(columnName). |
| ColumnLetters.UpperOfLetters | ExcelCompare/Utils/Helpers.cs:282 | Upper-casing leaves a string of capital letters unchanged. |
| ColumnLetters.ColumnValueNonNegative | ExcelCompare/Utils/Helpers.cs:286-290 | The base-26 value of capital letters is >= 0, and >= 1 when the string is non-empty. |
| ColumnLetters.LettersThenValue | ExcelCompare/Utils/Helpers.cs:262-276 | Decoding the letters of any n >= 0 gives n back. |
| ColumnLetters.ValueThenLetters | ExcelCompare/Utils/Helpers.cs:262-276 | Encoding the value of any capital-letter string gives the string back. |
| ColumnLetters.CodecRoundTrip | ExcelCompare/Utils/Helpers.cs:262-293 | GetExcelColumnLettersAsIndex(GetExcelColumnLetters(n)) == n for every 1 <= n <= Int32.MaxValue. |
| ColumnLetters.IndexRoundTrip | ExcelCompare/Utils/Helpers.cs:262-293 | A non-empty capital-letter name whose value fits in Int32 decodes, and encodes back to itself. |
| ColumnLetters.CodecExamples | ExcelCompare/Utils/Helpers.cs:262-276 | 1, 26, 27 and 702 encode as A, Z, AA and ZZ. |
| ColumnLetters.LettersAsIndexIgnoresCase | ExcelCompare/Utils/Helpers.cs:282 | Two names that agree up to case decode to the same result. |
| ColumnLetters.LowerCaseLettersAsIndex | ExcelCompare/Utils/Helpers.cs:282 | A lower-cased name decodes as the original name does. |
| ColumnLetters.ColumnValueStrictlyIncreasing | ExcelCompare/Utils/Helpers.cs:286-290 | Among capital-letter names of equal length, alphabetical order is numeric order. |
| ColumnLetters.LettersAsIndexStrictlyIncreasing | ExcelCompare/Utils/Helpers.cs:278-293 | The same holds for the decoded Int32 values, when they are in range. |
| KeyResolver.IsNotValidColumnIndex | ExcelCompare/Utils/Helpers.cs:48-52 | An accepted column hint always decodes without an exception. |
| KeyResolver.IsNotValidRowIndex | ExcelCompare/Utils/Helpers.cs:59-63 | An accepted row hint never makes Convert.ToInt32 throw a FormatException. |
| KeyResolver.IsNotLocatedRowIndex | ExcelCompare/Utils/Helpers.cs:65-68 | For a digit string, it throws exactly when the number exceeds Int32.MaxValue. It answers "located" exactly when the number converts and is at most the row count. |
| KeyResolver.PromptColumn | ExcelCompare/Utils/Helpers.cs:94-124 | An accepted answer is at most the column count (0 and negative values pass). The loop never throws. It consumes a prefix of the answers. |
| KeyResolver.PromptRow | ExcelCompare/Utils/Helpers.cs:138-166 | An accepted answer gives a header index between -1 and rowCount - 1. Its only exception is the Int32 overflow. It consumes a prefix of the answers. |
| KeyResolver.ResolveColumnKey | ExcelCompare/Utils/Helpers.cs:87-129 | The key column is at most the column count, no exception escapes, and it consumes a prefix of the answers. |
| KeyResolver.ResolveHeaderRow | ExcelCompare/Utils/Helpers.cs:131-171 | The header index is between -1 and rowCount - 1, an overflow is the only exception, and it consumes a prefix of the answers. |
| KeyResolver.PromptColumnLoop | ExcelCompare/Utils/Helpers.cs:94-124 | The while loop returns exactly what PromptColumn defines. |
| KeyResolver.PromptRowLoop | ExcelCompare/Utils/Helpers.cs:138-166 | The while loop returns exactly what PromptRow defines. |
| KeyResolver.ExitTokensAreValidColumns | ExcelCompare/Utils/Helpers.cs:102-111 | "x" and "exit", in any case, pass the column validity check, so the exit check is reached. |
| KeyResolver.ExitTokensAreInvalidRows | ExcelCompare/Utils/Helpers.cs:146-155 | "x" and "exit" fail the row validity check, so the row exit check is never reached. |
| KeyResolver.RowPromptNeverCancels | ExcelCompare/Utils/Helpers.cs:138-166 | The row prompt never returns null, whatever is typed. |
| KeyResolver.ColumnPromptCancelsOnExit | ExcelCompare/Utils/Helpers.cs:107-111 | An exit token as the next answer cancels, consuming exactly that answer. |
| KeyResolver.ExitHintIsAColumn | ExcelCompare/Utils/Helpers.cs:87-129 | The caller's hint "x" is taken as column X (24) without prompting. |
| KeyResolver.NonLetterHintIsAColumn | ExcelCompare/Utils/Helpers.cs:87-129 | The hint "@" passes both checks and gives key column 0 without prompting. |
| KeyResolver.ZeroRowHintGivesMinusOne | ExcelCompare/Utils/Helpers.cs:131-171 | The hint "0" passes both row checks and gives header index -1 without prompting. |
| Normalizer.CaptionedNames | ExcelCompare/Utils/Helpers.cs:185-190 | There is one new name per header cell. |
| Normalizer.Numbered | ExcelCompare/Utils/Helpers.cs:192-198 | No row is added or lost when the identifier column is inserted. |
| Normalizer.FirstExamined | ExcelCompare/Utils/Helpers.cs:202-206 | The examined ordinal is within the row, at or after the start, and never the key column. |
| Normalizer.Pruned | ExcelCompare/Utils/Helpers.cs:200-218 | Deleting rows never adds rows, and every surviving row passes the keep test. |
| Normalizer.CoercedRow | ExcelCompare/Utils/Helpers.cs:220-238 | The identifier and key cells are unchanged, every other cell from ordinal 1 on is a double, and the length is kept. |
| Normalizer.Coerced | ExcelCompare/Utils/Helpers.cs:220-240 | The coercion keeps every row. |
| Normalizer.TypedColumns | ExcelCompare/Utils/Helpers.cs:242-247 | The clone has one column per name. |
| Normalizer.Sheet.constructor | ExcelCompare/Utils/Helpers.cs:82-85 | The sheet holds the decoded table's name, rows and column count. |
| Normalizer.Sheet.RenameColumns | ExcelCompare/Utils/Helpers.cs:185-190 | Column k is renamed "{letters of k+1} - caption k" from the header row. Rows and name are unchanged. |
| Normalizer.Sheet.AddIdentifierColumn | ExcelCompare/Utils/Helpers.cs:192-198 | UNIQUE_IDENTIFIER comes first, and row i holds the identifier i + 1 in front of its old cells. |
| Normalizer.Sheet.PruneRows | ExcelCompare/Utils/Helpers.cs:200-218 | The rows become exactly Pruned(old rows). Column names are unchanged. |
| Normalizer.Sheet.CoerceCells | ExcelCompare/Utils/Helpers.cs:220-240 | The rows become exactly Coerced(old rows). Column names are unchanged. |
| Normalizer.Sheet.Normalize | ExcelCompare/Utils/Helpers.cs:185-254 | The four passes in order leave the table equal to NormalizedTable of the original sheet. |
| Normalizer.KeepRowExaminesOneCell | ExcelCompare/Utils/Helpers.cs:202-215 | A row is kept exactly when its cell at ordinal 1 (ordinal 2 when the key is 1) is acceptable, or when it has no such cell. |
| Normalizer.PrunedRowsNamedById | ExcelCompare/Utils/Helpers.cs:200-218 | Every surviving row is the original row that its identifier names. |
| Normalizer.PrunedIdsIncreasing | ExcelCompare/Utils/Helpers.cs:200-218 | Surviving rows keep their original order: identifiers increase strictly. |
| Normalizer.PrunedKeepsExactly | ExcelCompare/Utils/Helpers.cs:200-218 | Row j survives exactly when it passes the keep test. |
| Normalizer.NumberedIds | ExcelCompare/Utils/Helpers.cs:195-198 | After numbering, row i carries identifier i + 1. |
| Normalizer.LettersDetermineName | ExcelCompare/Utils/Helpers.cs:189 | Names with different letter prefixes differ, whatever their captions. |
| Normalizer.ColumnNamesDistinct | ExcelCompare/Utils/Helpers.cs:189 | Two ordinals never get the same column name, so renaming cannot collide. |
| Normalizer.CaptionedNamesDistinct | ExcelCompare/Utils/Helpers.cs:187-190 | All renamed columns of a sheet have pairwise distinct names. |
| Normalizer.NormalizedColumns | ExcelCompare/Utils/Helpers.cs:185-247 | Column 0 is UNIQUE_IDENTIFIER, column k + 1 is "{letters} - caption" of original column k, and exactly the ordinals >= 2 are double. |
| Normalizer.NormalizedRows | ExcelCompare/Utils/Helpers.cs:192-252 | Every row of the result is the coerced, numbered original row its identifier names, in original order. |
| Normalizer.NormalizedKeepsExactly | ExcelCompare/Utils/Helpers.cs:200-252 | Original row j appears in the result exactly when its numbered form passes the keep test. |
| Differ.LastIndexFrom | ExcelCompare/Utils/Commands.cs:106 | The result is -1 or an occurrence of the pattern at or before i, with no occurrence after it up to i. |
| Differ.LastIndexOf | ExcelCompare/Utils/Commands.cs:106 | The result is -1 or the last occurrence of the pattern. |
| Differ.MakeRecord | ExcelCompare/Utils/Commands.cs:106-119 | A record is built exactly when "} - " occurs past index 0 and the row has a second cell; it holds the sheet, row[0], row[1], v1, v2, v1 - v2 and its absolute value. A missing delimiter and a row without a second cell give their own errors, each exactly in its case. |
| Differ.CellDiff | ExcelCompare/Utils/Commands.cs:99-122 | A record appears exactly when both cells are unequal doubles and the record can be built. The row-index exception happens exactly when table 1's cell is a double, table 2 has a column of that name, and the index equals table 2's row count. The delimiter error and the missing-cell error happen exactly when the cells differ and the record cannot be built for that reason. Nothing is collected exactly when the cells do not differ and the row-index exception does not happen. The record holds the compared values. |
| Differ.DoubleColumnsUpTo | ExcelCompare/Utils/Commands.cs:84-92 | The result holds exactly the double-typed ordinals below n, in increasing order. |
| Differ.DoubleColumns | ExcelCompare/Utils/Commands.cs:84-92 | The result holds exactly the double-typed columns of the table, in order. |
| Differ.SheetsDiffErrLater | ExcelCompare/Utils/Commands.cs:77-128 | Once a sheet raised an exception, no later sheet changes the outcome. |
| Differ.CrashEndsComparison | ExcelCompare/Utils/Commands.cs:94-159 | An exception at any cell of any shared sheet is the outcome of the whole comparison. |
| Differ.CollectDoubleColumns | ExcelCompare/Utils/Commands.cs:84-92 | The foreach collects exactly DoubleColumns(table1). |
| Differ.CompareCell | ExcelCompare/Utils/Commands.cs:99-122 | The condition and the record construction give exactly CellDiff. |
| Differ.CompareRows | ExcelCompare/Utils/Commands.cs:94-126 | The nested loops over rows and double columns extend the records as TableDiff does. The counter equals the number of records. |
| Differ.CompareSheets | ExcelCompare/Utils/Commands.cs:75-128 | The loops over the sheets give exactly Differences, and the counter is the number of records found. |
| Differ.DifferencesSound | ExcelCompare/Utils/Commands.cs:77-119 | Every record has v1 != v2, d = v1 - v2 and abs = abs(d) > 0, and names a sheet present in both data sets. |
| Differ.UnsharedSheetAddsNothing | ExcelCompare/Utils/Commands.cs:81-82 | A sheet the second workbook does not have adds no record. |
| Differ.ExtendMember | ExcelCompare/Utils/Commands.cs:121 | Adding a cell's outcome keeps the records collected so far and adds exactly the new record, if any. |
| Differ.InRowStep | ExcelCompare/Utils/Commands.cs:99-123 | A record comes from the first n columns of a row exactly when it comes from the first n - 1 or from column n. |
| Differ.RowDiffMember | ExcelCompare/Utils/Commands.cs:99-123 | After a row's cells are compared, a record is collected exactly when it was collected before or some compared cell of that row produced it. |
| Differ.InTableStep | ExcelCompare/Utils/Commands.cs:94-126 | A record comes from the first m rows exactly when it comes from the first m - 1 or from row m. |
| Differ.TableDiffMember | ExcelCompare/Utils/Commands.cs:94-126 | After a sheet's rows are compared, a record is collected exactly when it was collected before or some cell of some row produced it. |
| Differ.FoundAmongStep | ExcelCompare/Utils/Commands.cs:77-128 | A record comes from the first k sheets exactly when it comes from the first k - 1 or from sheet k. |
| Differ.SheetsDiffMember | ExcelCompare/Utils/Commands.cs:77-128 | After k sheets, a record is collected exactly when a cell of one of those sheets, compared with the same-named sheet of the second workbook, produced it. |
| Differ.DifferencesComplete | ExcelCompare/Utils/Commands.cs:77-128 | When no exception is raised, the records returned are exactly those that some differing double cell of a sheet shared by both workbooks produced. |
| Differ.OffByOneRowGuardCrashes | ExcelCompare/Utils/Commands.cs:102-103 | When the second sheet has fewer rows and row Count of the first sheet has a double in a shared column, the comparison ends in an exception. |
| Differ.LastDelimiterOfName | ExcelCompare/Utils/Commands.cs:106 | In "{letters} - caption" with a caption free of "} - ", the last "} - " sits right after the letters. |
| Differ.ReplacePrefixOfName | ExcelCompare/Utils/Commands.cs:114 | Removing "{letters} - " from such a name leaves exactly the caption. |
| Differ.SplitColumnName | ExcelCompare/Utils/Commands.cs:106-114 | Such a name splits into its letters (ltr) and caption (cCap). |
| Differ.RecordOfNamedColumn | ExcelCompare/Utils/Commands.cs:106-119 | A difference in a column named "{letters} - caption" yields a record with those letters, that caption and num = row[0]. |
| Ranker.Insert | ExcelCompare/Utils/Commands.cs:137-139 | Inserting adds exactly one record and keeps the others. |
| Ranker.Rank | ExcelCompare/Utils/Commands.cs:137-139 | Sorting is a permutation of the records. |
| Ranker.RankSorts | ExcelCompare/Utils/Commands.cs:137-139 | The sorted table is ordered by sheet ascending, then abs descending, and is a permutation of the input. |
| Ranker.RankedBeforeTransitive | ExcelCompare/Utils/Commands.cs:138 | The sort order "sht, abs desc" is transitive. |
| Ranker.RankedBeforeTotal | ExcelCompare/Utils/Commands.cs:138 | Any two records are comparable in the sort order. |
| Ranker.RankedSameSheet | ExcelCompare/Utils/Commands.cs:138 | Within one sheet a sorted table lists larger absolute differences first. |
| Ranker.NotStrictlyBefore | ExcelCompare/Utils/Commands.cs:138 | A record that does not strictly precede another in the sort order comes at or after it. |
| Ranker.StrictlyThenRanked | ExcelCompare/Utils/Commands.cs:138 | Strictly preceding a record that precedes a third means strictly preceding the third, with a different sort key. |
| Ranker.InsertTied | ExcelCompare/Utils/Commands.cs:137-139 | Inserting into a sorted table puts the new record after the records that share its sheet and abs. |
| Ranker.RankStable | ExcelCompare/Utils/Commands.cs:137-139 | The sort is stable: for every sheet and abs, the records with that key keep the order in which they were found. |
| Csv.CommaTerminated | ExcelCompare/Extensions/DataTableExtensions.cs:13-16 | Appending "item," per item ends with a comma when there are items, and is empty otherwise. |
| Csv.ReplaceLastComma | ExcelCompare/Extensions/DataTableExtensions.cs:18 | A final comma becomes the line break, and any other final character is left alone. |
| Csv.CommaTerminatedIsJoin | ExcelCompare/Extensions/DataTableExtensions.cs:13-16 | "item," per item is the comma-joined items plus one comma. |
| Csv.CloseLine | ExcelCompare/Extensions/DataTableExtensions.cs:18 | Replacing the trailing comma turns the items into one comma-separated line. |
| Csv.CloseHeader | ExcelCompare/Extensions/DataTableExtensions.cs:13-18 | The header becomes the names joined by commas plus the line break. |
| Csv.CloseRow | ExcelCompare/Extensions/DataTableExtensions.cs:20-28 | Each data row adds its quoted fields joined by commas and a line break, and a row of no fields adds nothing. |
| Csv.AppendColumnNames | ExcelCompare/Extensions/DataTableExtensions.cs:13-16 | The loop appends exactly "name," per column. |
| Csv.AppendFields | ExcelCompare/Extensions/DataTableExtensions.cs:22-25 | The loop appends exactly "\"field\"," per field. |
| Csv.WriteToCsvFile | ExcelCompare/Extensions/DataTableExtensions.cs:9-31 | The builder holds exactly CsvText: the header line, then one quoted line per row. With no columns it is the exception of Replace at index -1. |
| Csv.CsvEndsWithNewLine | ExcelCompare/Extensions/DataTableExtensions.cs:9-31 | With at least one column the text is written and ends with the line break. |
| Csv.CsvLineCount | ExcelCompare/Extensions/DataTableExtensions.cs:9-31 | With no line feed in any field, the file has 1 + (number of rows) lines. |
| Csv.FieldsAreNotEscaped | ExcelCompare/Extensions/DataTableExtensions.cs:24 | A field holding `","` is written exactly like two separate fields, because quotes are not escaped. |
| Csv.HeaderIsNotQuoted | ExcelCompare/Extensions/DataTableExtensions.cs:15 | A column name holding a comma reads as two header fields. |
| Csv.FieldCommasArePreserved | ExcelCompare/Extensions/DataTableExtensions.cs:24 | A comma inside a quoted field survives the trailing-comma replacement. |
| Commands.SheetKeys | ExcelCompare/Utils/Helpers.cs:87-183 | Both keys resolved means a key column of at most the column count (0 and negative values pass) and a header row that exists. The answers consumed are a prefix. |
| Commands.SheetOf | ExcelCompare/Utils/Helpers.cs:82-254 | A loaded sheet is well formed, keeps the sheet name and has one column more than the raw sheet. |
| Commands.LoadedTable | ExcelCompare/Utils/Helpers.cs:242-254 | The clone is well formed, keeps the name and has width + 1 columns. |
| Commands.DataSetUpTo | ExcelCompare/Utils/Helpers.cs:82-255 | A finished data set has one well-formed table per sheet. The answers consumed are a prefix. |
| Commands.ResolveKeyColumn | ExcelCompare/Utils/Helpers.cs:87-129 | The statement block gives exactly ResolveColumnKey. |
| Commands.ResolveHeaderRowIndex | ExcelCompare/Utils/Helpers.cs:131-171 | The statement block gives exactly ResolveHeaderRow. |
| Commands.LoadSheet | ExcelCompare/Utils/Helpers.cs:82-254 | The loop body for one sheet, with its in-place normalization, gives exactly SheetOf. |
| Commands.GetDataSet | ExcelCompare/Utils/Helpers.cs:70-260 | The foreach over the sheets gives exactly DataSetOf, stopping at the first sheet that returns null or throws. |
| Commands.RecordFields | ExcelCompare/Utils/Commands.cs:53-73 | A result row prints one field per result column. |
| Commands.Compare | ExcelCompare/Utils/Commands.cs:46-159 | The command gives exactly CompareOf: abort, exception, no differences, or the CSV text and the count. |
| Commands.ReportCountsAndSorts | ExcelCompare/Utils/Commands.cs:75-142 | A file is written exactly when differences were found. The count equals the number of records. The text is the CSV of a permutation of the records, sorted by sheet and then by abs descending, with equal keys left in the order found. Otherwise the command ends with "no differences" or an exception. |
| Commands.ReportLineCount | ExcelCompare/Utils/Commands.cs:130-142 | The written file has one header line and one line per difference, when no field holds a line feed. |
| Commands.KeysOnlyCancelledByColumnPrompt | ExcelCompare/Utils/Helpers.cs:87-183 | Key resolution returns null exactly when the column prompt was exited. |
| Commands.SheetOnlyCancelledByColumnPrompt | ExcelCompare/Utils/Helpers.cs:87-183 | A sheet is cancelled exactly when the column prompt was exited: neither the row prompt nor the bounds checks return null. |
| Commands.ExitAtFirstColumnPromptAborts | ExcelCompare/Utils/Commands.cs:46-47 | Exiting at the first column prompt ends the command without a file. |
| Commands.DataSetCancelledStays | ExcelCompare/Utils/Helpers.cs:82-255 | Once a sheet returned null or threw, no later sheet is looked at. |
| Commands.DataSetStopped | ExcelCompare/Utils/Helpers.cs:82-255 | One more sheet after a stop changes nothing. |
| Commands.ZeroHeaderRowFails | ExcelCompare/Utils/Helpers.cs:170-185 | A header hint "0" makes the sheet throw at `Rows[-1]`. |
| Commands.OverflowingRowHintFails | ExcelCompare/Utils/Helpers.cs:131 | A row hint of digits beyond Int32.MaxValue makes the sheet throw. |
| Commands.NormalizedRecordFields | ExcelCompare/Utils/Commands.cs:106-115 | In a normalized sheet, a difference in column c >= 2 yields a record. Its ltr is the letters of c, its cCap is the header text and its num is the row identifier. |

## Left out

- File handling is not modelled: `GetValidExcelFile`, the existence checks, the duplicate-path loop, the default output path built from the clock, `File.WriteAllText`, and Program.cs. The model stops at the text that would be written.
- Workbook decoding by ExcelDataReader is not modelled. A decoded workbook is the input: sheets of `DBNull` and text cells, where the text is each value's `ToString()`.
- The console prompts are a scripted sequence of answers. Console output, colours and `GetYesNo` with `Process.Start` are left out, since they do not affect the result.
- double.TryParse and double.ToString are culture-dependent and use floating point. They are parameters of the model, and doubles are modelled as reals. Rounding, NaN and infinities are not modelled.
- Character classes are ASCII only in `IsWhiteSpace`, `IsDigit` and the case mappings. .NET's Unicode categories and culture-specific upper-casing are not modelled.
- Null strings are not modelled. The caller's hints and the prompt answers are always strings.
- `DataSet.Tables.Contains` and the indexer are case-insensitive in .NET. The model matches sheet names and column names exactly.
- `ImportRow` converts the values of a key column at ordinal >= 2 to double, because that column is double-typed in the source. The source then compares it like any other double column, and a non-numeric key text makes `ImportRow` throw, so the command fails. The model keeps the key cell as text, does not compare it, and writes the report.
- The `DataView` sort compares `sht` with the culture's string collation. The model uses ordinal string order. For equal sheet and abs, the model's insertion sort keeps the order in which records were added (`Ranker.RankStable`).
- Csv.NewLine: is fixed to "\r\n", the value of `Environment.NewLine` on Windows. On other systems .NET uses "\n", which the model does not cover.
- `String.LastIndexOf` is culture-sensitive in .NET. The model searches ordinally.
- Commands.DataSetUpTo: does not state the sheet names of the finished data set. `Commands.SheetOf` states them one sheet at a time.
- Normalizer.TypedColumns: states only the column count. `Normalizer.NormalizedColumns` states the names and types.

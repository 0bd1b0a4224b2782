# Data Analyzer — cleaning pipeline model

A Dafny model of the cleaning pipeline of the Data Analyzer script (`DataAnalyzer.py`), with proofs of what it guarantees. The script does four things that are modelled here:

- It chooses a reader by testing the typed file name for ".csv", then ".xlsx".
- It cleans the loaded table: `dropna`, then `remove_outliers`, then `drop_duplicates`, then `clean_strings` on every text (object) column. It reports how many rows were removed.
- It runs `optional_operations`, a menu loop that repeats until the user exports. Choice 0 finishes and exports, choice 1 sets negative numbers to 0, and choice 2 drops a named column.
- It computes the path of the exported file.

The modules follow the script's structure:

| module | file | contents |
|---|---|---|
| `Seqs` | `seqs.dfy` | ordered filtering (`Filter`), duplicate removal keeping the first copy (`Dedup`), order-preserving subsequences |
| `Strings` | `strings.dfy` | ASCII `str.lower`, `str.strip`, the `in` substring test, `int()` on a line of input |
| `Stats` | `quantile.dfy` | pandas' default `quantile` (linear interpolation at position p·(n−1) of the sorted values), and the IQR fences |
| `Frames` | `frames.dfy` | the table (named, typed columns and rows of cells), `dropna`, `drop_duplicates`, cell-wise column rewriting |
| `Outliers` | `outliers.dfy` | `remove_outliers`, as a method whose loop makes one filtering pass per numeric column |
| `CleanStrings` | `clean_strings.dfy` | `clean_strings` on one value |
| `Menu` | `menu.dfy` | `optional_operations`, as a method whose loop runs over a scripted sequence of input lines |
| `Pipeline` | `pipeline.dfy` | the file-type test, the preprocessing order with its removed-row count, and `main` up to the menu's return |

Tables are values. Every stage of the script works on a copy: `df.copy()`, or a filtered or dropped frame. The input to a stage is therefore never changed, and the methods return new tables.

A cell is one of:
- `Num(real)`, a number of a numeric column;
- `Str(string)`, a string of an object column;
- `Missing`, which stands for NaN or None.

### Behaviour worth knowing

- **Export path.** The export path is built from the full name the user typed, extension included: `data.csv` exports to `Data-Analyzer/Cleaned_Dataset/data.csv_clean.csv`.
- **Idempotence of cleaning.** `clean_strings` is not idempotent. Trimming happens before special characters are deleted, so `"a !"` cleans to `"a "`, and cleaning that again gives `"a"`. See `CleanStrings.NotIdempotent` and `CleanStrings.CleanStringIdempotentIff`.
- **The ages example.** With ages 25, 200 and 30, Q1 = 27.5 and Q3 = 115, so the fences are −103.75 and 246.25. 200 is not an outlier, and its row is kept (`Pipeline.AgesFences`).
- **When fences are computed.** Each numeric column's fences are computed on the table as the passes over the earlier columns left it.
- **Menu numbers.** Among ASCII characters, `int()` skips only tab, line feed, vertical tab, form feed, carriage return and space around a number. The separators 0x1C–0x1F count as whitespace for `str.strip` but make `int()` raise (`Strings.SeparatorNotIntSpace`). `int()` also refuses more than 4300 digits.

## Model

| member | source | states |
|---|---|---|
| Stats.InsertSpec | DataAnalyzer.py:23-24 | inserting a value into sorted values keeps them sorted and adds exactly that value |
| Stats.SortSpec | DataAnalyzer.py:23-24 | the values the quantile reads are in ascending order and are a permutation of the column's values |
| Stats.Lerp | DataAnalyzer.py:23-24 | interpolating between two neighbouring order statistics stays between them |
| Stats.Position | DataAnalyzer.py:23-24 | the position p·(n−1) of a quantile lies between the first and the last position, 0 and n−1 |
| Stats.PositionMonotone | DataAnalyzer.py:23-25 | a larger p reads a later position |
| Stats.InterpolateMonotone | DataAnalyzer.py:23-25 | interpolated values grow with the position |
| Stats.QuantileOfSorted | DataAnalyzer.py:23-24 | a quantile of a non-empty column lies between its smallest and largest value |
| Stats.QuantileMonotone | DataAnalyzer.py:23-25 | quantiles grow with p, so Q1 <= Q3 and the IQR is never negative |
| Stats.FencesOf | DataAnalyzer.py:22-29 | fences exist exactly when the column has a value; lower <= Q1 <= Q3 <= upper, and the fences are 4·IQR apart |
| Stats.FencesWithinRange | DataAnalyzer.py:23-24 | Q1 and Q3 are bounded by values of the column |
| Stats.FencesEncloseAValue | DataAnalyzer.py:28-32 | some value of every non-empty column lies between its own fences |
| Frames.ColumnNumbersFrom | DataAnalyzer.py:23-24 | every number the quantile reads is the cell of some row in that column |
| Frames.DropNASpec | DataAnalyzer.py:158 | dropna keeps exactly the rows without a missing value, in order and each as often as it occurs, under the same columns |
| Frames.DropDuplicatesSpec | DataAnalyzer.py:166 | drop_duplicates keeps one copy of every distinct row and nothing else, in order of first occurrence (keep='first'); a second call changes nothing |
| Frames.MapKindStep | DataAnalyzer.py:75-79 | replacing column k extends the rewrite of the first k columns of a kind to k + 1; other kinds are skipped |
| Frames.ColumnIndex | DataAnalyzer.py:88 | the position found holds the name asked for; when none is found, no column has that name |
| Outliers.RemoveOutliers | DataAnalyzer.py:13-34 | the loop's result is the table after one filtering pass per numeric column, each with fences taken from the table left by the passes before it |
| Outliers.KeepWithinSpec | DataAnalyzer.py:32 | one pass keeps exactly the rows whose cell lies within the fences, in order and each as often as it occurs, under the same columns |
| Outliers.FilteredShape | DataAnalyzer.py:15-32 | after any number of passes the columns are unchanged and the rows are an order-preserving selection of the input's |
| Outliers.FilteredShrinks | DataAnalyzer.py:18-32 | a later pass only removes rows |
| Outliers.FilteredMembers | DataAnalyzer.py:18-32 | a row survives exactly when it is an input row that lies within every numeric column's fences |
| Outliers.SurvivorsWithinFences | DataAnalyzer.py:22-32 | every surviving row's value in each numeric column lies between that pass's fences, and lower <= upper |
| Outliers.RemoveOutliersShape | DataAnalyzer.py:13-34 | same columns, order-preserving selection of the rows, and a well-formed table stays well-formed |
| Outliers.TextOnlyUnchanged | DataAnalyzer.py:18-20 | text columns impose no filter: a table without numeric columns comes back unchanged |
| Outliers.PassKeepsARow | DataAnalyzer.py:22-32 | a pass over a fully numeric column of a non-empty table keeps at least one row |
| Outliers.NeverEmpties | DataAnalyzer.py:13-34 | on a non-empty table without missing values, remove_outliers never removes every row |
| Strings.LowerSpec | DataAnalyzer.py:38 | lower-casing keeps the length, leaves no upper-case letter, changes nothing else and is idempotent |
| Strings.StripSpec | DataAnalyzer.py:40 | strip returns exactly the slice between the first and last non-whitespace characters |
| Strings.StripTrimmed | DataAnalyzer.py:40 | a string with no whitespace at either end is unchanged by strip |
| Strings.ContainsAt | DataAnalyzer.py:130-136 | `p in s` holds exactly when p occurs at some position of s |
| Strings.IntStripSpec | DataAnalyzer.py:51 | int() drops exactly the tab, line-feed, vertical-tab, form-feed, carriage-return and space characters at both ends |
| Strings.ParseDigits | DataAnalyzer.py:51 | a run of at most 4300 digits reads as its decimal value |
| Strings.ParseNegative | DataAnalyzer.py:51 | a minus sign followed by at most 4300 digits reads as the negated value |
| Strings.ParseIntTooLong | DataAnalyzer.py:51 | more than 4300 digits make int() raise ValueError |
| Strings.SeparatorNotIntSpace | DataAnalyzer.py:51 | a digit between two 0x1C separators makes int() raise, although str.isspace holds for 0x1C |
| Strings.ParseIntString | DataAnalyzer.py:51 | int() reads back every integer that str() writes, that is, of at most 4300 digits |
| Strings.IntStripPadded | DataAnalyzer.py:51 | int() whitespace of any length before and, independently, after a trimmed line is removed and nothing else |
| Strings.ParseIntPadded | DataAnalyzer.py:51 | any number of tab, line-feed, vertical-tab, form-feed, carriage-return and space characters before and, independently, after a menu line do not change what int() reads |
| Strings.ParseDigit | DataAnalyzer.py:51 | a single digit reads as its value |
| CleanStrings.CleanString | DataAnalyzer.py:36-43 | every character of a cleaned value is a lower-case ASCII letter, a digit or whitespace |
| CleanStrings.CleanStringSelects | DataAnalyzer.py:38-42 | the cleaned value is an in-order selection of the lowered, stripped value, holding exactly its kept characters, each as often as it occurs, interior whitespace included |
| CleanStrings.CleanStringTwice | DataAnalyzer.py:38-42 | cleaning twice equals cleaning once and stripping the whitespace that the deletion uncovered |
| CleanStrings.CleanStringIdempotentIff | DataAnalyzer.py:38-42 | cleaning is idempotent on a value exactly when its cleaned form neither starts nor ends with whitespace |
| CleanStrings.TrimBeforeDelete | DataAnalyzer.py:38-42 | a lower-case letter or digit, a space and a special character clean to the letter and the space; cleaning again drops the space |
| CleanStrings.NotIdempotent | DataAnalyzer.py:38-42 | "a !" cleans to "a ", which cleans to "a" |
| Menu.ZeroNegativeColumns | DataAnalyzer.py:73-79 | the column loop of choice 1 yields every numeric column passed through `0 if x < 0 else x` |
| Menu.ZeroNegativesSpec | DataAnalyzer.py:75-79 | after choice 1: every numeric value >= 0, negatives became 0, others unchanged, text and missing cells untouched, same columns and rows |
| Menu.ZeroNegativesIdempotent | DataAnalyzer.py:73-79 | choosing 1 again changes nothing |
| Menu.DropColumnSpec | DataAnalyzer.py:85-90 | dropping fails exactly when no column has the name; otherwise only that column is gone, every other column has the same cells, and the row count is unchanged |
| Menu.ColumnIndexUnique | DataAnalyzer.py:88 | with distinct names, the column called n is the one at n's position |
| Menu.FormatChoiceIgnoresCase | DataAnalyzer.py:55-60 | the format answer is read regardless of letter case; only answers of 3 or 5 characters choose a format |
| Menu.ExportPathEnd | DataAnalyzer.py:60-66 | the last letter of the path tells csv from xlsx |
| Menu.ExportPathInjective | DataAnalyzer.py:59-67 | different file names or formats never share an export path |
| Menu.MenuRound | DataAnalyzer.py:49-93 | a round that goes on consumes at least one and at most all remaining input lines |
| Menu.OptionalOperations | DataAnalyzer.py:45-93 | the menu loop run on a script of input lines returns what the menu's definition says: an export or the exception that ends the program |
| Menu.ExportsOnlyOnFinish | DataAnalyzer.py:53-69 | the loop returns only after a 0 followed by csv or excel in any letter case, and writes to the path built from the full file name |
| Menu.RoundKeepsRows | DataAnalyzer.py:73-90 | one round keeps a well-formed table well-formed, keeps its rows and at most removes a column |
| Menu.MenuKeepsRows | DataAnalyzer.py:45-93 | the exported table is well-formed, has the input's row count, and its columns are an order-preserving selection of the input's |
| Menu.MenuRowCount | DataAnalyzer.py:45-93 | the menu never adds or removes a row |
| Menu.ChoiceZero | DataAnalyzer.py:53-71 | choice 0 with csv or excel exports the current table; any other format returns to the menu with the table unchanged |
| Menu.ChoiceOne | DataAnalyzer.py:73-79 | choice 1 zeroes the negatives and returns to the menu |
| Menu.ChoiceTwo | DataAnalyzer.py:81-90 | choice 2 drops the named column if present; an absent or missing name leaves the table unchanged |
| Menu.OtherChoice | DataAnalyzer.py:92-93 | any other number leaves the table unchanged and returns to the menu |
| Menu.ZeroThenExport | DataAnalyzer.py:49-79 | an invalid choice, then 1, then 0 and csv exports the table with its negatives zeroed |
| Menu.MenuNumbers | DataAnalyzer.py:51 | the lines "0", "1", "7" read as those numbers |
| Menu.FormatAnswers | DataAnalyzer.py:55-60 | "CSV" chooses csv; "xlsx" is not a known answer |
| Menu.ExportPathExample | DataAnalyzer.py:59-62 | data.csv exports to data.csv_clean.csv |
| Menu.NoFinishCrashes | DataAnalyzer.py:49-71 | a script without a 0 followed by csv or excel never returns normally: it ends with EOFError or with int()'s ValueError |
| Pipeline.CsvAnywhere | DataAnalyzer.py:130-133 | a name holding ".csv" anywhere is read as CSV, even when ".csv" is not its extension |
| Pipeline.ExcelByExtension | DataAnalyzer.py:130-140 | a name ending in ".xlsx" is read as Excel exactly when the rest of the name holds no ".csv" |
| Pipeline.NoDotUnsupported | DataAnalyzer.py:130-144 | a name without a '.' is refused |
| Pipeline.Preprocess | DataAnalyzer.py:157-178 | the preprocessing steps yield dropna, then remove_outliers, then drop_duplicates, then clean_strings on each text column, and the removed count is before minus after |
| Pipeline.ReducedSpec | DataAnalyzer.py:157-166 | before cleaning, the rows are distinct and exactly the complete input rows that pass every fence, in order, never more than the input's, and in the order in which they first occur in the table drop_duplicates receives |
| Pipeline.CleanTextSpec | DataAnalyzer.py:175-178 | cleaning changes only text cells, each by clean_strings, and keeps columns, row count and well-formedness |
| Pipeline.PreprocessedCells | DataAnalyzer.py:157-178 | the menu receives no missing value, only cleaned text, and only numbers within their column's fences |
| Pipeline.RemovedCount | DataAnalyzer.py:169-171 | the reported removed count is never negative and equals the rows lost before cleaning |
| Pipeline.ReducedTextOnly | DataAnalyzer.py:157-166 | distinct complete rows with only text columns pass the three reducing steps unchanged |
| Pipeline.CleanTextTwoRows | DataAnalyzer.py:175-178 | case variants of one value become equal rows |
| Pipeline.CaseVariantsSurvive | DataAnalyzer.py:165-178 | rows differing only in letter case survive drop_duplicates and reach the menu as equal rows |
| Pipeline.AgesFences | DataAnalyzer.py:22-32 | for the ages 25, 200, 30 the fences are −103.75 and 246.25, so 200 stays |
| Pipeline.Analyze | DataAnalyzer.py:124-185 | `main` up to the menu's return agrees with the session's definition: load, preprocess, report, menu |
| Pipeline.SavedSession | DataAnalyzer.py:148-185 | a session that saves had a supported name, writes loaded minus removed rows, removes between 0 and all rows, and uses the csv or xlsx export path of the typed name |

## Left out

- `calculate_stats`, `visualize`, and the part of `main` after the menu returns (statistics, preview, plot prompts). These are wrappers over pandas and plotting libraries.
- Reading and writing files. `read_csv` and `read_excel` become the parameter `read` of `Pipeline.RunSession`, which returns None when the reader raised. The export is modelled only by its path, not by the written content.
- Console output and ANSI colours. The file name typed at the first prompt is a parameter. Every later `input()` reads the next line of a finite script, and the end of the script raises EOFError.
- In-place column assignment (`df[column] = ...`) is modelled as reassigning a table value. The script copies the table at every stage, so nothing else can observe the update.
- IEEE floating point. Numbers are exact reals. NaN is the `Missing` cell, and infinities are not modelled.
- pandas' dtype inference. Each column carries a kind, Numeric or Text. Boolean, datetime and categorical columns are not modelled, nor are object columns holding non-strings, which `.str` methods would turn into NaN.
- Row index labels. The export passes `index=False`, so the index never reaches the output.
- Duplicate column names. Well-formed tables have distinct names, as the readers rename repeated headers.
- Strings.Lower: ASCII only; Python's `str.lower` also maps non-ASCII letters.
- Strings.Strip: ASCII whitespace only (code points 9–13 and 28–32); Python's `str.strip` and regex `\s` also match other Unicode spaces.
- Strings.ParseInt: ASCII digits and ASCII whitespace only; `int()` also accepts other Unicode decimal digits and skips Unicode whitespace around them.
- Strings.ParseInt: the digit limit is CPython's default of 4300 (Python 3.11, and 3.7.14, 3.8.14, 3.9.14 and 3.10.7 onward); `sys.set_int_max_str_digits` and the `PYTHONINTMAXSTRDIGITS` setting can change it, and earlier releases have no limit.
- Strings.ParseIntString: the round trip is stated for integers of at most 4300 digits, because `str()` raises ValueError for longer ones under the same limit.
- CleanStrings.CleanString: keeps ASCII whitespace only; the regex's `\s` also keeps other Unicode whitespace.
- Menu.OptionalOperations: the loop ends because the script of input lines is finite; on a terminal it can run forever.
- Pipeline.SavedSession: the session ends when the menu returns; the statistics and plotting that follow are not modelled.

/** `optional_operations`: the menu loop run on the cleaned table, with its
    three actions — zero out negative numbers, drop a named column, finish
    and export — driven by a scripted sequence of input lines. */
module Menu {
  import opened Seqs
  import opened Strings
  import opened Frames

  // ----- Choice 1: convert negative values to 0 -----

  /** `lambda x: 0 if x < 0 else x`; a missing value compares false and
      stays missing. */
  function ZeroCell(cell: Cell): Cell
  {
    match cell
    case Num(x) => if x < 0.0 then Num(0.0) else cell
    case _ => cell
  }

  /** The table with every numeric column passed through ZeroCell. */
  function ZeroNegatives(t: Frame): Frame
  {
    MapKind(t, Numeric, ZeroCell, |t.columns|)
  }

  /** Choice 1: the loop over the columns that replaces each numeric column
      in place. */
  method ZeroNegativeColumns(df: Frame) returns (r: Frame)
    ensures r == ZeroNegatives(df)
  {
    r := df;
    MapKindNone(df, Numeric, ZeroCell);
    for c := 0 to |df.columns|
      invariant r == MapKind(df, Numeric, ZeroCell, c)
    {
      MapKindStep(df, Numeric, ZeroCell, c);
      if r.columns[c].kind == Numeric {
        r := MapColumn(r, c, ZeroCell);
      }
    }
  }

  /** After choice 1 every number of a numeric column is at least 0, the
      negative ones became 0 and the others are unchanged; text columns,
      missing values, the columns and the row count are untouched. */
  lemma ZeroNegativesSpec(t: Frame)
    requires WellFormed(t)
    ensures var r := ZeroNegatives(t);
      && r.columns == t.columns
      && |r.rows| == |t.rows|
      && WellFormed(r)
      && forall i, c :: 0 <= i < |t.rows| && 0 <= c < |t.rows[i]| && c < |t.columns| ==>
        && |r.rows[i]| == |t.rows[i]|
        && (t.columns[c].kind == Text ==> r.rows[i][c] == t.rows[i][c])
        && (t.rows[i][c].Missing? ==> r.rows[i][c].Missing?)
        && (t.rows[i][c].Num? && t.columns[c].kind == Numeric ==>
             && r.rows[i][c].Num?
             && r.rows[i][c].x >= 0.0
             && (t.rows[i][c].x >= 0.0 ==> r.rows[i][c] == t.rows[i][c])
             && (t.rows[i][c].x < 0.0 ==> r.rows[i][c].x == 0.0))
  {
    var r := ZeroNegatives(t);
    var n := |t.columns|;
    forall i, c | 0 <= i < |t.rows| && 0 <= c < |t.rows[i]| && c < n
      ensures r.rows[i][c] == if t.columns[c].kind == Numeric then ZeroCell(t.rows[i][c]) else t.rows[i][c]
    {
      assert r.rows[i] == MapRow(t.rows[i], t.columns, Numeric, ZeroCell, n);
    }
    forall row | row in r.rows
      ensures RowFits(row, r.columns)
    {
      var i :| 0 <= i < |r.rows| && r.rows[i] == row;
      assert t.rows[i] in t.rows;
      forall c | 0 <= c < |row|
        ensures Fits(row[c], r.columns[c].kind)
      {
        assert Fits(t.rows[i][c], t.columns[c].kind);
      }
    }
  }

  /** Choosing 1 a second time changes nothing. */
  lemma ZeroNegativesIdempotent(t: Frame)
    ensures ZeroNegatives(ZeroNegatives(t)) == ZeroNegatives(t)
  {
    var r := ZeroNegatives(t);
    var rr := ZeroNegatives(r);
    var n := |t.columns|;
    forall i | 0 <= i < |t.rows|
      ensures rr.rows[i] == r.rows[i]
    {
      assert r.rows[i] == MapRow(t.rows[i], t.columns, Numeric, ZeroCell, n);
      assert rr.rows[i] == MapRow(r.rows[i], t.columns, Numeric, ZeroCell, n);
      forall j | 0 <= j < |r.rows[i]|
        ensures rr.rows[i][j] == r.rows[i][j]
      {
        if j < n && t.columns[j].kind == Numeric {
          assert r.rows[i][j] == ZeroCell(t.rows[i][j]);
        }
      }
    }
  }

  // ----- Choice 2: remove a column -----

  function RemoveAt<T>(s: seq<T>, c: nat): (r: seq<T>)
    requires c < |s|
    ensures |r| == |s| - 1
    ensures forall j :: 0 <= j < |r| ==> r[j] == if j < c then s[j] else s[j + 1]
  {
    s[..c] + s[c + 1..]
  }

  /** The table without its column at position `c`. */
  function DropAt(t: Frame, c: nat): Frame
    requires c < |t.columns|
  {
    Frame(RemoveAt(t.columns, c), seq(|t.rows|, i requires 0 <= i < |t.rows| =>
      if c < |t.rows[i]| then RemoveAt(t.rows[i], c) else t.rows[i]))
  }

  /** `df.drop(name, axis=1)`; None stands for the KeyError pandas raises
      when no column has that name. */
  function DropColumn(t: Frame, name: string): Option<Frame>
  {
    match ColumnIndex(t.columns, name)
    case None => None
    case Some(c) => Some(DropAt(t, c))
  }

  /** With distinct names, the column called `name` is the one at its
      position. */
  lemma {:induction false} ColumnIndexUnique(columns: seq<Column>, name: string, j: nat)
    requires UniqueNames(columns) && j < |columns| && columns[j].name == name
    ensures ColumnIndex(columns, name) == Some(j)
  {
    if j > 0 {
      ColumnIndexUnique(columns[1..], name, j - 1);
    }
  }

  /** Choice 2 with a name that is present removes exactly that column:
      afterwards no column has that name, every other column holds the same
      cells, and the row count is unchanged. With a name that is absent it
      fails, and the menu goes on with the table as it was. */
  lemma DropColumnSpec(t: Frame, name: string)
    requires WellFormed(t)
    ensures DropColumn(t, name).None? <==> forall j :: 0 <= j < |t.columns| ==> t.columns[j].name != name
    ensures DropColumn(t, name).Some? ==>
      var r := DropColumn(t, name).value;
      && WellFormed(r)
      && |r.rows| == |t.rows|
      && |r.columns| == |t.columns| - 1
      && Subseq(r.columns, t.columns)
      && Lookup(r, name).None?
      && forall other :: other != name ==> Lookup(r, other) == Lookup(t, other)
  {
    if ColumnIndex(t.columns, name).Some? {
      var c := ColumnIndex(t.columns, name).value;
      var r := DropColumn(t, name).value;
      DropColumnWellFormed(t, c);
      RemoveAtSubseq(t.columns, c);
      forall other | other != name
        ensures Lookup(r, other) == Lookup(t, other)
      {
        DropColumnLookup(t, c, other);
      }
    }
  }

  /** Removing one element leaves an order-preserving selection of the
      rest. */
  lemma {:induction false} RemoveAtSubseq<T>(s: seq<T>, c: nat)
    requires c < |s|
    ensures Subseq(RemoveAt(s, c), s)
    decreases c
  {
    var r := RemoveAt(s, c);
    if c == 0 {
      assert r == s[1..];
      SubseqRefl(s[1..]);
    } else {
      RemoveAtSubseq(s[1..], c - 1);
      assert r[0] == s[0];
      assert r[1..] == RemoveAt(s[1..], c - 1);
    }
  }


  /** Row `i` of a well-formed table loses its cell in column `c`. */
  lemma DropAtRow(t: Frame, c: nat, i: nat)
    requires WellFormed(t) && c < |t.columns| && i < |t.rows|
    ensures |t.rows[i]| == |t.columns|
    ensures DropAt(t, c).rows[i] == RemoveAt(t.rows[i], c)
  {
    assert t.rows[i] in t.rows;
  }

  lemma DropColumnWellFormed(t: Frame, c: nat)
    requires WellFormed(t) && c < |t.columns|
    ensures WellFormed(DropAt(t, c))
  {
    var r := DropAt(t, c);
    forall row | row in r.rows
      ensures RowFits(row, r.columns)
    {
      var i :| 0 <= i < |r.rows| && r.rows[i] == row;
      DropAtRow(t, c, i);
      assert RowFits(t.rows[i], t.columns) by {
        assert t.rows[i] in t.rows;
      }
    }
  }

  lemma DropColumnLookup(t: Frame, c: nat, other: string)
    requires WellFormed(t) && c < |t.columns| && t.columns[c].name != other
    ensures WellFormed(DropAt(t, c)) && Lookup(DropAt(t, c), other) == Lookup(t, other)
  {
    var r := DropAt(t, c);
    DropColumnWellFormed(t, c);
    match ColumnIndex(t.columns, other)
    case None =>
    case Some(j) =>
      var j' := if j < c then j else j - 1;
      assert r.columns[j'] == t.columns[j];
      ColumnIndexUnique(r.columns, other, j');
      var before, after := Lookup(t, other).value, Lookup(r, other).value;
      forall i | 0 <= i < |t.rows|
        ensures after[i] == before[i]
      {
        DropAtRow(t, c, i);
      }
      assert after == before;
  }


  // ----- Choice 0: finish and export -----

  datatype Format = Csv | Excel

  /** The answer to "csv or excel", compared after `.lower()`. */
  function FormatChoice(answer: string): Option<Format>
  {
    var a := Lower(answer);
    if a == "csv" then Some(Csv) else if a == "excel" then Some(Excel) else None
  }

  /** The answer is read without regard to letter case: a lower-cased
      answer chooses what the answer chooses, and only answers of three or
      five characters choose a format. */
  lemma FormatChoiceIgnoresCase(answer: string)
    ensures FormatChoice(Lower(answer)) == FormatChoice(answer)
    ensures FormatChoice(answer) == Some(Csv) ==> |answer| == 3
    ensures FormatChoice(answer) == Some(Excel) ==> |answer| == 5
  {
    LowerSpec(answer);
  }

  /** The path the cleaned table is written to: the full file name as the
      user typed it (extension included), then `_clean` and the extension of
      the chosen format. */
  function ExportPath(file: string, format: Format): string
  {
    "Data-Analyzer/Cleaned_Dataset/" + file + (if format == Csv then "_clean.csv" else "_clean.xlsx")
  }

  /** Different file names or formats never share an export path. */
  lemma ExportPathInjective(file1: string, format1: Format, file2: string, format2: Format)
    requires ExportPath(file1, format1) == ExportPath(file2, format2)
    ensures file1 == file2 && format1 == format2
  {
    var p := ExportPath(file1, format1);
    var dir := "Data-Analyzer/Cleaned_Dataset/";
    ExportPathEnd(file1, format1);
    ExportPathEnd(file2, format2);
    if format1 == format2 {
      assert |file1| == |file2|;
      assert file1 == p[|dir|..|dir| + |file1|];
    }
  }

  /** The last letter of the path tells the format. */
  lemma ExportPathEnd(file: string, format: Format)
    ensures var p := ExportPath(file, format);
      |p| > 0 && p[|p| - 1] == if format == Csv then 'v' else 'x'
  {
  }

  // ----- The loop -----

  datatype MenuError =
    | EndOfInput               // `input()` raised EOFError outside a handler
    | NotAnInteger(line: string) // `int()` raised ValueError on the choice

  /** How the loop ends: it returns the table after writing it to `path`,
      or an uncaught exception ends the program. */
  datatype Outcome = Exported(table: Frame, path: string, format: Format) | Crashed(error: MenuError)

  /** One round of the menu on the remaining input lines: finish, go on with
      a table after consuming `used` lines, or crash. */
  datatype Round = Finish(format: Format) | Continue(table: Frame, used: nat) | Abort(error: MenuError)

  function MenuRound(t: Frame, input: seq<string>): (r: Round)
    ensures r.Continue? ==> 1 <= r.used <= |input|
  {
    if |input| == 0 then Abort(EndOfInput)
    else match ParseInt(input[0])
      case None => Abort(NotAnInteger(input[0]))
      case Some(choice) =>
        if choice == 0 then
          if |input| < 2 then Abort(EndOfInput)
          else match FormatChoice(input[1])
            case Some(format) => Finish(format)
            case None => Continue(t, 2)
        else if choice == 1 then Continue(ZeroNegatives(t), 1)
        else if choice == 2 then
          // The bare `except` also catches the EOFError of a missing name.
          if |input| < 2 then Continue(t, 1)
          else match DropColumn(t, input[1])
            case Some(r) => Continue(r, 2)
            case None => Continue(t, 2)
        else Continue(t, 1)
  }

  /** What `optional_operations(t, file)` does with the input lines
      `input`. */
  function RunMenu(t: Frame, file: string, input: seq<string>): Outcome
    decreases |input|
  {
    match MenuRound(t, input)
    case Finish(format) => Exported(t, ExportPath(file, format), format)
    case Abort(error) => Crashed(error)
    case Continue(next, used) => RunMenu(next, file, input[used..])
  }

  /** `optional_operations(df, file)`, reading its answers from `input`. */
  method OptionalOperations(df: Frame, file: string, input: seq<string>) returns (outcome: Outcome)
    ensures outcome == RunMenu(df, file, input)
  {
    var current := df;
    var pos := 0;
    while true
      invariant pos <= |input|
      invariant RunMenu(current, file, input[pos..]) == RunMenu(df, file, input)
      decreases |input| - pos
    {
      ghost var rest := input[pos..];
      if pos == |input| {
        return Crashed(EndOfInput);
      }
      var line := input[pos];
      pos := pos + 1;
      assert rest[0] == line;
      var choice := ParseInt(line);
      if choice.None? {
        return Crashed(NotAnInteger(line));
      }
      match choice.value
      case 0 =>
        if pos == |input| {
          return Crashed(EndOfInput);
        }
        var answer := Lower(input[pos]);
        assert rest[1] == input[pos];
        pos := pos + 1;
        if answer == "csv" {
          return Exported(current, ExportPath(file, Csv), Csv);
        } else if answer == "excel" {
          return Exported(current, ExportPath(file, Excel), Excel);
        }
        assert rest[2..] == input[pos..];
      case 1 =>
        current := ZeroNegativeColumns(current);
        assert rest[1..] == input[pos..];
      case 2 =>
        if pos < |input| {
          var name := input[pos];
          assert rest[1] == name;
          pos := pos + 1;
          var dropped := DropColumn(current, name);
          if dropped.Some? {
            current := dropped.value;
          }
          assert rest[2..] == input[pos..];
        } else {
          assert rest[1..] == input[pos..];
        }
      case _ =>
        assert rest[1..] == input[pos..];
    }
  }

  // ----- What the loop guarantees -----

  /** Line `k` chooses 0 and line k + 1 names the format `format`. */
  predicate FinishAt(input: seq<string>, k: int, format: Format)
  {
    0 <= k && k + 1 < |input| && ParseInt(input[k]) == Some(0) && FormatChoice(input[k + 1]) == Some(format)
  }

  /** The loop returns only after a 0 followed by "csv" or "excel" in any
      letter case, and then writes to the path built from the full file
      name. */
  lemma {:induction false} ExportsOnlyOnFinish(t: Frame, file: string, input: seq<string>)
    requires RunMenu(t, file, input).Exported?
    ensures var out := RunMenu(t, file, input);
      && out.path == ExportPath(file, out.format)
      && exists k :: FinishAt(input, k, out.format)
    decreases |input|
  {
    match MenuRound(t, input)
    case Finish(format) =>
      assert FinishAt(input, 0, format);
    case Continue(next, used) =>
      ExportsOnlyOnFinish(next, file, input[used..]);
      var k :| FinishAt(input[used..], k, RunMenu(t, file, input).format);
      assert FinishAt(input, k + used, RunMenu(t, file, input).format);
  }

  /** Whatever the user does, a well-formed table stays well-formed, keeps
      its row count, and loses columns only: the exported table's columns
      are an order-preserving selection of the input's. */
  lemma {:induction false} MenuKeepsRows(t: Frame, file: string, input: seq<string>)
    requires WellFormed(t)
    requires RunMenu(t, file, input).Exported?
    ensures var r := RunMenu(t, file, input).table;
      WellFormed(r) && |r.rows| == |t.rows| && Subseq(r.columns, t.columns)
    decreases |input|
  {
    match MenuRound(t, input)
    case Finish(format) =>
      SubseqRefl(t.columns);
    case Continue(next, used) =>
      RoundKeepsRows(t, input);
      MenuKeepsRows(next, file, input[used..]);
      SubseqTrans(RunMenu(t, file, input).table.columns, next.columns, t.columns);
  }

  /** The menu never adds or removes a row. */
  lemma {:induction false} MenuRowCount(t: Frame, file: string, input: seq<string>)
    requires RunMenu(t, file, input).Exported?
    ensures |RunMenu(t, file, input).table.rows| == |t.rows|
    decreases |input|
  {
    match MenuRound(t, input)
    case Finish(format) =>
    case Continue(next, used) =>
      RoundRowCount(t, input);
      MenuRowCount(next, file, input[used..]);
  }

  lemma RoundRowCount(t: Frame, input: seq<string>)
    requires MenuRound(t, input).Continue?
    ensures |MenuRound(t, input).table.rows| == |t.rows|
  {
  }

  /** A round that returns to the menu leaves the table as it was, with its
      negatives zeroed, or without the column its second line names. */
  lemma RoundTable(t: Frame, input: seq<string>)
    requires MenuRound(t, input).Continue?
    ensures var next := MenuRound(t, input).table;
      || next == t
      || next == ZeroNegatives(t)
      || (|input| >= 2 && DropColumn(t, input[1]) == Some(next))
  {
  }

  /** One round of the menu keeps a well-formed table well-formed, keeps its
      rows and at most removes a column. */
  lemma RoundKeepsRows(t: Frame, input: seq<string>)
    requires WellFormed(t) && MenuRound(t, input).Continue?
    ensures var next := MenuRound(t, input).table;
      WellFormed(next) && |next.rows| == |t.rows| && Subseq(next.columns, t.columns)
  {
    RoundTable(t, input);
    var next := MenuRound(t, input).table;
    SubseqRefl(t.columns);
    if next == ZeroNegatives(t) {
      ZeroNegativesSpec(t);
    } else if next != t {
      DropColumnSpec(t, input[1]);
    }
  }

  /** Choice 0: a format of csv or excel ends the loop with the current
      table and its export path; any other answer returns to the menu with
      the table unchanged. */
  lemma ChoiceZero(t: Frame, file: string, input: seq<string>)
    requires |input| >= 2 && ParseInt(input[0]) == Some(0)
    ensures FormatChoice(input[1]).Some? ==>
      RunMenu(t, file, input) == Exported(t, ExportPath(file, FormatChoice(input[1]).value), FormatChoice(input[1]).value)
    ensures FormatChoice(input[1]).None? ==> RunMenu(t, file, input) == RunMenu(t, file, input[2..])
  {
  }

  /** Choice 1 zeroes the negatives and returns to the menu. */
  lemma ChoiceOne(t: Frame, file: string, input: seq<string>)
    requires |input| >= 1 && ParseInt(input[0]) == Some(1)
    ensures RunMenu(t, file, input) == RunMenu(ZeroNegatives(t), file, input[1..])
  {
  }

  /** Choice 2 drops the named column when it exists; a missing name, or no
      name at all, returns to the menu with the table unchanged. */
  lemma ChoiceTwo(t: Frame, file: string, input: seq<string>)
    requires |input| >= 1 && ParseInt(input[0]) == Some(2)
    ensures |input| == 1 ==> RunMenu(t, file, input) == RunMenu(t, file, [])
    ensures |input| >= 2 && DropColumn(t, input[1]).Some? ==>
      RunMenu(t, file, input) == RunMenu(DropColumn(t, input[1]).value, file, input[2..])
    ensures |input| >= 2 && DropColumn(t, input[1]).None? ==>
      RunMenu(t, file, input) == RunMenu(t, file, input[2..])
  {
  }

  /** Any other number prints an error and leaves the table as it was. */
  lemma OtherChoice(t: Frame, file: string, input: seq<string>)
    requires |input| >= 1 && ParseInt(input[0]).Some? && ParseInt(input[0]).value !in {0, 1, 2}
    ensures RunMenu(t, file, input) == RunMenu(t, file, input[1..])
  {
  }

  /** A session of an invalid choice, then choice 1, then choice 0 with
      the answer csv exports the table with its negatives zeroed. */
  lemma ZeroThenExport(t: Frame, file: string, input: seq<string>)
    requires |input| == 4
    requires ParseInt(input[0]).Some? && ParseInt(input[0]).value !in {0, 1, 2}
    requires ParseInt(input[1]) == Some(1) && ParseInt(input[2]) == Some(0)
    requires FormatChoice(input[3]) == Some(Csv)
    ensures RunMenu(t, file, input) == Exported(ZeroNegatives(t), ExportPath(file, Csv), Csv)
  {
    OtherChoice(t, file, input);
    ChoiceOne(t, file, input[1..]);
    assert input[1..][1..] == input[2..];
    ChoiceZero(ZeroNegatives(t), file, input[2..]);
  }

  /** The lines "7", "1" and "0" read as those numbers, so together with
      "CSV" they make such a session. */
  lemma MenuNumbers()
    ensures ParseInt("0") == Some(0) && ParseInt("1") == Some(1) && ParseInt("7") == Some(7)
  {
    ParseDigit('0');
    ParseDigit('1');
    ParseDigit('7');
  }

  /** The format answer is read in any letter case; an extension such as
      "xlsx" is not an answer the program knows. */
  lemma FormatAnswers()
    ensures FormatChoice("CSV") == Some(Csv) && FormatChoice("xlsx").None?
  {
    var upper := "CSV";
    assert ToLower(upper[0]) == 'c' && ToLower(upper[1]) == 's' && ToLower(upper[2]) == 'v';
    assert Lower(upper) == "csv";
  }

  /** On the file "data.csv" the export path keeps the input name's
      ".csv". */
  lemma ExportPathExample()
    ensures ExportPath("data.csv", Csv) == "Data-Analyzer/Cleaned_Dataset/data.csv_clean.csv"
  {
  }


  /** A script without a 0 followed by csv or excel never returns: the
      program ends with EOFError or with a ValueError from `int()`. */
  lemma NoFinishCrashes(t: Frame, file: string, input: seq<string>)
    requires forall k, format :: !FinishAt(input, k, format)
    ensures RunMenu(t, file, input).Crashed?
  {
    if RunMenu(t, file, input).Exported? {
      ExportsOnlyOnFinish(t, file, input);
    }
  }
}

/** `main`: choose a reader by the file name, load the table, preprocess it
    (dropna, remove_outliers, drop_duplicates, then clean_strings on every
    text column) and hand it to the optional-operations menu. */
module Pipeline {
  import opened Seqs
  import opened Strings
  import opened Stats
  import opened Frames
  import opened Outliers
  import opened CleanStrings
  import opened Menu

  // ----- Choosing a reader -----

  datatype FileKind = CsvFile | ExcelFile | Unsupported

  /** The reader is chosen by substring tests on the name, ".csv" first. */
  function Classify(fileName: string): FileKind
  {
    if Contains(fileName, ".csv") then CsvFile
    else if Contains(fileName, ".xlsx") then ExcelFile
    else Unsupported
  }

  /** Where the dataset is read from. */
  function DatasetPath(fileName: string): string
  {
    "Data-Analyzer/Dataset/" + fileName
  }

  lemma ContainsInfix(a: string, p: string, b: string)
    ensures Contains(a + p + b, p)
  {
    var s := a + p + b;
    assert s[|a|..|a| + |p|] == p;
    assert OccursAt(s, p, |a|);
    ContainsAt(s, p);
  }

  /** A name holding ".csv" anywhere is read as CSV, even when that is not
      its extension ("data.csv.xlsx", "notes.csvx"). */
  lemma CsvAnywhere(a: string, b: string)
    ensures Classify(a + ".csv" + b) == CsvFile
  {
    ContainsInfix(a, ".csv", b);
  }

  /** Text added after a string keeps every occurrence in it. */
  lemma ContainsExtended(base: string, tail: string, p: string)
    requires Contains(base, p)
    ensures Contains(base + tail, p)
  {
    ContainsAt(base, p);
    var i :| OccursAt(base, p, i);
    assert (base + tail)[i..i + |p|] == base[i..i + |p|];
    assert OccursAt(base + tail, p, i);
    ContainsAt(base + tail, p);
  }

  /** ".xlsx" has no 'v'. */
  lemma XlsxHasNoV(base: string)
    ensures forall j :: |base| <= j < |base| + 5 ==> (base + ".xlsx")[j] != 'v'
  {
  }

  /** An occurrence of ".csv" in `base + ".xlsx"` lies wholly in `base`. */
  lemma NoCsvAcrossXlsx(base: string)
    requires Contains(base + ".xlsx", ".csv")
    ensures Contains(base, ".csv")
  {
    var s := base + ".xlsx";
    ContainsAt(s, ".csv");
    var i :| OccursAt(s, ".csv", i);
    assert s[i + 3] == s[i..i + 4][3] == 'v';
    XlsxHasNoV(base);
    assert base[i..i + 4] == s[i..i + 4];
    assert OccursAt(base, ".csv", i);
    ContainsAt(base, ".csv");
  }

  /** A name ending in ".xlsx" is read as Excel exactly when the rest of
      the name holds no ".csv". */
  lemma ExcelByExtension(base: string)
    ensures Classify(base + ".xlsx") == ExcelFile <==> !Contains(base, ".csv")
  {
    ContainsInfix(base, ".xlsx", "");
    assert base + ".xlsx" + "" == base + ".xlsx";
    if Contains(base, ".csv") {
      ContainsExtended(base, ".xlsx", ".csv");
    } else if Contains(base + ".xlsx", ".csv") {
      NoCsvAcrossXlsx(base);
    }
  }

  /** An occurrence starts with the pattern's first character. */
  lemma OccursAtHead(s: string, p: string)
    requires |p| > 0
    ensures forall i :: OccursAt(s, p, i) ==> s[i] == p[0]
  {
    forall i | OccursAt(s, p, i)
      ensures s[i] == p[0]
    {
      assert s[i..i + |p|][0] == s[i];
    }
  }

  /** A name without a '.' is refused. */
  lemma NoDotUnsupported(fileName: string)
    requires '.' !in fileName
    ensures Classify(fileName) == Unsupported
  {
    ContainsAt(fileName, ".csv");
    ContainsAt(fileName, ".xlsx");
    OccursAtHead(fileName, ".csv");
    OccursAtHead(fileName, ".xlsx");
  }

  // ----- Preprocessing -----

  /** clean_strings applied to every text column of the table. */
  function CleanText(t: Frame): Frame
  {
    MapKind(t, Text, CleanCell, |t.columns|)
  }

  /** The table after dropna, remove_outliers and drop_duplicates. */
  function Reduced(t: Frame): Frame
  {
    var complete := DropNA(t);
    DropDuplicates(FilteredUpTo(complete, |complete.columns|))
  }

  /** The table `main` hands to the menu. */
  function Preprocessed(t: Frame): Frame
  {
    CleanText(Reduced(t))
  }

  /** The preprocessing part of `main`: each step makes a new table from the
      last; `removed` is the count printed as "Number of rows removed". */
  method Preprocess(df: Frame) returns (cleaned: Frame, removed: int)
    ensures cleaned == Preprocessed(df)
    ensures removed == |df.rows| - |Reduced(df).rows|
  {
    var numOfRows := |df.rows|;
    var t := DropNA(df);
    t := RemoveOutliers(t);
    t := DropDuplicates(t);
    removed := numOfRows - |t.rows|;
    cleaned := t;
    MapKindNone(t, Text, CleanCell);
    for c := 0 to |t.columns|
      invariant cleaned == MapKind(t, Text, CleanCell, c)
    {
      MapKindStep(t, Text, CleanCell, c);
      if cleaned.columns[c].kind == Text {
        cleaned := MapColumn(cleaned, c, CleanCell);
      }
    }
  }

  /** A row of the reduced table survived every step before cleaning: it is
      a row of the input, has no missing value and lies within the fences
      of every numeric column. Rows are distinct and no more than in the
      input, so the removed count is never negative, and they come in the
      order in which they first occur in the table drop_duplicates
      receives. */
  lemma ReducedSpec(t: Frame)
    requires WellFormed(t)
    ensures var r := Reduced(t);
      && r.columns == t.columns
      && WellFormed(r)
      && Distinct(r.rows)
      && FirstOccurrenceOrder(r.rows, FilteredUpTo(DropNA(t), |t.columns|).rows)
      && Subseq(r.rows, t.rows)
      && |r.rows| <= |t.rows|
      && forall row :: row in r.rows <==>
           row in t.rows && Missing !in row && PassesUpTo(DropNA(t), row, |t.columns|)
  {
    var complete := DropNA(t);
    DropNASpec(t);
    var filtered := FilteredUpTo(complete, |complete.columns|);
    RemoveOutliersShape(complete);
    DropDuplicatesSpec(filtered);
    SubseqTrans(Reduced(t).rows, filtered.rows, complete.rows);
    SubseqTrans(Reduced(t).rows, complete.rows, t.rows);
    SubseqLength(Reduced(t).rows, t.rows);
    forall row
      ensures row in Reduced(t).rows <==>
        row in t.rows && Missing !in row && PassesUpTo(complete, row, |t.columns|)
    {
      FilteredMembers(complete, |t.columns|, row);
    }
  }

  /** Cleaning changes no row count, no column, and no cell outside the
      text columns. */
  lemma CleanTextSpec(t: Frame)
    requires WellFormed(t)
    ensures var r := CleanText(t);
      && r.columns == t.columns
      && |r.rows| == |t.rows|
      && WellFormed(r)
      && forall i, c :: 0 <= i < |t.rows| && 0 <= c < |t.columns| ==>
        && |r.rows[i]| == |t.rows[i]| == |t.columns|
        && (t.columns[c].kind == Numeric ==> r.rows[i][c] == t.rows[i][c])
        && (t.columns[c].kind == Text ==> r.rows[i][c] == CleanCell(t.rows[i][c]))
  {
    var r := CleanText(t);
    var n := |t.columns|;
    forall i | 0 <= i < |t.rows|
      ensures |r.rows[i]| == |t.rows[i]| == n
      ensures r.rows[i] == MapRow(t.rows[i], t.columns, Text, CleanCell, n)
    {
      assert t.rows[i] in t.rows;
    }
    forall row | row in r.rows
      ensures RowFits(row, r.columns)
    {
      var i :| 0 <= i < |r.rows| && r.rows[i] == row;
      assert t.rows[i] in t.rows;
      forall c | 0 <= c < |row|
        ensures Fits(row[c], r.columns[c].kind)
      {
        assert Fits(t.rows[i][c], t.columns[c].kind);
        assert row[c] == if t.columns[c].kind == Text then CleanCell(t.rows[i][c]) else t.rows[i][c];
      }
    }
  }

  /** What the menu receives: every value is present; every text value is
      lower-case letters, digits and whitespace only; every numeric value is
      the input's own and lies within its column's fences (computed, pass
      by pass, on the table dropna left). */
  lemma PreprocessedCells(t: Frame, i: nat, c: nat)
    requires WellFormed(t)
    requires i < |Preprocessed(t).rows| && c < |t.columns|
    ensures var row := Preprocessed(t).rows[i];
      && |row| == |t.columns|
      && !row[c].Missing?
      && (t.columns[c].kind == Text ==>
            row[c].Str? && forall k :: 0 <= k < |row[c].s| ==>
              IsLower(row[c].s[k]) || IsDigit(row[c].s[k]) || IsSpace(row[c].s[k]))
      && (t.columns[c].kind == Numeric ==>
            && row[c].Num?
            && PassFences(DropNA(t), c).Some?
            && PassFences(DropNA(t), c).value.lower <= row[c].x <= PassFences(DropNA(t), c).value.upper)
  {
    var reduced := Reduced(t);
    ReducedSpec(t);
    CleanTextSpec(reduced);
    var src := reduced.rows[i];
    assert src in reduced.rows;
    assert Missing !in src && src in t.rows;
    assert src[c] in src;
    if t.columns[c].kind == Numeric {
      assert WithinFences(src, c, PassFences(DropNA(t), c));
    }
  }

  /** The removed count is what the three reducing steps took away: never
      negative, and the menu receives the remaining rows, one per distinct
      surviving row. */
  lemma RemovedCount(t: Frame)
    ensures 0 <= |t.rows| - |Reduced(t).rows|
    ensures |Preprocessed(t).rows| == |Reduced(t).rows|
  {
    var complete := DropNA(t);
    FilterSelects(Complete, t.rows);
    SubseqLength(complete.rows, t.rows);
    FilteredShape(complete, |complete.columns|);
    var filtered := FilteredUpTo(complete, |complete.columns|);
    SubseqLength(filtered.rows, complete.rows);
    DedupSpec(filtered.rows);
    SubseqLength(Reduced(t).rows, filtered.rows);
  }

  // ----- The whole session -----

  /** Why `main` stops without exporting: no table was loaded (the name was
      refused or reading failed, and `df.shape` raises NameError), or the
      menu's input raised. */
  datatype Failure = NoDataFrame | MenuInput(error: MenuError)

  datatype Session =
    | Saved(table: Frame, path: string, rowsLoaded: nat, rowsRemoved: int)
    | Stopped(failure: Failure)

  /** The part of `main` after loading: preprocess, report, run the menu. */
  function AfterLoading(t: Frame, fileName: string, input: seq<string>): Session
  {
    match RunMenu(Preprocessed(t), fileName, input)
    case Exported(table, path, _) => Saved(table, path, |t.rows|, |t.rows| - |Reduced(t).rows|)
    case Crashed(error) => Stopped(MenuInput(error))
  }

  /** `main` on the typed file name and the remaining input lines. `read`
      stands for the reader (`read_csv`, or `read_excel` with the sheet
      name): None when it raised. */
  function RunSession(fileName: string, read: (string, Option<string>) -> Option<Frame>, input: seq<string>): Session
  {
    match Classify(fileName)
    case Unsupported => Stopped(NoDataFrame)
    case CsvFile =>
      (match read(DatasetPath(fileName), None)
       case None => Stopped(NoDataFrame)
       case Some(t) => AfterLoading(t, fileName, input))
    case ExcelFile =>
      // A missing sheet name raises EOFError inside the reader's bare except.
      if |input| == 0 then Stopped(NoDataFrame)
      else match read(DatasetPath(fileName), Some(input[0]))
        case None => Stopped(NoDataFrame)
        case Some(t) => AfterLoading(t, fileName, input[1..])
  }

  /** `main`. */
  method Analyze(fileName: string, read: (string, Option<string>) -> Option<Frame>, input: seq<string>)
    returns (session: Session)
    ensures session == RunSession(fileName, read, input)
  {
    var rest := input;
    var loaded: Option<Frame> := None;
    var kind := Classify(fileName);
    if kind == CsvFile {
      loaded := read(DatasetPath(fileName), None);
    } else if kind == ExcelFile && |rest| > 0 {
      loaded := read(DatasetPath(fileName), Some(rest[0]));
      rest := rest[1..];
    }
    if loaded.None? {
      return Stopped(NoDataFrame);
    }
    var df := loaded.value;
    var numOfRows := |df.rows|;
    var cleaned, removed := Preprocess(df);
    var outcome := OptionalOperations(cleaned, fileName, rest);
    match outcome
    case Exported(table, path, _) =>
      session := Saved(table, path, numOfRows, removed);
    case Crashed(error) =>
      session := Stopped(MenuInput(error));
  }

  /** A saved session wrote a table with the loaded table's row count minus
      the removed rows, and to the export path of the typed name. */
  lemma SavedSession(fileName: string, read: (string, Option<string>) -> Option<Frame>, input: seq<string>)
    requires RunSession(fileName, read, input).Saved?
    ensures Classify(fileName) != Unsupported
    ensures var s := RunSession(fileName, read, input);
      && 0 <= s.rowsRemoved <= s.rowsLoaded
      && |s.table.rows| == s.rowsLoaded - s.rowsRemoved
      && (s.path == ExportPath(fileName, Csv) || s.path == ExportPath(fileName, Excel))
  {
    var rest := if Classify(fileName) == CsvFile then input else input[1..];
    var sheet := if Classify(fileName) == CsvFile then None else Some(input[0]);
    var t := read(DatasetPath(fileName), sheet).value;
    assert RunSession(fileName, read, input) == AfterLoading(t, fileName, rest);
    RemovedCount(t);
    ExportsOnlyOnFinish(Preprocessed(t), fileName, rest);
    MenuRowCount(Preprocessed(t), fileName, rest);
  }

  // ----- Worked examples -----

  lemma AgesSorted()
    ensures Sort([25.0, 200.0, 30.0]) == [25.0, 30.0, 200.0]
  {
    assert [25.0, 200.0, 30.0][1..] == [200.0, 30.0];
    assert [200.0, 30.0][1..] == [30.0];
    assert [30.0][1..] == [];
    assert Sort([30.0]) == [30.0];
    assert Sort([200.0, 30.0]) == Insert(200.0, [30.0]) == [30.0, 200.0];
  }

  /** The ages 25, 200, 30 have Q1 = 27.5 and Q3 = 115, so the fences are
      -103.75 and 246.25: 200 is not an outlier and the row holding it
      stays. */
  lemma AgesFences()
    ensures FencesOf([25.0, 200.0, 30.0]) == Some(Fences(27.5, 115.0, -103.75, 246.25))
    ensures WithinFences([Num(200.0)], 0, FencesOf([25.0, 200.0, 30.0]))
  {
    var s := [25.0, 30.0, 200.0];
    AgesSorted();
    assert (0.25 * 2.0).Floor == 0;
    assert (0.75 * 2.0).Floor == 1;
    assert Interpolate(s, 0.5) == 27.5;
    assert Interpolate(s, 1.5) == 115.0;
  }

  /** A table of distinct complete rows and text columns only is unchanged
      by dropna, remove_outliers and drop_duplicates. */
  lemma ReducedTextOnly(t: Frame)
    requires forall i :: 0 <= i < |t.rows| ==> Complete(t.rows[i])
    requires forall c :: 0 <= c < |t.columns| ==> t.columns[c].kind == Text
    requires Distinct(t.rows)
    ensures Reduced(t) == t
  {
    FilterAllKept(Complete, t.rows);
    assert DropNA(t) == t;
    TextOnlyUnchanged(t, |t.columns|);
    DedupDistinct(t.rows);
  }

  /** Duplicates are removed before cleaning, so two one-column rows whose
      values differ only in letter case both reach the menu, and there they
      are equal. */
  lemma CaseVariantsSurvive(name: string, a: string, b: string)
    requires a != b && Lower(a) == Lower(b)
    ensures var t := Frame([Column(name, Text)], [[Str(a)], [Str(b)]]);
      && Reduced(t) == t
      && Distinct(Reduced(t).rows)
      && |Preprocessed(t).rows| == 2
      && Preprocessed(t).rows[0] == Preprocessed(t).rows[1]
  {
    var t := Frame([Column(name, Text)], [[Str(a)], [Str(b)]]);
    assert t.rows[0] != t.rows[1] by {
      assert t.rows[0][0] != t.rows[1][0];
    }
    ReducedTextOnly(t);
    assert Preprocessed(t) == CleanText(t);
    CleanTextTwoRows(t, a, b);
  }

  lemma CleanTextTwoRows(t: Frame, a: string, b: string)
    requires |t.columns| == 1 && t.columns[0].kind == Text && t.rows == [[Str(a)], [Str(b)]]
    ensures CleanText(t).rows == [[Str(CleanString(a))], [Str(CleanString(b))]]
    ensures Lower(a) == Lower(b) ==> CleanText(t).rows[0] == CleanText(t).rows[1]
  {
    CleanOneCell(t.columns, a);
    CleanOneCell(t.columns, b);
    var r := CleanText(t);
    assert r.rows[0] == MapRow(t.rows[0], t.columns, Text, CleanCell, 1);
    assert r.rows[1] == MapRow(t.rows[1], t.columns, Text, CleanCell, 1);
  }

  lemma CleanOneCell(columns: seq<Column>, a: string)
    requires |columns| == 1 && columns[0].kind == Text
    ensures MapRow([Str(a)], columns, Text, CleanCell, 1) == [Str(CleanString(a))]
  {
    assert MapRow([Str(a)], columns, Text, CleanCell, 1)[0] == CleanCell(Str(a));
  }
}

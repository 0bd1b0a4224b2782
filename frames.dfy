/** The in-memory table the analyzer cleans (a pandas DataFrame), and the
    whole-table operations the pipeline applies to it: `dropna`,
    `drop_duplicates`, and replacing one column by a cell-wise function of
    itself. */
module Frames {
  import opened Seqs

  /** One value: a number of a numeric column, a string of an object
      (text) column, or a missing value (NaN / None). */
  datatype Cell = Num(x: real) | Str(s: string) | Missing

  /** The column's dtype as the source tests it: numeric
      (`is_numeric_dtype`) or object (`dtype == 'object'`). */
  datatype Kind = Numeric | Text

  datatype Column = Column(name: string, kind: Kind)

  type Row = seq<Cell>

  datatype Frame = Frame(columns: seq<Column>, rows: seq<Row>)

  predicate Fits(cell: Cell, kind: Kind)
  {
    match kind
    case Numeric => cell.Num? || cell.Missing?
    case Text => cell.Str? || cell.Missing?
  }

  /** A row has one cell per column, each of the column's kind. */
  predicate RowFits(row: Row, columns: seq<Column>)
  {
    |row| == |columns| && forall c :: 0 <= c < |row| ==> Fits(row[c], columns[c].kind)
  }

  predicate UniqueNames(columns: seq<Column>)
  {
    forall i, j :: 0 <= i < j < |columns| ==> columns[i].name != columns[j].name
  }

  /** The shape every loaded table has: distinct column names (the readers
      rename repeated headers) and rectangular, well-typed rows. */
  predicate WellFormed(t: Frame)
  {
    UniqueNames(t.columns) && forall row :: row in t.rows ==> RowFits(row, t.columns)
  }

  /** A table whose rows are an order-preserving selection of a
      well-formed table's rows is well-formed. */
  lemma SubrowsWellFormed(t: Frame, rows: seq<Row>)
    requires WellFormed(t) && Subseq(rows, t.rows)
    ensures WellFormed(Frame(t.columns, rows))
  {
    forall row | row in rows
      ensures RowFits(row, t.columns)
    {
      SubseqMember(rows, t.rows, row);
    }
  }

  /** The numbers of column `c`, in row order; missing cells are skipped, as
      pandas' `quantile` skips NaN. */
  function ColumnNumbers(rows: seq<Row>, c: nat): (values: seq<real>)
    ensures |values| <= |rows|
  {
    if |rows| == 0 then []
    else if c < |rows[0]| && rows[0][c].Num? then [rows[0][c].x] + ColumnNumbers(rows[1..], c)
    else ColumnNumbers(rows[1..], c)
  }

  /** Every number of the column comes from a row of the table. */
  lemma {:induction false} ColumnNumbersFrom(rows: seq<Row>, c: nat, k: nat) returns (row: Row)
    requires k < |ColumnNumbers(rows, c)|
    ensures row in rows && c < |row| && row[c] == Num(ColumnNumbers(rows, c)[k])
  {
    if c < |rows[0]| && rows[0][c].Num? {
      if k == 0 {
        row := rows[0];
      } else {
        row := ColumnNumbersFrom(rows[1..], c, k - 1);
      }
    } else {
      row := ColumnNumbersFrom(rows[1..], c, k);
    }
  }

  /** A column with a number in it has a non-empty list of numbers. */
  lemma {:induction false} ColumnNumbersNonEmpty(rows: seq<Row>, c: nat, row: Row)
    requires row in rows && c < |row| && row[c].Num?
    ensures |ColumnNumbers(rows, c)| > 0
  {
    if rows[0] != row {
      ColumnNumbersNonEmpty(rows[1..], c, row);
    }
  }

  predicate Complete(row: Row)
  {
    Missing !in row
  }

  /** `df.dropna()`: the rows without a missing value. */
  function DropNA(t: Frame): Frame
  {
    Frame(t.columns, Filter(Complete, t.rows))
  }

  /** dropna keeps exactly the complete rows, in order and each as often as
      it occurs, under the same columns. */
  lemma DropNASpec(t: Frame)
    requires WellFormed(t)
    ensures DropNA(t).columns == t.columns && Subseq(DropNA(t).rows, t.rows)
    ensures forall row :: row in DropNA(t).rows <==> row in t.rows && Missing !in row
    ensures forall row :: multiset(DropNA(t).rows)[row] == if Missing !in row then multiset(t.rows)[row] else 0
    ensures WellFormed(DropNA(t))
  {
    FilterSelects(Complete, t.rows);
    SubrowsWellFormed(t, DropNA(t).rows);
  }

  /** `df.drop_duplicates()` with its default `keep='first'`. */
  function DropDuplicates(t: Frame): Frame
  {
    Frame(t.columns, Dedup(t.rows))
  }

  /** drop_duplicates keeps one copy of every distinct row and nothing
      else, in order; the copy kept is the first, so the rows come in the
      order of their first occurrence. Applying it twice changes nothing
      more. */
  lemma DropDuplicatesSpec(t: Frame)
    requires WellFormed(t)
    ensures DropDuplicates(t).columns == t.columns
    ensures Subseq(DropDuplicates(t).rows, t.rows) && Distinct(DropDuplicates(t).rows)
    ensures forall row :: row in DropDuplicates(t).rows <==> row in t.rows
    ensures FirstOccurrenceOrder(DropDuplicates(t).rows, t.rows)
    ensures WellFormed(DropDuplicates(t))
    ensures DropDuplicates(DropDuplicates(t)) == DropDuplicates(t)
  {
    DedupSpec(t.rows);
    DedupIdempotent(t.rows);
    SubrowsWellFormed(t, Dedup(t.rows));
  }

  /** `df[column] = df[column].apply(f)` / `= g(df[column])` for a cell-wise
      g: column `c` of every row replaced by `f` of its cell. */
  function MapColumn(t: Frame, c: nat, f: Cell -> Cell): Frame
  {
    Frame(t.columns, seq(|t.rows|, i requires 0 <= i < |t.rows| =>
      if c < |t.rows[i]| then t.rows[i][c := f(t.rows[i][c])] else t.rows[i]))
  }

  /** One row after the cells of its first `k` columns of kind `kind` went
      through `f`. */
  function MapRow(row: Row, columns: seq<Column>, kind: Kind, f: Cell -> Cell, k: nat): Row
  {
    seq(|row|, j requires 0 <= j < |row| =>
      if j < k && j < |columns| && columns[j].kind == kind then f(row[j]) else row[j])
  }

  /** The table after every column of kind `kind` among its first `k` went
      through `f`, the state of a loop over the columns that rewrites those
      columns one at a time. */
  function MapKind(t: Frame, kind: Kind, f: Cell -> Cell, k: nat): Frame
  {
    Frame(t.columns, seq(|t.rows|, i requires 0 <= i < |t.rows| =>
      MapRow(t.rows[i], t.columns, kind, f, k)))
  }

  lemma MapKindNone(t: Frame, kind: Kind, f: Cell -> Cell)
    ensures MapKind(t, kind, f, 0) == t
  {
    assert forall i :: 0 <= i < |t.rows| ==> MapRow(t.rows[i], t.columns, kind, f, 0) == t.rows[i];
  }

  /** Rewriting column `k` extends the rewrite of the first `k` columns to the
      first k + 1; a column of another kind is left as it is. */
  lemma MapKindStep(t: Frame, kind: Kind, f: Cell -> Cell, k: nat)
    requires k < |t.columns|
    ensures t.columns[k].kind == kind ==> MapKind(t, kind, f, k + 1) == MapColumn(MapKind(t, kind, f, k), k, f)
    ensures t.columns[k].kind != kind ==> MapKind(t, kind, f, k + 1) == MapKind(t, kind, f, k)
  {
    var before, after := MapKind(t, kind, f, k), MapKind(t, kind, f, k + 1);
    if t.columns[k].kind == kind {
      var stepped := MapColumn(before, k, f);
      forall i | 0 <= i < |t.rows|
        ensures after.rows[i] == stepped.rows[i]
      {
        var row := t.rows[i];
        if k < |row| {
          assert after.rows[i] == before.rows[i][k := f(row[k])];
        } else {
          assert after.rows[i] == before.rows[i];
        }
      }
    } else {
      forall i | 0 <= i < |t.rows|
        ensures after.rows[i] == before.rows[i]
      {
      }
    }
  }

  /** The position of the column called `name`. */
  function ColumnIndex(columns: seq<Column>, name: string): (r: Option<nat>)
    ensures r.Some? ==> r.value < |columns| && columns[r.value].name == name
    ensures r.None? ==> forall j :: 0 <= j < |columns| ==> columns[j].name != name
  {
    if |columns| == 0 then None
    else if columns[0].name == name then Some(0)
    else match ColumnIndex(columns[1..], name)
      case Some(j) => Some(j + 1)
      case None => None
  }

  /** `df[name]`: the cells of the column called `name`, if there is one. */
  function Lookup(t: Frame, name: string): Option<seq<Cell>>
    requires WellFormed(t)
  {
    match ColumnIndex(t.columns, name)
    case None => None
    case Some(c) => Some(seq(|t.rows|, i requires 0 <= i < |t.rows| => assert t.rows[i] in t.rows; t.rows[i][c]))
  }
}

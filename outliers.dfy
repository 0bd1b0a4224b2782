/** `remove_outliers`: an interquartile-range filter applied column by
    column, each numeric column's fences computed on the table as the
    earlier columns already left it. */
module Outliers {
  import opened Seqs
  import opened Stats
  import opened Frames

  /** The row's cell in column `c` is a number between the fences,
      inclusive. Without fences (the NaN quantiles of a column with no
      numbers) or on a missing cell both comparisons are false. */
  predicate WithinFences(row: Row, c: nat, fences: Option<Fences>)
  {
    fences.Some? && c < |row| && row[c].Num? && fences.value.lower <= row[c].x <= fences.value.upper
  }

  /** Q1, Q3 and the bounds of column `c` of `t`. */
  function ColumnFences(t: Frame, c: nat): Option<Fences>
  {
    FencesOf(ColumnNumbers(t.rows, c))
  }

  /** `df[(df[col] >= lower) & (df[col] <= upper)]`. */
  function KeepWithin(t: Frame, c: nat, fences: Option<Fences>): Frame
  {
    Frame(t.columns, Filter((row: Row) => WithinFences(row, c, fences), t.rows))
  }

  /** The table after the loop has visited its first `k` columns. */
  function FilteredUpTo(t: Frame, k: nat): Frame
    requires k <= |t.columns|
    decreases k
  {
    if k == 0 then t
    else
      var prev := FilteredUpTo(t, k - 1);
      if t.columns[k - 1].kind == Numeric then KeepWithin(prev, k - 1, ColumnFences(prev, k - 1))
      else prev
  }

  /** The fences the pass over column `c` uses: those of the table already
      filtered by the columns before it. */
  function PassFences(t: Frame, c: nat): Option<Fences>
    requires c <= |t.columns|
  {
    ColumnFences(FilteredUpTo(t, c), c)
  }

  /** `remove_outliers(df)`. The input is never changed; every pass makes a
      new table. */
  method RemoveOutliers(df: Frame) returns (cleaned: Frame)
    ensures cleaned == FilteredUpTo(df, |df.columns|)
  {
    cleaned := df;
    for c := 0 to |df.columns|
      invariant cleaned == FilteredUpTo(df, c)
      invariant cleaned.columns == df.columns
    {
      FilteredShape(df, c);
      if cleaned.columns[c].kind == Numeric {
        var values := ColumnNumbers(cleaned.rows, c);
        var fences: Option<Fences> := None;
        if |values| > 0 {
          var q1 := Quantile(values, 0.25);
          var q3 := Quantile(values, 0.75);
          var iqr := q3 - q1;
          var lower := q1 - 1.5 * iqr;
          var upper := q3 + 1.5 * iqr;
          fences := Some(Fences(q1, q3, lower, upper));
        }
        cleaned := KeepWithin(cleaned, c, fences);
      }
    }
  }

  /** One pass keeps exactly the rows within the fences, in order and each
      as often as it occurs, under the same columns. */
  lemma KeepWithinSpec(t: Frame, c: nat, fences: Option<Fences>)
    ensures KeepWithin(t, c, fences).columns == t.columns
    ensures Subseq(KeepWithin(t, c, fences).rows, t.rows)
    ensures forall row :: row in KeepWithin(t, c, fences).rows <==> row in t.rows && WithinFences(row, c, fences)
    ensures forall row ::
      multiset(KeepWithin(t, c, fences).rows)[row] == if WithinFences(row, c, fences) then multiset(t.rows)[row] else 0
  {
    FilterSelects((row: Row) => WithinFences(row, c, fences), t.rows);
  }

  /** The filtered table has the input's columns and an order-preserving
      selection of its rows. */
  lemma {:induction false} FilteredShape(t: Frame, k: nat)
    requires k <= |t.columns|
    ensures FilteredUpTo(t, k).columns == t.columns
    ensures Subseq(FilteredUpTo(t, k).rows, t.rows)
    decreases k
  {
    if k == 0 {
      SubseqRefl(t.rows);
    } else {
      var prev := FilteredUpTo(t, k - 1);
      FilteredShape(t, k - 1);
      if t.columns[k - 1].kind == Numeric {
        KeepWithinSpec(prev, k - 1, ColumnFences(prev, k - 1));
        SubseqTrans(FilteredUpTo(t, k).rows, prev.rows, t.rows);
      }
    }
  }

  /** One more pass only removes rows. */
  lemma FilteredStep(t: Frame, k: nat)
    requires 0 < k <= |t.columns|
    ensures Subseq(FilteredUpTo(t, k).rows, FilteredUpTo(t, k - 1).rows)
  {
    var prev := FilteredUpTo(t, k - 1);
    if t.columns[k - 1].kind == Numeric {
      var fences := ColumnFences(prev, k - 1);
      assert FilteredUpTo(t, k) == KeepWithin(prev, k - 1, fences);
      KeepWithinSpec(prev, k - 1, fences);
    } else {
      SubseqRefl(prev.rows);
    }
  }

  /** Later passes only remove rows. */
  lemma {:induction false} FilteredShrinks(t: Frame, j: nat, k: nat)
    requires j <= k <= |t.columns|
    ensures Subseq(FilteredUpTo(t, k).rows, FilteredUpTo(t, j).rows)
    decreases k
  {
    if j == k {
      SubseqRefl(FilteredUpTo(t, k).rows);
    } else {
      FilteredShrinks(t, j, k - 1);
      FilteredStep(t, k);
      SubseqTrans(FilteredUpTo(t, k).rows, FilteredUpTo(t, k - 1).rows, FilteredUpTo(t, j).rows);
    }
  }

  /** `row` is within the fences of every numeric column before `k`, each
      column's fences taken from the table its pass saw. */
  predicate PassesUpTo(t: Frame, row: Row, k: nat)
    requires k <= |t.columns|
  {
    forall c :: 0 <= c < k && t.columns[c].kind == Numeric ==> WithinFences(row, c, PassFences(t, c))
  }

  lemma PassesStep(t: Frame, row: Row, k: nat)
    requires 0 < k <= |t.columns|
    ensures PassesUpTo(t, row, k) <==>
      PassesUpTo(t, row, k - 1) &&
      (t.columns[k - 1].kind == Numeric ==> WithinFences(row, k - 1, PassFences(t, k - 1)))
  {
  }

  /** A row survives the first `k` passes exactly when it is a row of the
      input and lies within every numeric column's fences, each computed on
      the table left by the passes before it. */
  lemma {:induction false} FilteredMembers(t: Frame, k: nat, row: Row)
    requires k <= |t.columns|
    ensures row in FilteredUpTo(t, k).rows <==> row in t.rows && PassesUpTo(t, row, k)
    decreases k
  {
    if k > 0 {
      var prev := FilteredUpTo(t, k - 1);
      FilteredMembers(t, k - 1, row);
      PassesStep(t, row, k);
      if t.columns[k - 1].kind == Numeric {
        var fences := ColumnFences(prev, k - 1);
        assert FilteredUpTo(t, k) == KeepWithin(prev, k - 1, fences);
        KeepWithinSpec(prev, k - 1, fences);
      }
    }
  }

  /** After remove_outliers, every surviving row's value in every numeric
      column lies between that column's fences, computed on the table as
      the passes over the earlier columns left it; Q1 <= Q3, so the lower
      bound never exceeds the upper one. */
  lemma SurvivorsWithinFences(t: Frame, row: Row, c: nat)
    requires c < |t.columns| && t.columns[c].kind == Numeric
    requires row in FilteredUpTo(t, |t.columns|).rows
    ensures PassFences(t, c).Some?
    ensures var f := PassFences(t, c).value;
      f.q1 <= f.q3 && f.lower <= f.upper && c < |row| && row[c].Num? && f.lower <= row[c].x <= f.upper
  {
    FilteredMembers(t, |t.columns|, row);
  }

  /** remove_outliers returns a table with the same columns and an
      order-preserving selection of the input's rows, and keeps a
      well-formed table well-formed. */
  lemma RemoveOutliersShape(t: Frame)
    requires WellFormed(t)
    ensures FilteredUpTo(t, |t.columns|).columns == t.columns
    ensures Subseq(FilteredUpTo(t, |t.columns|).rows, t.rows)
    ensures WellFormed(FilteredUpTo(t, |t.columns|))
  {
    FilteredShape(t, |t.columns|);
    SubrowsWellFormed(t, FilteredUpTo(t, |t.columns|).rows);
  }

  /** Text columns impose no filter: a table without numeric columns comes
      back unchanged. */
  lemma {:induction false} TextOnlyUnchanged(t: Frame, k: nat)
    requires k <= |t.columns|
    requires forall c :: 0 <= c < |t.columns| ==> t.columns[c].kind == Text
    ensures FilteredUpTo(t, k) == t
    decreases k
  {
    if k > 0 {
      TextOnlyUnchanged(t, k - 1);
    }
  }

  /** A pass over a numeric column whose every cell is a number keeps at
      least one row of a non-empty table. */
  lemma PassKeepsARow(t: Frame, c: nat)
    requires |t.rows| > 0
    requires forall row: Row :: row in t.rows ==> c < |row| && row[c].Num?
    ensures |KeepWithin(t, c, ColumnFences(t, c)).rows| > 0
  {
    var values := ColumnNumbers(t.rows, c);
    ColumnNumbersNonEmpty(t.rows, c, t.rows[0]);
    var k := FencesEncloseAValue(values);
    var row := ColumnNumbersFrom(t.rows, c, k);
    KeepWithinSpec(t, c, ColumnFences(t, c));
    assert row in KeepWithin(t, c, ColumnFences(t, c)).rows;
  }

  /** On a table without missing values (as `main` hands it over, after
      dropna) remove_outliers never removes every row: each pass keeps a
      row whose value lies between its own fences. */
  lemma {:induction false} NeverEmpties(t: Frame, k: nat)
    requires WellFormed(t) && |t.rows| > 0 && k <= |t.columns|
    requires forall row :: row in t.rows ==> Missing !in row
    ensures |FilteredUpTo(t, k).rows| > 0
    decreases k
  {
    if k > 0 {
      NeverEmpties(t, k - 1);
      var prev := FilteredUpTo(t, k - 1);
      FilteredShape(t, k - 1);
      if t.columns[k - 1].kind == Numeric {
        forall row: Row | row in prev.rows
          ensures k - 1 < |row| && row[k - 1].Num?
        {
          SubseqMember(prev.rows, t.rows, row);
          assert row[k - 1] in row;
        }
        PassKeepsARow(prev, k - 1);
      }
    }
  }
}

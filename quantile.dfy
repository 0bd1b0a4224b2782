/** The quantile arithmetic behind the outlier filter: pandas'
    `Series.quantile(p)` with its default linear interpolation, and the
    interquartile-range fences built from the first and third quartiles. */
module Stats {
  import opened Seqs

  predicate Sorted(s: seq<real>)
  {
    forall i, j :: 0 <= i <= j < |s| ==> s[i] <= s[j]
  }

  lemma SortedCons(a: real, t: seq<real>)
    requires Sorted(t) && (|t| > 0 ==> a <= t[0])
    ensures Sorted([a] + t)
  {
  }

  /** `x` placed into the sorted sequence `s`, before the first value not
      below it. */
  function Insert(x: real, s: seq<real>): seq<real>
  {
    if |s| == 0 || x <= s[0] then [x] + s
    else [s[0]] + Insert(x, s[1..])
  }

  /** Insertion keeps a sorted sequence sorted and adds exactly `x`. */
  lemma {:induction false} InsertSpec(x: real, s: seq<real>)
    requires Sorted(s)
    ensures Sorted(Insert(x, s))
    ensures multiset(Insert(x, s)) == multiset(s) + multiset{x}
    ensures |Insert(x, s)| == |s| + 1
    ensures Insert(x, s)[0] == x || (|s| > 0 && Insert(x, s)[0] == s[0])
  {
    if |s| == 0 || x <= s[0] {
      SortedCons(x, s);
    } else {
      var rest := Insert(x, s[1..]);
      InsertSpec(x, s[1..]);
      assert s == [s[0]] + s[1..];
      SortedCons(s[0], rest);
    }
  }

  /** Insertion sort: the values of `s` in ascending order, the order
      statistics the quantile is read from. */
  function Sort(s: seq<real>): seq<real>
  {
    if |s| == 0 then [] else Insert(s[0], Sort(s[1..]))
  }

  /** The sorted values are in ascending order and are a permutation of
      the input. */
  lemma {:induction false} SortSpec(s: seq<real>)
    ensures Sorted(Sort(s))
    ensures multiset(Sort(s)) == multiset(s)
    ensures |Sort(s)| == |s|
  {
    if |s| > 0 {
      SortSpec(s[1..]);
      InsertSpec(s[0], Sort(s[1..]));
      assert s == [s[0]] + s[1..];
    }
  }

  /** A fraction of a non-negative amount lies between zero and the
      amount. */
  lemma FractionOf(f: real, d: real)
    requires 0.0 <= f <= 1.0 && 0.0 <= d
    ensures 0.0 <= f * d <= d
  {
    assert (1.0 - f) * d == d - f * d;
    assert (1.0 - f) * d >= 0.0;
  }

  /** Linear interpolation between a and b, at fraction f of the way; it
      stays between them. */
  function Lerp(a: real, b: real, f: real): (v: real)
    requires a <= b && 0.0 <= f <= 1.0
    ensures a <= v <= b
  {
    var d := b - a;
    FractionOf(f, d);
    var x := f * d;
    assert 0.0 <= x <= d;
    a + x
  }

  /** The value at fractional position `h` of the sorted values `s`,
      interpolated linearly between the two neighbouring order statistics. */
  function Interpolate(s: seq<real>, h: real): (q: real)
    requires |s| > 0 && Sorted(s) && 0.0 <= h <= (|s| - 1) as real
    ensures s[0] <= q <= s[|s| - 1]
  {
    var i := h.Floor;
    assert s[0] <= s[i];
    if i + 1 < |s| then
      assert s[i + 1] <= s[|s| - 1];
      Lerp(s[i], s[i + 1], h - i as real)
    else s[i]
  }

  /** The fractional position p * n of the `p`-quantile among n + 1 sorted
      values: between the first position, 0, and the last, n. */
  function Position(p: real, n: nat): (h: real)
    requires 0.0 <= p <= 1.0
    ensures 0.0 <= h <= n as real
  {
    FractionOf(p, n as real);
    p * n as real
  }

  /** A larger fraction gives a later position. */
  lemma PositionMonotone(p1: real, p2: real, n: nat)
    requires 0.0 <= p1 <= p2 <= 1.0
    ensures Position(p1, n) <= Position(p2, n)
  {
    var m := n as real;
    assert p2 * m - p1 * m == (p2 - p1) * m;
    FractionOf(p2 - p1, m);
  }

  /** pandas' default `quantile(p)` on the sorted, non-empty values `s`:
      the value at fractional position p * (n - 1). */
  function QuantileOfSorted(s: seq<real>, p: real): (q: real)
    requires |s| > 0 && Sorted(s) && 0.0 <= p <= 1.0
    ensures s[0] <= q <= s[|s| - 1]
  {
    Interpolate(s, Position(p, |s| - 1))
  }

  /** The `p`-quantile of a column's (non-missing) values. */
  function Quantile(values: seq<real>, p: real): real
    requires |values| > 0 && 0.0 <= p <= 1.0
  {
    SortSpec(values);
    QuantileOfSorted(Sort(values), p)
  }

  lemma LerpMonotone(a: real, b: real, f1: real, f2: real)
    requires a <= b && 0.0 <= f1 <= f2 <= 1.0
    ensures Lerp(a, b, f1) <= Lerp(a, b, f2)
  {
    var d := b - a;
    assert f2 * d - f1 * d == (f2 - f1) * d;
    FractionOf(f2 - f1, d);
  }

  /** An interpolated value lies between the two order statistics around
      its position. */
  lemma InterpolateBounds(s: seq<real>, h: real)
    requires |s| > 0 && Sorted(s) && 0.0 <= h <= (|s| - 1) as real
    ensures 0 <= h.Floor < |s|
    ensures s[h.Floor] <= Interpolate(s, h)
    ensures h.Floor + 1 < |s| ==> Interpolate(s, h) <= s[h.Floor + 1]
    ensures h.Floor + 1 >= |s| ==> Interpolate(s, h) == s[h.Floor]
  {
    var i := h.Floor;
  }

  /** Interpolated values grow with the position. */
  lemma InterpolateMonotone(s: seq<real>, h1: real, h2: real)
    requires |s| > 0 && Sorted(s) && 0.0 <= h1 <= h2 <= (|s| - 1) as real
    ensures Interpolate(s, h1) <= Interpolate(s, h2)
  {
    var i1, i2 := h1.Floor, h2.Floor;
    InterpolateBounds(s, h1);
    InterpolateBounds(s, h2);
    if i1 == i2 {
      if i1 + 1 < |s| {
        LerpMonotone(s[i1], s[i1 + 1], h1 - i1 as real, h2 - i2 as real);
      }
    } else {
      assert i1 + 1 <= i2;
      assert s[i1 + 1] <= s[i2];
    }
  }

  /** Quantiles grow with `p`. */
  lemma QuantileMonotone(s: seq<real>, p1: real, p2: real)
    requires |s| > 0 && Sorted(s) && 0.0 <= p1 <= p2 <= 1.0
    ensures QuantileOfSorted(s, p1) <= QuantileOfSorted(s, p2)
  {
    PositionMonotone(p1, p2, |s| - 1);
    InterpolateMonotone(s, Position(p1, |s| - 1), Position(p2, |s| - 1));
  }

  /** The interquartile-range fences of one column. */
  datatype Fences = Fences(q1: real, q3: real, lower: real, upper: real)

  /** Q1, Q3 and the bounds Q1 - 1.5 IQR and Q3 + 1.5 IQR of the values.
      None stands for pandas' NaN quantiles of a column with no values, with
      which every comparison is false. */
  function FencesOf(values: seq<real>): (r: Option<Fences>)
    ensures r.Some? <==> |values| > 0
    ensures r.Some? ==> r.value.q1 <= r.value.q3
    ensures r.Some? ==> r.value.lower <= r.value.q1 && r.value.q3 <= r.value.upper
    ensures r.Some? ==> r.value.upper - r.value.lower == 4.0 * (r.value.q3 - r.value.q1)
  {
    if |values| == 0 then None
    else
      var q1 := Quantile(values, 0.25);
      var q3 := Quantile(values, 0.75);
      SortSpec(values);
      QuantileMonotone(Sort(values), 0.25, 0.75);
      var iqr := q3 - q1;
      Some(Fences(q1, q3, q1 - 1.5 * iqr, q3 + 1.5 * iqr))
  }

  /** Q1 and Q3 lie within the range of the values. */
  lemma FencesWithinRange(values: seq<real>)
    requires |values| > 0
    ensures var f := FencesOf(values).value;
      exists i, j :: 0 <= i < |values| && 0 <= j < |values| && values[i] <= f.q1 && f.q3 <= values[j]
  {
    var s := Sort(values);
    SortSpec(values);
    assert s[0] in multiset(values) && s[|s| - 1] in multiset(values);
    var i :| 0 <= i < |values| && values[i] == s[0];
    var j :| 0 <= j < |values| && values[j] == s[|s| - 1];
  }

  /** Both quartiles fall between the same two order statistics a <= b:
      the fences still reach down to a. */
  lemma SameInterval(a: real, b: real, f1: real, f3: real)
    requires a <= b && 0.0 <= f1 <= f3 <= 1.0 && f1 <= 1.5 * (f3 - f1)
    ensures var q1, q3 := Lerp(a, b, f1), Lerp(a, b, f3);
      q1 - 1.5 * (q3 - q1) <= a <= q3 + 1.5 * (q3 - q1)
  {
    var d := b - a;
    assert (a + f3 * d) - (a + f1 * d) == (f3 - f1) * d;
    assert (f1 - 1.5 * (f3 - f1)) * d <= 0.0;
    assert (f3 - f1) * d >= 0.0;
  }

  /** With the third quartile's position three times the first's, the
      fences enclose one of the sorted values. */
  lemma InterpolatedFencesEnclose(s: seq<real>, h1: real, h3: real) returns (k: nat)
    requires |s| > 0 && Sorted(s) && 0.0 <= h1 && h3 == 3.0 * h1 && h3 <= (|s| - 1) as real
    ensures k < |s|
    ensures var q1, q3 := Interpolate(s, h1), Interpolate(s, h3);
      q1 - 1.5 * (q3 - q1) <= s[k] <= q3 + 1.5 * (q3 - q1)
  {
    InterpolateMonotone(s, h1, h3);
    InterpolateBounds(s, h1);
    InterpolateBounds(s, h3);
    var i1, i3 := h1.Floor, h3.Floor;
    if i1 + 1 < |s| && i1 < i3 {
      k := i1 + 1;
      assert s[k] <= s[i3];
    } else if i1 + 1 < |s| {
      k := i1;
      SameInterval(s[i1], s[i1 + 1], h1 - i1 as real, h3 - i1 as real);
    } else {
      k := i1;
    }
  }

  /** The fences of a non-empty column always enclose one of its sorted
      values. */
  lemma FencesEncloseSorted(s: seq<real>) returns (k: nat)
    requires |s| > 0 && Sorted(s)
    ensures k < |s|
    ensures var q1, q3 := QuantileOfSorted(s, 0.25), QuantileOfSorted(s, 0.75);
      q1 - 1.5 * (q3 - q1) <= s[k] <= q3 + 1.5 * (q3 - q1)
  {
    var m := |s| - 1;
    k := InterpolatedFencesEnclose(s, Position(0.25, m), Position(0.75, m));
  }

  /** Every non-empty column keeps at least one of its values between its
      fences. */
  lemma FencesEncloseAValue(values: seq<real>) returns (k: nat)
    requires |values| > 0
    ensures k < |values|
    ensures FencesOf(values).value.lower <= values[k] <= FencesOf(values).value.upper
  {
    var s := Sort(values);
    SortSpec(values);
    var j := FencesEncloseSorted(s);
    assert s[j] in multiset(values);
    k :| 0 <= k < |values| && values[k] == s[j];
  }
}

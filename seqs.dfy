/** Order-preserving selection over sequences: the row filters and the
    duplicate removal that the cleaning pipeline applies to a table's rows,
    and the character deletion applied to strings. */
module Seqs {

  datatype Option<T> = None | Some(value: T)

  /** `a` is `b` with some elements deleted, the rest kept in order. */
  predicate Subseq<T(==)>(a: seq<T>, b: seq<T>)
    decreases |b|
  {
    if |a| == 0 then true
    else if |b| == 0 then false
    else (a[0] == b[0] && Subseq(a[1..], b[1..])) || Subseq(a, b[1..])
  }

  lemma {:induction false} SubseqRefl<T>(a: seq<T>)
    ensures Subseq(a, a)
    decreases |a|
  {
    if |a| > 0 {
      SubseqRefl(a[1..]);
    }
  }

  lemma {:induction false} SubseqLength<T>(a: seq<T>, b: seq<T>)
    requires Subseq(a, b)
    ensures |a| <= |b|
    decreases |b|
  {
    if |a| > 0 {
      if a[0] == b[0] && Subseq(a[1..], b[1..]) {
        SubseqLength(a[1..], b[1..]);
      } else {
        SubseqLength(a, b[1..]);
      }
    }
  }

  lemma {:induction false} SubseqMember<T>(a: seq<T>, b: seq<T>, x: T)
    requires Subseq(a, b) && x in a
    ensures x in b
    decreases |b|
  {
    if a[0] == b[0] && Subseq(a[1..], b[1..]) {
      if x != a[0] {
        SubseqMember(a[1..], b[1..], x);
      }
    } else {
      SubseqMember(a, b[1..], x);
    }
  }

  lemma {:induction false} SubseqTrans<T>(a: seq<T>, b: seq<T>, c: seq<T>)
    requires Subseq(a, b) && Subseq(b, c)
    ensures Subseq(a, c)
    decreases |c|
  {
    if |a| == 0 {
    } else if |b| == 0 {
    } else if b[0] == c[0] && Subseq(b[1..], c[1..]) {
      if a[0] == b[0] && Subseq(a[1..], b[1..]) {
        SubseqTrans(a[1..], b[1..], c[1..]);
      } else {
        SubseqTrans(a, b[1..], c[1..]);
      }
    } else {
      SubseqTrans(a, b, c[1..]);
    }
  }

  /** The elements of `s` that satisfy `keep`, in their original order. */
  function Filter<T>(keep: T -> bool, s: seq<T>): (r: seq<T>)
    ensures |r| <= |s|
    ensures forall i :: 0 <= i < |r| ==> keep(r[i])
  {
    if |s| == 0 then []
    else if keep(s[0]) then [s[0]] + Filter(keep, s[1..])
    else Filter(keep, s[1..])
  }

  /** Filter selects exactly the elements that satisfy `keep`, as an
      order-preserving subsequence, each as often as it occurs in `s`. */
  lemma {:induction false} FilterSelects<T>(keep: T -> bool, s: seq<T>)
    ensures Subseq(Filter(keep, s), s)
    ensures forall x :: x in Filter(keep, s) <==> x in s && keep(x)
    ensures forall x :: multiset(Filter(keep, s))[x] == if keep(x) then multiset(s)[x] else 0
  {
    if |s| > 0 {
      FilterSelects(keep, s[1..]);
      assert s == [s[0]] + s[1..];
      assert multiset(s) == multiset([s[0]]) + multiset(s[1..]);
      if keep(s[0]) {
        assert multiset(Filter(keep, s)) == multiset([s[0]]) + multiset(Filter(keep, s[1..]));
      }
    }
  }

  /** Filter works element by element: this and `Filter(keep, [x])` pin it
      down completely. */
  lemma {:induction false} FilterAppend<T>(keep: T -> bool, a: seq<T>, b: seq<T>)
    ensures Filter(keep, a + b) == Filter(keep, a) + Filter(keep, b)
  {
    if |a| == 0 {
      assert a + b == b;
    } else {
      assert (a + b)[1..] == a[1..] + b;
      FilterAppend(keep, a[1..], b);
    }
  }

  /** Filtering a sequence whose elements all pass changes nothing. */
  lemma {:induction false} FilterAllKept<T>(keep: T -> bool, s: seq<T>)
    requires forall i :: 0 <= i < |s| ==> keep(s[i])
    ensures Filter(keep, s) == s
  {
    if |s| > 0 {
      FilterAllKept(keep, s[1..]);
    }
  }

  /** No element occurs twice. */
  predicate Distinct<T(==)>(s: seq<T>)
  {
    forall i, j :: 0 <= i < j < |s| ==> s[i] != s[j]
  }

  /** The first occurrence of every element of `s`, in order of first
      occurrence. */
  function Dedup<T(==)>(s: seq<T>): (r: seq<T>)
    decreases |s|
  {
    if |s| == 0 then []
    else
      var init := s[..|s| - 1];
      if s[|s| - 1] in init then Dedup(init) else Dedup(init) + [s[|s| - 1]]
  }

  /** `r` lists elements of `s` by first occurrence: whenever `r[j]` occurs
      at position `k` of `s`, every earlier `r[i]` has already occurred
      before `k`. With Distinct this is the `keep='first'` order. */
  predicate FirstOccurrenceOrder<T(==)>(r: seq<T>, s: seq<T>)
  {
    forall i, j, k :: 0 <= i < j < |r| && 0 <= k < |s| && s[k] == r[j] ==> r[i] in s[..k]
  }

  /** Dedup keeps one copy of every element and nothing else, in an
      order-preserving subsequence, ordered by first occurrence. */
  lemma {:induction false} DedupSpec<T>(s: seq<T>)
    ensures Distinct(Dedup(s))
    ensures Subseq(Dedup(s), s)
    ensures forall x :: x in Dedup(s) <==> x in s
    ensures FirstOccurrenceOrder(Dedup(s), s)
    decreases |s|
  {
    if |s| > 0 {
      var init := s[..|s| - 1];
      var last := s[|s| - 1];
      DedupSpec(init);
      assert s == init + [last];
      DedupOrderStep(init, last);
      SubseqSnoc(Dedup(init), init, last);
      if last in init {
        SubseqRefl(init);
        SubseqSnoc(init, init, last);
        SubseqTrans(Dedup(init), init, s);
      }
    }
  }

  /** The induction step for the order: appending `last` to `init` keeps
      Dedup ordered by first occurrence. */
  lemma DedupOrderStep<T>(init: seq<T>, last: T)
    requires forall x :: x in Dedup(init) <==> x in init
    requires FirstOccurrenceOrder(Dedup(init), init)
    ensures FirstOccurrenceOrder(Dedup(init + [last]), init + [last])
  {
    var s := init + [last];
    var d := Dedup(init);
    assert s[..|s| - 1] == init;
    var r := Dedup(s);
    assert r == if last in init then d else d + [last];
    forall i, j, k | 0 <= i < j < |r| && 0 <= k < |s| && s[k] == r[j]
      ensures r[i] in s[..k]
    {
      OrderCase(init, last, d, r, i, j, k);
    }
  }

  lemma OrderCase<T>(init: seq<T>, last: T, d: seq<T>, r: seq<T>, i: int, j: int, k: int)
    requires forall x :: x in d <==> x in init
    requires FirstOccurrenceOrder(d, init)
    requires r == if last in init then d else d + [last]
    requires 0 <= i < j < |r| && 0 <= k <= |init|
    requires (init + [last])[k] == r[j]
    ensures r[i] in (init + [last])[..k]
  {
    var s := init + [last];
    assert r[i] == d[i];
    if j == |d| {
      assert last !in init && s[k] == last;
      assert k == |init|;
    }
    if k < |init| {
      assert s[k] == init[k] == d[j];
      assert s[..k] == init[..k];
    } else {
      assert s[..k] == init;
      assert d[i] in d;
    }
  }

  lemma {:induction false} SubseqSnoc<T>(a: seq<T>, b: seq<T>, x: T)
    requires Subseq(a, b)
    ensures Subseq(a, b + [x]) && Subseq(a + [x], b + [x])
    decreases |b|
  {
    if |a| == 0 {
      if |b| > 0 {
        SubseqSnoc(a, b[1..], x);
        assert (b + [x])[1..] == b[1..] + [x];
      }
    } else if a[0] == b[0] && Subseq(a[1..], b[1..]) {
      SubseqSnoc(a[1..], b[1..], x);
      assert (a + [x])[1..] == a[1..] + [x];
      assert (b + [x])[1..] == b[1..] + [x];
    } else {
      SubseqSnoc(a, b[1..], x);
      assert (b + [x])[1..] == b[1..] + [x];
    }
  }

  /** Removing duplicates from a sequence without duplicates changes
      nothing; in particular Dedup is idempotent. */
  lemma {:induction false} DedupDistinct<T>(s: seq<T>)
    requires Distinct(s)
    ensures Dedup(s) == s
    decreases |s|
  {
    if |s| > 0 {
      var init := s[..|s| - 1];
      assert Distinct(init);
      DedupDistinct(init);
      assert s[|s| - 1] !in init;
      assert s == init + [s[|s| - 1]];
    }
  }

  lemma DedupIdempotent<T>(s: seq<T>)
    ensures Dedup(Dedup(s)) == Dedup(s)
  {
    DedupSpec(s);
    DedupDistinct(Dedup(s));
  }
}

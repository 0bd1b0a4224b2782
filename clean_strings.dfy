/** `clean_strings`: the normaliser applied to every value of a text
    column — lower-case, strip surrounding whitespace, then delete every
    character outside [a-zA-Z0-9\s]. */
module CleanStrings {
  import opened Seqs
  import opened Strings
  import opened Frames

  /** The characters the pattern `[^a-zA-Z0-9\s]` does not match, and that
      the substitution therefore keeps. */
  predicate IsKept(c: char)
  {
    IsLower(c) || IsUpper(c) || IsDigit(c) || IsSpace(c)
  }

  /** `str.replace('[^a-zA-Z0-9\s]', '', regex=True)`. */
  function DeleteSpecial(s: string): string
  {
    Filter(IsKept, s)
  }

  /** `clean_strings` on one value. Every character of the result is a
      lower-case ASCII letter, a digit or whitespace. */
  function CleanString(s: string): (r: string)
    ensures forall k :: 0 <= k < |r| ==> IsLower(r[k]) || IsDigit(r[k]) || IsSpace(r[k])
  {
    CleanedChars(s);
    var r := DeleteSpecial(Strip(Lower(s)));
    assert forall k :: 0 <= k < |r| ==> r[k] in r;
    r
  }

  lemma CleanedChars(s: string)
    ensures forall c :: c in DeleteSpecial(Strip(Lower(s))) ==> IsLower(c) || IsDigit(c) || IsSpace(c)
  {
    var t := Strip(Lower(s));
    LowerSpec(s);
    StripIn(Lower(s));
    FilterSelects(IsKept, t);
  }

  /** `clean_strings` on one cell of a text column: a missing value stays
      missing (`.str` methods map NaN to NaN). */
  function CleanCell(cell: Cell): Cell
  {
    match cell
    case Str(s) => Str(CleanString(s))
    case _ => cell
  }

  /** The result is the lower-cased, stripped input with exactly its
      special characters deleted: an order-preserving subsequence holding
      every kept character (interior whitespace included), as often as it
      occurs, and nothing else. */
  lemma CleanStringSelects(s: string)
    ensures Subseq(CleanString(s), Strip(Lower(s)))
    ensures forall c :: c in CleanString(s) <==> c in Strip(Lower(s)) && IsKept(c)
    ensures forall c :: multiset(CleanString(s))[c] == if IsKept(c) then multiset(Strip(Lower(s)))[c] else 0
  {
    FilterSelects(IsKept, Strip(Lower(s)));
  }

  /** A string without upper-case letters is its own lower-case form. */
  lemma LowerOfLower(r: string)
    requires forall k :: 0 <= k < |r| ==> !IsUpper(r[k])
    ensures Lower(r) == r
  {
  }

  /** Cleaning twice is cleaning once and then stripping: the second
      application changes nothing but the whitespace that deleting special
      characters uncovered at either end. */
  lemma CleanStringTwice(s: string)
    ensures CleanString(CleanString(s)) == Strip(CleanString(s))
  {
    var r := CleanString(s);
    LowerOfLower(r);
    var t := Strip(r);
    StripPreserves(r, IsKept);
    FilterAllKept(IsKept, t);
  }

  /** So cleaning is idempotent exactly on the values whose cleaned form
      neither starts nor ends with whitespace. */
  lemma CleanStringIdempotentIff(s: string)
    ensures CleanString(CleanString(s)) == CleanString(s) <==>
      (|CleanString(s)| > 0 ==> !IsSpace(CleanString(s)[0]) && !IsSpace(CleanString(s)[|CleanString(s)| - 1]))
  {
    CleanStringTwice(s);
    var r := CleanString(s);
    if |r| > 0 ==> !IsSpace(r[0]) && !IsSpace(r[|r| - 1]) {
      StripTrimmed(r);
    }
  }

  /** Trimming happens before deletion: a lower-case letter or digit, a
      space and a special character clean to the letter and the space, and
      cleaning that again drops the space. */
  lemma TrimBeforeDelete(a: char, x: char)
    requires IsLower(a) || IsDigit(a)
    requires !IsKept(x)
    ensures CleanString([a, ' ', x]) == [a, ' ']
    ensures CleanString([a, ' ']) == [a]
  {
    var s := [a, ' ', x];
    LowerOfLower(s);
    StripTrimmed(s);
    assert s == [a, ' '] + [x];
    FilterAppend(IsKept, [a, ' '], [x]);
    FilterAllKept(IsKept, [a, ' ']);
    CleanTrailingSpace(a);
  }

  lemma CleanTrailingSpace(a: char)
    requires IsLower(a) || IsDigit(a)
    ensures CleanString([a, ' ']) == [a]
  {
    LowerOfLower([a, ' ']);
    StripSpec([a, ' '], 0, 1);
    FilterAllKept(IsKept, [a]);
  }

  /** So cleaning is not idempotent: "a !" cleans to "a ", which cleans to
      "a". */
  lemma NotIdempotent()
    ensures CleanString("a !") == "a "
    ensures CleanString(CleanString("a !")) == "a"
  {
    TrimBeforeDelete('a', '!');
  }
}

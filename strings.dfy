/** The Python string built-ins the analyzer relies on (`str.lower`,
    `str.strip`, the `in` substring test, `int()` on a string), restricted to
    ASCII. */
module Strings {
  import opened Seqs

  /** Python's `str.isspace` on ASCII: tab, line feed, vertical tab, form
      feed, carriage return, the four information separators 0x1C-0x1F and
      space. The same class is matched by the regular-expression escape `\s`. */
  predicate IsSpace(c: char)
  {
    (9 <= c as int <= 13) || (28 <= c as int <= 32)
  }

  predicate IsUpper(c: char) { 'A' <= c <= 'Z' }
  predicate IsLower(c: char) { 'a' <= c <= 'z' }
  predicate IsDigit(c: char) { '0' <= c <= '9' }

  /** `str.lower` on one character: only 'A'..'Z' change. */
  function ToLower(c: char): (d: char)
    ensures !IsUpper(d)
    ensures IsUpper(c) ==> IsLower(d) && d as int == c as int + 32
    ensures !IsUpper(c) ==> d == c
  {
    if IsUpper(c) then (c as int + 32) as char else c
  }

  /** `str.lower`. */
  function Lower(s: string): (r: string)
  {
    seq(|s|, k requires 0 <= k < |s| => ToLower(s[k]))
  }

  /** Lower-casing keeps the length, leaves no upper-case letter, and
      changes nothing that is not an upper-case letter; applying it a second
      time changes nothing. */
  lemma LowerSpec(s: string)
    ensures |Lower(s)| == |s|
    ensures forall k :: 0 <= k < |s| ==> !IsUpper(Lower(s)[k])
    ensures forall c :: c in Lower(s) ==> !IsUpper(c)
    ensures forall k :: 0 <= k < |s| && !IsUpper(s[k]) ==> Lower(s)[k] == s[k]
    ensures Lower(Lower(s)) == Lower(s)
  {
  }

  /** `str.lstrip()` with no argument. */
  function StripLeft(s: string): (r: string)
    ensures |r| <= |s| && r == s[|s| - |r|..]
    ensures |r| > 0 ==> !IsSpace(r[0])
  {
    if |s| > 0 && IsSpace(s[0]) then StripLeft(s[1..]) else s
  }

  /** `str.rstrip()` with no argument. */
  function StripRight(s: string): (r: string)
    ensures |r| <= |s| && r == s[..|r|]
    ensures |r| > 0 ==> !IsSpace(r[|r| - 1])
  {
    if |s| > 0 && IsSpace(s[|s| - 1]) then StripRight(s[..|s| - 1]) else s
  }

  /** `str.strip()` with no argument: the result neither starts nor ends
      with whitespace. */
  function Strip(s: string): (r: string)
    ensures |r| <= |s|
    ensures |r| > 0 ==> !IsSpace(r[0]) && !IsSpace(r[|r| - 1])
  {
    StripRight(StripLeft(s))
  }

  /** Stripping only removes characters. */
  lemma StripIn(s: string)
    ensures forall c :: c in Strip(s) ==> c in s
  {
    var l := StripLeft(s);
    assert forall c :: c in StripRight(l) ==> c in l;
  }

  lemma {:induction false} StripLeftPreserves(s: string, p: char -> bool)
    requires forall k :: 0 <= k < |s| ==> p(s[k])
    ensures forall k :: 0 <= k < |StripLeft(s)| ==> p(StripLeft(s)[k])
  {
    if |s| > 0 && IsSpace(s[0]) {
      StripLeftPreserves(s[1..], p);
    }
  }

  lemma {:induction false} StripRightPreserves(s: string, p: char -> bool)
    requires forall k :: 0 <= k < |s| ==> p(s[k])
    ensures forall k :: 0 <= k < |StripRight(s)| ==> p(StripRight(s)[k])
  {
    if |s| > 0 && IsSpace(s[|s| - 1]) {
      StripRightPreserves(s[..|s| - 1], p);
    }
  }

  /** Stripping keeps only characters of the input: whatever holds of
      every character of `s` holds of every character of `Strip(s)`. */
  lemma StripPreserves(s: string, p: char -> bool)
    requires forall k :: 0 <= k < |s| ==> p(s[k])
    ensures forall k :: 0 <= k < |Strip(s)| ==> p(Strip(s)[k])
  {
    StripLeftPreserves(s, p);
    StripRightPreserves(StripLeft(s), p);
  }

  lemma {:induction false} StripLeftSpec(s: string, i: nat)
    requires i <= |s|
    requires forall k :: 0 <= k < i ==> IsSpace(s[k])
    requires i == |s| || !IsSpace(s[i])
    ensures StripLeft(s) == s[i..]
  {
    if i > 0 {
      StripLeftSpec(s[1..], i - 1);
    }
  }

  lemma {:induction false} StripRightSpec(s: string, j: nat)
    requires j <= |s|
    requires forall k :: j <= k < |s| ==> IsSpace(s[k])
    requires j == 0 || !IsSpace(s[j - 1])
    ensures StripRight(s) == s[..j]
  {
    if j < |s| {
      StripRightSpec(s[..|s| - 1], j);
    }
  }

  /** Strip removes exactly the leading and the trailing whitespace: for
      any split of `s` into whitespace, a middle that is empty or starts
      and ends with non-whitespace, and whitespace, the result is the
      middle. */
  lemma StripSpec(s: string, i: nat, j: nat)
    requires i <= j <= |s|
    requires forall k :: 0 <= k < i ==> IsSpace(s[k])
    requires forall k :: j <= k < |s| ==> IsSpace(s[k])
    requires i < j ==> !IsSpace(s[i]) && !IsSpace(s[j - 1])
    ensures Strip(s) == s[i..j]
  {
    if i == j {
      StripAllSpace(s);
    } else {
      StripLeftSpec(s, i);
      StripRightOfSuffix(s, i, j);
    }
  }

  lemma StripAllSpace(s: string)
    requires forall k :: 0 <= k < |s| ==> IsSpace(s[k])
    ensures Strip(s) == []
  {
    StripLeftSpec(s, |s|);
  }

  lemma StripRightOfSuffix(s: string, i: nat, j: nat)
    requires i < j <= |s|
    requires forall k :: j <= k < |s| ==> IsSpace(s[k])
    requires !IsSpace(s[j - 1])
    ensures StripRight(s[i..]) == s[i..j]
  {
    var t := s[i..];
    assert forall k :: j - i <= k < |t| ==> t[k] == s[k + i];
    StripRightSpec(t, j - i);
  }

  /** A string that neither starts nor ends with whitespace is its own
      strip; in particular Strip is idempotent. */
  lemma StripTrimmed(s: string)
    requires |s| > 0 ==> !IsSpace(s[0]) && !IsSpace(s[|s| - 1])
    ensures Strip(s) == s
  {
    StripSpec(s, 0, |s|);
  }

  /** Python's `p in s` on strings: `p` occurs in `s` as a contiguous
      substring. */
  predicate Contains(s: string, p: string)
    decreases |s|
  {
    |p| <= |s| && (s[..|p|] == p || (|s| > 0 && Contains(s[1..], p)))
  }

  /** `p` occurs in `s` starting at position `i`. */
  predicate OccursAt(s: string, p: string, i: int)
  {
    0 <= i <= |s| - |p| && s[i..i + |p|] == p
  }

  /** Contains agrees with the definition by position, in both
      directions. */
  lemma {:induction false} ContainsAt(s: string, p: string)
    ensures Contains(s, p) <==> exists i :: OccursAt(s, p, i)
    decreases |s|
  {
    if |p| <= |s| && s[..|p|] != p && |s| > 0 {
      ContainsAt(s[1..], p);
      if Contains(s[1..], p) {
        var i :| OccursAt(s[1..], p, i);
        assert OccursAt(s, p, i + 1);
      }
      if exists i :: OccursAt(s, p, i) {
        var i :| OccursAt(s, p, i);
        assert i != 0;
        assert OccursAt(s[1..], p, i - 1);
      }
    } else if |p| <= |s| && s[..|p|] == p {
      assert OccursAt(s, p, 0);
    }
  }

  function DigitValue(c: char): (d: nat)
    requires IsDigit(c)
    ensures d < 10
  {
    c as int - '0' as int
  }

  function DigitChar(d: nat): (c: char)
    requires d < 10
    ensures IsDigit(c) && DigitValue(c) == d
  {
    ('0' as int + d) as char
  }

  /** The digit groups `int()` accepts after the sign: ASCII digits, with
      single underscores allowed between two digits. */
  predicate Grouped(s: string)
  {
    && |s| > 0
    && IsDigit(s[0])
    && IsDigit(s[|s| - 1])
    && (forall k :: 0 <= k < |s| ==> IsDigit(s[k]) || s[k] == '_')
    && (forall k :: 0 <= k < |s| - 1 ==> s[k] == '_' ==> s[k + 1] != '_')
  }

  /** The decimal value of the digits of `s`, underscores skipped. */
  function DigitsValue(s: string): nat
    requires forall k :: 0 <= k < |s| ==> IsDigit(s[k]) || s[k] == '_'
  {
    if |s| == 0 then 0
    else if s[|s| - 1] == '_' then DigitsValue(s[..|s| - 1])
    else 10 * DigitsValue(s[..|s| - 1]) + DigitValue(s[|s| - 1])
  }

  /** The whitespace `int()` skips around a number written in ASCII: tab,
      line feed, vertical tab, form feed, carriage return and space. Unlike
      `str.isspace`, it does not include the separators 0x1C-0x1F. */
  predicate IsIntSpace(c: char)
  {
    (9 <= c as int <= 13) || c == ' '
  }

  function IntStripLeft(s: string): string
  {
    if |s| > 0 && IsIntSpace(s[0]) then IntStripLeft(s[1..]) else s
  }

  function IntStripRight(s: string): string
  {
    if |s| > 0 && IsIntSpace(s[|s| - 1]) then IntStripRight(s[..|s| - 1]) else s
  }

  /** The text `int()` parses: the input without its leading and trailing
      `int()` whitespace. */
  function IntStrip(s: string): string
  {
    IntStripRight(IntStripLeft(s))
  }

  lemma {:induction false} IntStripLeftSpec(s: string, i: nat)
    requires i <= |s|
    requires forall k :: 0 <= k < i ==> IsIntSpace(s[k])
    requires i == |s| || !IsIntSpace(s[i])
    ensures IntStripLeft(s) == s[i..]
  {
    if i > 0 {
      IntStripLeftSpec(s[1..], i - 1);
    }
  }

  lemma {:induction false} IntStripRightSpec(s: string, j: nat)
    requires j <= |s|
    requires forall k :: j <= k < |s| ==> IsIntSpace(s[k])
    requires j == 0 || !IsIntSpace(s[j - 1])
    ensures IntStripRight(s) == s[..j]
  {
    if j < |s| {
      IntStripRightSpec(s[..|s| - 1], j);
    }
  }

  /** IntStrip removes exactly the leading and trailing `int()` whitespace
      around a middle that starts and ends with anything else. */
  lemma IntStripSpec(s: string, i: nat, j: nat)
    requires i < j <= |s|
    requires forall k :: 0 <= k < i ==> IsIntSpace(s[k])
    requires forall k :: j <= k < |s| ==> IsIntSpace(s[k])
    requires !IsIntSpace(s[i]) && !IsIntSpace(s[j - 1])
    ensures IntStrip(s) == s[i..j]
  {
    IntStripLeftSpec(s, i);
    var t := s[i..];
    assert forall k :: j - i <= k < |t| ==> t[k] == s[k + i];
    IntStripRightSpec(t, j - i);
  }

  /** The number of decimal digits in `s`, underscores not counted. */
  function DigitCount(s: string): (n: nat)
    ensures n <= |s|
  {
    if |s| == 0 then 0
    else DigitCount(s[..|s| - 1]) + (if IsDigit(s[|s| - 1]) then 1 else 0)
  }

  lemma {:induction false} DigitCountAll(s: string)
    requires forall k :: 0 <= k < |s| ==> IsDigit(s[k])
    ensures DigitCount(s) == |s|
  {
    if |s| > 0 {
      DigitCountAll(s[..|s| - 1]);
    }
  }

  /** CPython's default limit on the digits `int()` converts from a
      string (`sys.get_int_max_str_digits()`); `str()` refuses to write
      longer numbers too. */
  const MaxStrDigits: nat := 4300

  /** Python's `int(s)` for a string `s`, in base 10: surrounding `int()`
      whitespace is ignored, then one optional sign, then digit groups of
      at most MaxStrDigits digits. None stands for the ValueError `int()`
      raises on anything else. */
  function ParseInt(s: string): Option<int>
  {
    var t := IntStrip(s);
    var body := if |t| > 0 && (t[0] == '-' || t[0] == '+') then t[1..] else t;
    if !Grouped(body) || DigitCount(body) > MaxStrDigits then None
    else if t[0] == '-' then Some(0 - DigitsValue(body) as int)
    else Some(DigitsValue(body))
  }

  /** Decimal digits of `n`, as `str(n)` writes them. */
  function NatString(n: nat): (s: string)
    ensures |s| > 0 && forall k :: 0 <= k < |s| ==> IsDigit(s[k])
  {
    if n < 10 then [DigitChar(n)] else NatString(n / 10) + [DigitChar(n % 10)]
  }

  /** `str(n)` for an integer. */
  function IntString(n: int): string
  {
    if n < 0 then "-" + NatString(-n) else NatString(n)
  }

  lemma {:induction false} NatStringValue(n: nat)
    ensures DigitsValue(NatString(n)) == n
  {
    if n >= 10 {
      var s := NatString(n);
      assert s[..|s| - 1] == NatString(n / 10);
      NatStringValue(n / 10);
    }
  }

  /** `int()` whitespace before and after a trimmed string is stripped
      off, whatever its amount on either side. */
  lemma IntStripPadded(s: string, pre: string, post: string)
    requires |s| > 0 && !IsIntSpace(s[0]) && !IsIntSpace(s[|s| - 1])
    requires forall k :: 0 <= k < |pre| ==> IsIntSpace(pre[k])
    requires forall k :: 0 <= k < |post| ==> IsIntSpace(post[k])
    ensures IntStrip(pre + s + post) == s
  {
    var padded := pre + s + post;
    var i, j := |pre|, |pre| + |s|;
    assert forall k :: 0 <= k < i ==> padded[k] == pre[k];
    assert forall k :: j <= k < |padded| ==> padded[k] == post[k - j];
    assert padded[i] == s[0] && padded[j - 1] == s[|s| - 1];
    IntStripSpec(padded, i, j);
    assert padded[i..j] == s;
  }

  /** Whitespace before and after a line, in any amount on either side,
      does not change what `int()` reads. */
  lemma ParseIntPadded(s: string, pre: string, post: string)
    requires |s| > 0 && !IsIntSpace(s[0]) && !IsIntSpace(s[|s| - 1])
    requires forall k :: 0 <= k < |pre| ==> IsIntSpace(pre[k])
    requires forall k :: 0 <= k < |post| ==> IsIntSpace(post[k])
    ensures ParseInt(pre + s + post) == ParseInt(s)
  {
    IntStripPadded(s, pre, post);
    IntStripSpec(s, 0, |s|);
  }

  /** `int()` refuses a separator character that `str.isspace` accepts:
      with 0x1C around a digit the line is not a number. */
  lemma SeparatorNotIntSpace(d: char, sep: char)
    requires IsDigit(d) && sep as int == 28
    ensures IsSpace(sep) && !IsIntSpace(sep)
    ensures ParseInt([sep, d, sep]) == None
  {
    var s := [sep, d, sep];
    IntStripLeftSpec(s, 0);
    IntStripRightSpec(s, 3);
    assert !Grouped(s);
  }

  /** A single digit reads as its value. */
  lemma ParseDigit(c: char)
    requires IsDigit(c)
    ensures ParseInt([c]) == Some(DigitValue(c))
  {
    var s := [c];
    IntStripSpec(s, 0, 1);
    AllDigitsGrouped(s);
    DigitCountAll(s);
    assert s[0] != '-' && s[0] != '+';
    assert s[..0] == [];
    assert DigitsValue(s) == DigitValue(c);
  }

  lemma AllDigitsGrouped(s: string)
    requires |s| > 0 && forall k :: 0 <= k < |s| ==> IsDigit(s[k])
    ensures Grouped(s)
  {
  }

  /** `int()` reads a run of at most MaxStrDigits digits as its value. */
  lemma ParseDigits(digits: string)
    requires |digits| > 0 && forall k :: 0 <= k < |digits| ==> IsDigit(digits[k])
    requires |digits| <= MaxStrDigits
    ensures ParseInt(digits) == Some(DigitsValue(digits))
  {
    IntStripSpec(digits, 0, |digits|);
    AllDigitsGrouped(digits);
    DigitCountAll(digits);
    assert digits[0] != '-' && digits[0] != '+';
  }

  /** ... and the same run after a minus sign as its negation. */
  lemma ParseNegative(s: string)
    requires |s| > 1 && s[0] == '-'
    requires forall k :: 1 <= k < |s| ==> IsDigit(s[k])
    requires |s| - 1 <= MaxStrDigits
    ensures ParseInt(s) == Some(0 - DigitsValue(s[1..]) as int)
  {
    IntStripSpec(s, 0, |s|);
    assert IntStrip(s) == s;
    var digits := s[1..];
    assert forall k :: 0 <= k < |digits| ==> digits[k] == s[k + 1];
    AllDigitsGrouped(digits);
    DigitCountAll(digits);
  }

  lemma ParseNatString(m: nat)
    requires |NatString(m)| <= MaxStrDigits
    ensures ParseInt(NatString(m)) == Some(m)
  {
    NatStringValue(m);
    ParseDigits(NatString(m));
  }

  lemma ParseNegString(m: nat)
    requires |NatString(m)| <= MaxStrDigits
    ensures ParseInt("-" + NatString(m)) == Some(0 - m)
  {
    var s := "-" + NatString(m);
    assert s[1..] == NatString(m);
    NatStringValue(m);
    ParseNegative(s);
  }

  /** `int(str(n)) == n` for every integer `str()` writes, that is, with at
      most MaxStrDigits digits. */
  lemma ParseIntString(n: int)
    requires |NatString(if n < 0 then -n else n)| <= MaxStrDigits
    ensures ParseInt(IntString(n)) == Some(n)
  {
    if n < 0 {
      ParseNegString(-n);
    } else {
      ParseNatString(n);
    }
  }

  /** A number of more than MaxStrDigits digits is refused. */
  lemma ParseIntTooLong(s: string)
    requires |s| > MaxStrDigits && forall k :: 0 <= k < |s| ==> IsDigit(s[k])
    ensures ParseInt(s) == None
  {
    IntStripSpec(s, 0, |s|);
    AllDigitsGrouped(s);
    DigitCountAll(s);
    assert s[0] != '-' && s[0] != '+';
  }
}

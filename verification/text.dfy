/**
  ASCII text primitives standing in for the parts of Python's string library and
  of the `re` character classes that the linter uses: `\d`, `\w`, `\s`,
  `str.isalpha`, `str.isupper`, `str.lower`, `str.strip`, `str.split`,
  `str.join`, `in` on strings, and `int(...)` on a decimal literal.
  Only the ASCII range is modelled.
*/
module Text {
  import opened Wrappers

  predicate IsDigit(c: char) { '0' <= c <= '9' }
  predicate IsUpper(c: char) { 'A' <= c <= 'Z' }
  predicate IsLower(c: char) { 'a' <= c <= 'z' }
  predicate IsAlpha(c: char) { IsUpper(c) || IsLower(c) }
  /** `\w`: letters, digits and the underscore. */
  predicate IsWordChar(c: char) { IsAlpha(c) || IsDigit(c) || c == '_' }
  /** `\s` and `str.isspace`: space, \t \n \v \f \r and the separators 0x1c-0x1f. */
  predicate IsSpace(c: char) { c == ' ' || '\t' <= c <= '\r' || '\U{1C}' <= c <= '\U{1F}' }

  predicate AllDigits(s: string) { forall i :: 0 <= i < |s| ==> IsDigit(s[i]) }
  predicate AllSpace(s: string) { forall i :: 0 <= i < |s| ==> IsSpace(s[i]) }

  function ToLowerChar(c: char): char
  {
    if IsUpper(c) then (c as int + 32) as char else c
  }

  /** `str.lower()` on ASCII text. */
  function Lower(s: string): string
  {
    seq(|s|, i requires 0 <= i < |s| => ToLowerChar(s[i]))
  }

  /** The ordinal suffixes `st`, `nd`, `rd` and `th`, matched without regard to case. */
  predicate IsOrdinalSuffix(t: string)
  {
    var l := Lower(t);
    l == "st" || l == "nd" || l == "rd" || l == "th"
  }

  /** Lower-casing twice changes nothing more. */
  lemma LowerIdempotent(s: string)
    ensures Lower(Lower(s)) == Lower(s)
  {
  }

  /**
    The end of the longest run starting at `i` whose characters satisfy `p`:
    the greedy repetition `p*` of a regular expression.
  */
  function SpanEnd(s: string, i: nat, p: char -> bool): (j: nat)
    requires i <= |s|
    ensures i <= j <= |s|
    ensures forall k :: i <= k < j ==> p(s[k])
    ensures j < |s| ==> !p(s[j])
    decreases |s| - i
  {
    if i < |s| && p(s[i]) then SpanEnd(s, i + 1, p) else i
  }

  /** `s.endswith(suffix)`. */
  predicate EndsWith(s: string, suffix: string)
  {
    |suffix| <= |s| && s[|s| - |suffix|..] == suffix
  }

  /** `sub` occurs in `s` starting at index `i`. */
  predicate OccursAt(s: string, sub: string, i: nat)
  {
    i + |sub| <= |s| && s[i..i + |sub|] == sub
  }

  /** `sub in s`. */
  predicate Contains(s: string, sub: string)
  {
    exists i: nat | i <= |s| :: OccursAt(s, sub, i)
  }

  /** A text made of three pieces contains its middle piece. */
  lemma ContainsPart(s: string, a: string, b: string, c: string)
    requires s == a + b + c
    ensures Contains(s, b)
  {
    assert s[|a|..|a| + |b|] == b;
    assert OccursAt(s, b, |a|);
  }

  /** `s.startswith(prefix)`. */
  predicate StartsWith(s: string, prefix: string)
  {
    |prefix| <= |s| && s[..|prefix|] == prefix
  }

  function TrimLeft(s: string): (r: string)
    ensures |r| <= |s| && r == s[|s| - |r|..]
    ensures AllSpace(s[..|s| - |r|])
    ensures r == [] || !IsSpace(r[0])
  {
    if |s| > 0 && IsSpace(s[0]) then
      var r := TrimLeft(s[1..]);
      assert s[1..][..|s| - 1 - |r|] == s[1..|s| - |r|];
      r
    else s
  }

  function TrimRight(s: string): (r: string)
    ensures |r| <= |s| && r == s[..|r|]
    ensures AllSpace(s[|r|..])
    ensures r == [] || !IsSpace(r[|r| - 1])
  {
    if |s| > 0 && IsSpace(s[|s| - 1]) then
      var r := TrimRight(s[..|s| - 1]);
      r
    else s
  }

  /** The number of whitespace characters `str.strip()` removes at the front. */
  function Leading(s: string): nat
  {
    |s| - |TrimLeft(s)|
  }

  /**
    `str.strip()`: the result is the slice of `s` left after removing the
    whitespace at both ends, and it neither starts nor ends with whitespace.
  */
  function Strip(s: string): (r: string)
    ensures Leading(s) + |r| <= |s| && r == s[Leading(s)..Leading(s) + |r|]
    ensures AllSpace(s[..Leading(s)]) && AllSpace(s[Leading(s) + |r|..])
    ensures r == [] || (!IsSpace(r[0]) && !IsSpace(r[|r| - 1]))
  {
    var l := TrimLeft(s);
    var i := |s| - |l|;
    assert Leading(s) == i && l == s[i..];
    var r := TrimRight(l);
    assert l[..|r|] == s[i..i + |r|];
    assert l[|r|..] == s[i + |r|..];
    r
  }

  /** `sep.join(parts)`. */
  function Join(parts: seq<string>, sep: string): string
  {
    if |parts| == 0 then ""
    else if |parts| == 1 then parts[0]
    else parts[0] + sep + Join(parts[1..], sep)
  }

  /** `s.split(c)` for a one-character separator: the pieces between the separators. */
  function Split(s: string, c: char): (r: seq<string>)
    ensures |r| >= 1
  {
    if |s| == 0 then [""]
    else
      var rest := Split(s[1..], c);
      if s[0] == c then [""] + rest else [[s[0]] + rest[0]] + rest[1..]
  }

  lemma {:induction false} SplitNoSeparator(s: string, c: char)
    requires c !in s
    ensures Split(s, c) == [s]
  {
    if |s| > 0 {
      SplitNoSeparator(s[1..], c);
      assert [s[0]] + s[1..] == s;
    }
  }

  lemma {:induction false} SplitAtSeparator(p: string, c: char, q: string)
    requires c !in p
    ensures Split(p + [c] + q, c) == [p] + Split(q, c)
  {
    if |p| == 0 {
      assert p + [c] + q == [c] + q;
      assert ([c] + q)[1..] == q;
    } else {
      SplitAtSeparator(p[1..], c, q);
      assert (p + [c] + q)[1..] == p[1..] + [c] + q;
      assert [p[0]] + p[1..] == p;
    }
  }

  /**
    Joining pieces that do not contain the separator and splitting the result
    again gives the pieces back.
  */
  lemma {:induction false} SplitJoin(parts: seq<string>, c: char)
    requires |parts| >= 1
    requires forall i :: 0 <= i < |parts| ==> c !in parts[i]
    ensures Split(Join(parts, [c]), c) == parts
  {
    if |parts| == 1 {
      SplitNoSeparator(parts[0], c);
    } else {
      SplitJoin(parts[1..], c);
      SplitAtSeparator(parts[0], c, Join(parts[1..], [c]));
      assert parts == [parts[0]] + parts[1..];
    }
  }

  predicate NotSpace(c: char) { !IsSpace(c) }

  /** A non-empty piece of text without whitespace. */
  predicate IsWord(w: string)
  {
    |w| > 0 && forall m :: 0 <= m < |w| ==> NotSpace(w[m])
  }

  /** `str.split()` with no argument: the maximal runs of non-whitespace characters. */
  function SplitWords(s: string): (r: seq<string>)
    ensures |r| == 0 <==> AllSpace(s)
    decreases |s|
  {
    var t := TrimLeft(s);
    if |t| == 0 then []
    else
      var n := SpanEnd(t, 0, NotSpace);
      [t[..n]] + SplitWords(t[n..])
  }

  /** Every piece `str.split()` gives is a non-empty run without whitespace. */
  lemma {:induction false} SplitWordsAreWords(s: string)
    ensures forall k :: 0 <= k < |SplitWords(s)| ==> IsWord(SplitWords(s)[k])
    decreases |s|
  {
    var t := TrimLeft(s);
    if |t| > 0 {
      var n := SpanEnd(t, 0, NotSpace);
      SplitWordsAreWords(t[n..]);
      FirstWord(t);
      ConsWords(t[..n], SplitWords(t[n..]));
    }
  }

  /** The words laid end to end. */
  function Concat(words: seq<string>): string
  {
    if |words| == 0 then "" else words[0] + Concat(words[1..])
  }

  /** The text with every whitespace character removed. */
  function NonSpaceChars(s: string): string
  {
    if |s| == 0 then "" else (if IsSpace(s[0]) then "" else [s[0]]) + NonSpaceChars(s[1..])
  }

  lemma {:induction false} NonSpaceCharsAppend(a: string, b: string)
    ensures NonSpaceChars(a + b) == NonSpaceChars(a) + NonSpaceChars(b)
  {
    if |a| == 0 {
      assert a + b == b;
    } else {
      assert (a + b)[1..] == a[1..] + b;
      NonSpaceCharsAppend(a[1..], b);
    }
  }

  lemma {:induction false} NonSpaceCharsOfSpace(a: string)
    requires AllSpace(a)
    ensures NonSpaceChars(a) == ""
  {
    if |a| > 0 {
      NonSpaceCharsOfSpace(a[1..]);
    }
  }

  lemma {:induction false} NonSpaceCharsOfWord(w: string)
    requires forall m :: 0 <= m < |w| ==> NotSpace(w[m])
    ensures NonSpaceChars(w) == w
  {
    if |w| > 0 {
      NonSpaceCharsOfWord(w[1..]);
    }
  }

  /** `str.split()` loses nothing but whitespace: its words laid end to end are the text without whitespace. */
  lemma {:induction false} SplitWordsKeepsText(s: string)
    ensures Concat(SplitWords(s)) == NonSpaceChars(s)
    decreases |s|
  {
    var t := TrimLeft(s);
    LeadingSpaceDropped(s);
    if |t| > 0 {
      var n := SpanEnd(t, 0, NotSpace);
      SplitWordsKeepsText(t[n..]);
      FirstWordKept(t, n);
      var words := SplitWords(s);
      assert words[1..] == SplitWords(t[n..]);
    }
  }

  /** Leading whitespace contributes no characters. */
  lemma LeadingSpaceDropped(s: string)
    ensures NonSpaceChars(s) == NonSpaceChars(TrimLeft(s))
  {
    var t := TrimLeft(s);
    assert s == s[..|s| - |t|] + t;
    NonSpaceCharsAppend(s[..|s| - |t|], t);
    NonSpaceCharsOfSpace(s[..|s| - |t|]);
  }

  /** A first word contributes all its characters. */
  lemma FirstWordKept(t: string, n: nat)
    requires n <= |t| && forall m :: 0 <= m < n ==> NotSpace(t[m])
    ensures NonSpaceChars(t) == t[..n] + NonSpaceChars(t[n..])
  {
    assert t == t[..n] + t[n..];
    NonSpaceCharsAppend(t[..n], t[n..]);
    NonSpaceCharsOfWord(t[..n]);
  }

  lemma ConsWords(w: string, rest: seq<string>)
    requires IsWord(w) && forall k :: 0 <= k < |rest| ==> IsWord(rest[k])
    ensures forall k :: 0 <= k < |rest| + 1 ==> IsWord(([w] + rest)[k])
  {
    forall k | 0 < k < |rest| + 1
      ensures IsWord(([w] + rest)[k])
    {
      assert ([w] + rest)[k] == rest[k - 1];
    }
  }

  /** The run of non-whitespace at the start of a text that starts with one is a word. */
  lemma FirstWord(t: string)
    requires |t| > 0 && !IsSpace(t[0])
    ensures IsWord(t[..SpanEnd(t, 0, NotSpace)])
  {
    var n := SpanEnd(t, 0, NotSpace);
    forall m | 0 <= m < n
      ensures NotSpace(t[..n][m])
    {
      assert t[..n][m] == t[m];
    }
  }

  function Digit(d: nat): char
    requires d < 10
  {
    ('0' as int + d) as char
  }

  /** The value of a string of decimal digits. */
  function DigitsValue(s: string): nat
    requires AllDigits(s)
  {
    if |s| == 0 then 0
    else
      assert IsDigit(s[|s| - 1]);
      DigitsValue(s[..|s| - 1]) * 10 + (s[|s| - 1] as int - '0' as int)
  }

  /** Python's `str(n)` for a natural number. */
  function NatToString(n: nat): (r: string)
    ensures |r| > 0 && AllDigits(r)
  {
    if n < 10 then [Digit(n)] else NatToString(n / 10) + [Digit(n % 10)]
  }

  lemma {:induction false} NatToStringValue(n: nat)
    ensures DigitsValue(NatToString(n)) == n
  {
    if n >= 10 {
      NatToStringValue(n / 10);
      var r := NatToString(n);
      assert r[..|r| - 1] == NatToString(n / 10);
    }
  }

  lemma NatToStringInjective(a: nat, b: nat)
    requires NatToString(a) == NatToString(b)
    ensures a == b
  {
    NatToStringValue(a);
    NatToStringValue(b);
  }

  /** Two underscores in a row start at `i`. */
  predicate DoubleUnderscoreAt(s: string, i: nat)
  {
    i + 1 < |s| && s[i] == '_' && s[i + 1] == '_'
  }

  /** Digits with single underscores between them, as `int()` accepts. */
  predicate IsPyDigits(s: string)
  {
    && |s| > 0 && IsDigit(s[0]) && IsDigit(s[|s| - 1])
    && (forall i :: 0 <= i < |s| ==> IsDigit(s[i]) || s[i] == '_')
    && (forall i :: 0 <= i < |s| ==> !DoubleUnderscoreAt(s, i))
  }

  function RemoveUnderscores(s: string): (r: string)
    ensures (forall i :: 0 <= i < |s| ==> IsDigit(s[i]) || s[i] == '_') ==> AllDigits(r)
  {
    if |s| == 0 then "" else (if s[0] == '_' then "" else [s[0]]) + RemoveUnderscores(s[1..])
  }

  /**
    Python's `int(s)` on a decimal literal: surrounding whitespace, an optional
    sign, then digits with single underscores between them; `None` where Python
    raises `ValueError`.
  */
  function ParseInt(s: string): (r: Option<int>)
    ensures r.Some? ==> |Strip(s)| > 0
    ensures r.Some? && r.value < 0 ==> Strip(s)[0] == '-'
  {
    ParseLiteral(Strip(s))
  }

  /** `int()` on text without surrounding whitespace: an optional sign, then the digits. */
  function ParseLiteral(t: string): (r: Option<int>)
    ensures r.Some? ==> |t| > 0
    ensures r.Some? && r.value < 0 ==> t[0] == '-'
  {
    var neg := |t| > 0 && t[0] == '-';
    var body := if |t| > 0 && (t[0] == '-' || t[0] == '+') then t[1..] else t;
    if IsPyDigits(body) then
      var v := DigitsValue(RemoveUnderscores(body));
      var n: int := v;
      Some(if neg then 0 - n else n)
    else None
  }


  lemma {:induction false} RemoveUnderscoresOfDigits(s: string)
    requires AllDigits(s)
    ensures RemoveUnderscores(s) == s
  {
    if |s| > 0 {
      assert IsDigit(s[0]);
      RemoveUnderscoresOfDigits(s[1..]);
    }
  }

  /** A text that neither starts nor ends with whitespace is its own `strip()`. */
  lemma StripUnspaced(s: string)
    requires |s| > 0 && !IsSpace(s[0]) && !IsSpace(s[|s| - 1])
    ensures Strip(s) == s
  {
  }

  /** A run of digits is a literal `int()` accepts, and its value is read as it is. */
  lemma PyDigitsOfDigits(d: string)
    requires |d| > 0 && AllDigits(d)
    ensures IsPyDigits(d) && RemoveUnderscores(d) == d
  {
    assert IsDigit(d[0]) && IsDigit(d[|d| - 1]);
    RemoveUnderscoresOfDigits(d);
  }

  /** `int()` reads a run of digits as its value. */
  lemma ParseIntOfDigits(d: string)
    requires |d| > 0 && AllDigits(d)
    ensures ParseInt(d) == Some(DigitsValue(d))
  {
    assert IsDigit(d[0]) && IsDigit(d[|d| - 1]);
    StripUnspaced(d);
    DigitsLiteral(d);
  }

  /** `int()` reads a minus sign followed by a run of digits as the negated value. */
  lemma ParseIntOfNegatedDigits(d: string)
    requires |d| > 0 && AllDigits(d)
    ensures ParseInt("-" + d) == Some(0 - DigitsValue(d))
  {
    var m := "-" + d;
    assert IsDigit(d[|d| - 1]) && m[|m| - 1] == d[|d| - 1];
    StripUnspaced(m);
    NegatedLiteral(d);
  }

  lemma DigitsLiteral(d: string)
    requires |d| > 0 && AllDigits(d)
    ensures ParseLiteral(d) == Some(DigitsValue(d))
  {
    assert IsDigit(d[0]) && d[0] != '-' && d[0] != '+';
    PyDigitsOfDigits(d);
    assert DigitsValue(RemoveUnderscores(d)) == DigitsValue(d);
  }

  lemma NegatedLiteral(d: string)
    requires |d| > 0 && AllDigits(d)
    ensures ParseLiteral("-" + d) == Some(0 - DigitsValue(d))
  {
    var m := "-" + d;
    assert m[0] == '-' && m[1..] == d;
    PyDigitsOfDigits(d);
    NegativeLiteral(m);
  }

  lemma NegativeLiteral(t: string)
    requires |t| > 0 && t[0] == '-' && IsPyDigits(t[1..])
    ensures ParseLiteral(t) == Some(0 - DigitsValue(RemoveUnderscores(t[1..])))
  {
  }

  /** `int(str(n)) == n`. */
  lemma ParseIntNatToString(n: nat)
    ensures ParseInt(NatToString(n)) == Some(n)
  {
    ParseIntOfDigits(NatToString(n));
    NatToStringValue(n);
  }

  /** `int("-" + str(n)) == -n`. */
  lemma ParseIntNegated(n: nat)
    ensures ParseInt("-" + NatToString(n)) == Some(0 - n)
  {
    ParseIntOfNegatedDigits(NatToString(n));
    NatToStringValue(n);
  }

  /** Number of occurrences of `x` in `s` (`collections.Counter(s)[x]`). */
  function Count<T(==)>(s: seq<T>, x: T): nat
  {
    if |s| == 0 then 0 else Count(s[..|s| - 1], x) + (if s[|s| - 1] == x then 1 else 0)
  }

  /** The indices below `n` at which `s` holds `x`, ascending. */
  function IndicesOf<T(==)>(s: seq<T>, x: T, n: nat): (r: seq<nat>)
    requires n <= |s|
    ensures |r| == Count(s[..n], x)
    ensures forall i :: i in r <==> 0 <= i < n && s[i] == x
    ensures forall a, b :: 0 <= a < b < |r| ==> r[a] < r[b]
  {
    if n == 0 then []
    else
      assert s[..n][..n - 1] == s[..n - 1];
      var r := IndicesOf(s, x, n - 1);
      forall a | 0 <= a < |r|
        ensures r[a] < n - 1
      {
        assert r[a] in r;
      }
      r + (if s[n - 1] == x then [n - 1] else [])
  }

  /** An element occurs more than once exactly when another position holds it too. */
  lemma CountAboveOne<T>(s: seq<T>, k: nat)
    requires k < |s|
    ensures Count(s, s[k]) > 1 <==> exists j :: 0 <= j < |s| && j != k && s[j] == s[k]
  {
    assert s[..|s|] == s;
    var r := IndicesOf(s, s[k], |s|);
    assert k in r;
    if Count(s, s[k]) > 1 {
      if r[0] != k {
        assert r[0] in r;
      } else {
        assert r[1] in r;
      }
    }
    if exists j :: 0 <= j < |s| && j != k && s[j] == s[k] {
      var j :| 0 <= j < |s| && j != k && s[j] == s[k];
      assert j in r;
    }
  }
}

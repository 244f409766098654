/**
  `BibParser.parse_file` of main.py, from the text already read from the
  file: comment stripping, line-ending normalisation, the entry scanner, the
  field scanner, value unwrapping and the dispatch on the entry type.

  The two regular expressions of the source are modelled as deterministic
  scanners over ASCII character classes. Each scanner makes the choice the
  backtracking engine tries first, the maximal run of every greedy
  repetition, and the engine never needs to give characters back. After a
  maximal `\w+`, `[^,]+` or one of the field pattern's `\s*`, the next
  character of the pattern is one the run excludes, so a shorter run would
  fail there. After the entry pattern's `\s*` the lazy body always succeeds,
  since the look-ahead alternative `\Z` holds at the end of the text. After
  the field pattern's value the comma is optional, so the match succeeds
  whether or not one follows.
*/
module Parser {
  import opened Wrappers
  import opened Text
  import opened Dicts
  import opened Entries

  predicate NotNewline(c: char) { c != '\n' }
  predicate NotComma(c: char) { c != ',' }
  predicate NotQuote(c: char) { c != '"' }

  // ---------------------------------------------------------------------------
  // Comments and line endings

  /**
    `re.sub(r'%.*?$', '', s, flags=re.MULTILINE)`: every `%` and the rest of
    its line, up to but not including the line break, is removed.
  */
  function StripComments(s: string): (r: string)
    ensures '%' !in r
    decreases |s|
  {
    if |s| == 0 then ""
    else if s[0] == '%' then StripComments(s[SpanEnd(s, 0, NotNewline)..])
    else [s[0]] + StripComments(s[1..])
  }

  /** Text without `%` is kept as it is. */
  lemma {:induction false} StripCommentsKeepsText(a: string, rest: string)
    requires '%' !in a
    ensures StripComments(a + rest) == a + StripComments(rest)
  {
    if |a| > 0 {
      StripCommentsKeepsText(a[1..], rest);
      assert (a + rest)[1..] == a[1..] + rest;
    } else {
      assert a + rest == rest;
    }
  }

  /** A comment is removed up to the end of its line; the line break stays. */
  lemma StripCommentsDropsComment(b: string, rest: string)
    requires '\n' !in b
    requires rest == [] || rest[0] == '\n'
    ensures StripComments(['%'] + b + rest) == StripComments(rest)
  {
    var s := ['%'] + b + rest;
    var j := SpanEnd(s, 0, NotNewline);
    assert s[0] == '%';
    assert forall k :: 1 <= k < 1 + |b| ==> s[k] == b[k - 1];
    assert 1 + |b| < |s| ==> s[1 + |b|] == '\n';
    assert j == 1 + |b|;
    assert s[j..] == rest;
  }

  /** `s.replace('\r\n', '\n')`: non-overlapping, from left to right. */
  function ReplaceCRLF(s: string): string
    decreases |s|
  {
    if |s| >= 2 && s[0] == '\r' && s[1] == '\n' then "\n" + ReplaceCRLF(s[2..])
    else if |s| == 0 then ""
    else [s[0]] + ReplaceCRLF(s[1..])
  }

  /** `s.replace('\r', '\n')`. */
  function ReplaceCR(s: string): (r: string)
    ensures |r| == |s| && '\r' !in r
    ensures forall i :: 0 <= i < |s| ==> r[i] == (if s[i] == '\r' then '\n' else s[i])
  {
    seq(|s|, i requires 0 <= i < |s| => if s[i] == '\r' then '\n' else s[i])
  }

  /** `if not s.endswith('\n'): s += '\n'`. */
  function EnsureFinalNewline(s: string): (r: string)
    ensures EndsWith(r, "\n")
  {
    if EndsWith(s, "\n") then s else s + "\n"
  }

  /** The two replacements and the final line break of main.py. */
  function NormalizeLineEndings(s: string): string
  {
    EnsureFinalNewline(ReplaceCR(ReplaceCRLF(s)))
  }

  /** Normalised text has no carriage return and ends with a line break. */
  lemma NormalizedText(s: string)
    ensures '\r' !in NormalizeLineEndings(s)
    ensures |NormalizeLineEndings(s)| > 0 && NormalizeLineEndings(s)[|NormalizeLineEndings(s)| - 1] == '\n'
  {
    var t := ReplaceCR(ReplaceCRLF(s));
    if !EndsWith(t, "\n") {
      assert '\r' !in t + "\n";
    }
  }

  /** Text that is already normalised is left alone, so normalising twice changes nothing. */
  lemma NormalizeFixesNormalized(s: string)
    requires '\r' !in s && EndsWith(s, "\n")
    ensures NormalizeLineEndings(s) == s
  {
    assert ReplaceCRLF(s) == s by { ReplaceCRLFWithoutCR(s); }
    assert ReplaceCR(s) == s;
  }

  lemma {:induction false} ReplaceCRLFWithoutCR(s: string)
    requires '\r' !in s
    ensures ReplaceCRLF(s) == s
  {
    if |s| > 0 {
      ReplaceCRLFWithoutCR(s[1..]);
      assert [s[0]] + s[1..] == s;
    }
  }

  // ---------------------------------------------------------------------------
  // The entry pattern  @(\w+)\{([^,]+),\s*(.*?)(?=\n@|\n\s*\Z|\Z)

  datatype EntryMatch = EntryMatch(entryType: string, citationKey: string, body: string, end: nat)

  /**
    The end of the lazy `(.*?)` started at `q`: the first position where one
    of the look-ahead alternatives holds, that is the end of the text, or a
    line break followed by `@`, or a line break followed only by whitespace.
  */
  function BodyEnd(s: string, q: nat): (e: nat)
    requires q <= |s|
    ensures q <= e <= |s|
    ensures e == |s| || (s[e] == '\n' && ((e + 1 < |s| && s[e + 1] == '@') || AllSpace(s[e + 1..])))
    ensures forall p :: q <= p < e ==> !(s[p] == '\n' && ((p + 1 < |s| && s[p + 1] == '@') || AllSpace(s[p + 1..])))
    decreases |s| - q
  {
    if q == |s| then q
    else if s[q] == '\n' && ((q + 1 < |s| && s[q + 1] == '@') || AllSpace(s[q + 1..])) then q
    else BodyEnd(s, q + 1)
  }

  /** The entry pattern tried at position `i` (`None` where it does not match there). */
  function MatchEntryAt(s: string, i: nat): (r: Option<EntryMatch>)
    requires i <= |s|
    ensures r.Some? ==> i < r.value.end <= |s|
    ensures r.Some? ==> |r.value.entryType| > 0 && forall k :: 0 <= k < |r.value.entryType| ==> IsWordChar(r.value.entryType[k])
    ensures r.Some? ==> |r.value.citationKey| > 0 && ',' !in r.value.citationKey
    ensures r.Some? ==> i < |s| && s[i] == '@'
  {
    if i < |s| && s[i] == '@' then
      var t := SpanEnd(s, i + 1, IsWordChar);
      if t > i + 1 && t < |s| && s[t] == '{' then
        var k := SpanEnd(s, t + 1, NotComma);
        if k > t + 1 && k < |s| && s[k] == ',' then
          var b := SpanEnd(s, k + 1, IsSpace);
          var e := BodyEnd(s, b);
          Some(EntryMatch(s[i + 1..t], s[t + 1..k], s[b..e], e))
        else None
      else None
    else None
  }

  /** `entry_pattern.finditer(s)` from position `i`: each search resumes where the last match ended. */
  function EntryMatches(s: string, i: nat): (r: seq<EntryMatch>)
    requires i <= |s|
    ensures forall m | m in r :: |m.entryType| > 0 && ',' !in m.citationKey
    decreases |s| - i
  {
    if i == |s| then []
    else
      match MatchEntryAt(s, i)
      case None => EntryMatches(s, i + 1)
      case Some(m) => [m] + EntryMatches(s, m.end)
  }

  // ---------------------------------------------------------------------------
  // The field pattern  (\w+)\s*=\s*(\{...\}|"[^"]*"|\d+),?

  datatype FieldMatch = FieldMatch(key: string, value: string, end: nat)

  /**
    The end of a brace-delimited value whose opening brace is before `j`, at
    nesting `depth`: the pattern nests braces at most three deep, so a fourth
    opening brace, or the end of the text, makes it fail.
  */
  function BraceEnd(f: string, j: nat, depth: nat): (r: Option<nat>)
    requires 1 <= depth <= 3 && j <= |f|
    ensures r.Some? ==> j < r.value <= |f| && f[r.value - 1] == '}'
    decreases |f| - j
  {
    if j == |f| then None
    else if f[j] == '{' then (if depth == 3 then None else BraceEnd(f, j + 1, depth + 1))
    else if f[j] == '}' then (if depth == 1 then Some(j + 1) else BraceEnd(f, j + 1, depth - 1))
    else BraceEnd(f, j + 1, depth)
  }

  /** The nesting depth after one character: an opening brace enters a level, a closing one leaves it. */
  function Step(c: char, depth: int): int
  {
    if c == '{' then depth + 1 else if c == '}' then depth - 1 else depth
  }

  /** The nesting depth reached after reading `f[j..k]`, starting at `depth`. */
  function Depth(f: string, j: nat, k: nat, depth: int): int
    requires j <= k <= |f|
    decreases k - j
  {
    if j == k then depth else Depth(f, j + 1, k, Step(f[j], depth))
  }

  /**
    `f[j..e]` closes the value: the depth stays between one and three before
    every character of it and first drops to zero after its last one.
  */
  ghost predicate ClosesAt(f: string, j: nat, e: nat, depth: int)
  {
    && j < e <= |f|
    && Depth(f, j, e, depth) == 0
    && forall k :: j <= k < e ==> 1 <= Depth(f, j, k, depth) <= 3
  }

  /** Closing from `j` is a matter of the first character and of closing from `j + 1`. */
  lemma ClosesAtShift(f: string, j: nat, e: nat, depth: int)
    requires 1 <= depth <= 3 && j < |f|
    ensures ClosesAt(f, j, e, depth) <==>
      || (e == j + 1 && Step(f[j], depth) == 0)
      || (1 <= Step(f[j], depth) <= 3 && ClosesAt(f, j + 1, e, Step(f[j], depth)))
  {
    var d := Step(f[j], depth);
    if j < e <= |f| {
      assert forall k :: j < k <= e ==> Depth(f, j, k, depth) == Depth(f, j + 1, k, d);
      if e > j + 1 {
        assert Depth(f, j, j + 1, depth) == d;
        if ClosesAt(f, j, e, depth) {
          var next := j + 1;
          forall k | next <= k < e ensures 1 <= Depth(f, next, k, d) <= 3 {
            assert Depth(f, j, k, depth) == Depth(f, next, k, d);
          }
        }
        if 1 <= d <= 3 && ClosesAt(f, j + 1, e, d) {
          forall k | j <= k < e ensures 1 <= Depth(f, j, k, depth) <= 3 {
            if k > j {
              assert Depth(f, j, k, depth) == Depth(f, j + 1, k, d);
            }
          }
        }
      }
    }
  }

  /** `BraceEnd` finds exactly the end at which the value closes, and fails when it never does. */
  lemma {:induction false} BraceEndExactly(f: string, j: nat, depth: nat, e: nat)
    requires 1 <= depth <= 3 && j <= |f|
    ensures BraceEnd(f, j, depth) == Some(e) <==> ClosesAt(f, j, e, depth)
    decreases |f| - j
  {
    if j < |f| {
      ClosesAtShift(f, j, e, depth);
      var d := Step(f[j], depth);
      if 1 <= d <= 3 {
        BraceEndExactly(f, j + 1, d, e);
      }
    }
  }

  /** A value as the field pattern captures it: braced, quoted, or a run of digits. */
  predicate WellFormedValue(v: string)
  {
    || (|v| >= 2 && v[0] == '{' && v[|v| - 1] == '}')
    || (|v| >= 2 && v[0] == '"' && v[|v| - 1] == '"')
    || (|v| > 0 && AllDigits(v))
  }

  /** The end of the value alternative that starts at `v`, if one matches there. */
  function ValueEnd(f: string, v: nat): (r: Option<nat>)
    requires v <= |f|
    ensures r.Some? ==> v < r.value <= |f| && WellFormedValue(f[v..r.value])
  {
    if v == |f| then None
    else if f[v] == '{' then BraceEnd(f, v + 1, 1)
    else if f[v] == '"' then
      var q := SpanEnd(f, v + 1, NotQuote);
      if q < |f| then Some(q + 1) else None
    else if IsDigit(f[v]) then
      var e := SpanEnd(f, v, IsDigit);
      assert forall k :: 0 <= k < e - v ==> f[v..e][k] == f[v + k];
      Some(e)
    else None
  }

  /** The field pattern tried at position `i`. */
  function MatchFieldAt(f: string, i: nat): (r: Option<FieldMatch>)
    requires i <= |f|
    ensures r.Some? ==> i < r.value.end <= |f|
    ensures r.Some? ==> |r.value.key| > 0 && forall k :: 0 <= k < |r.value.key| ==> IsWordChar(r.value.key[k])
    ensures r.Some? ==> WellFormedValue(r.value.value)
  {
    var k := SpanEnd(f, i, IsWordChar);
    if k == i then None
    else
      var e := SpanEnd(f, k, IsSpace);
      if e == |f| || f[e] != '=' then None
      else
        var v := SpanEnd(f, e + 1, IsSpace);
        match ValueEnd(f, v)
        case None => None
        case Some(ve) =>
          var end := if ve < |f| && f[ve] == ',' then ve + 1 else ve;
          Some(FieldMatch(f[i..k], f[v..ve], end))
  }

  /** `field_pattern.finditer(f)` from position `i`. */
  function FieldMatches(f: string, i: nat): (r: seq<FieldMatch>)
    requires i <= |f|
    ensures forall m | m in r :: |m.key| > 0 && (forall k :: 0 <= k < |m.key| ==> IsWordChar(m.key[k]))
                                 && WellFormedValue(m.value)
    decreases |f| - i
  {
    if i == |f| then []
    else
      match MatchFieldAt(f, i)
      case None => FieldMatches(f, i + 1)
      case Some(m) => [m] + FieldMatches(f, m.end)
  }

  // ---------------------------------------------------------------------------
  // Field names and values

  /** `s.replace("\n", "")`. */
  function RemoveNewlines(s: string): (r: string)
    ensures '\n' !in r
  {
    if |s| == 0 then "" else (if s[0] == '\n' then "" else [s[0]]) + RemoveNewlines(s[1..])
  }

  lemma {:induction false} RemoveNewlinesAppend(a: string, b: string)
    ensures RemoveNewlines(a + b) == RemoveNewlines(a) + RemoveNewlines(b)
  {
    if |a| == 0 {
      assert a + b == b;
    } else {
      var h := if a[0] == '\n' then "" else [a[0]];
      var ab := a + b;
      assert ab[0] == a[0] && ab[1..] == a[1..] + b;
      RemoveNewlinesAppend(a[1..], b);
      calc {
        RemoveNewlines(ab);
        h + RemoveNewlines(a[1..] + b);
        h + (RemoveNewlines(a[1..]) + RemoveNewlines(b));
        (h + RemoveNewlines(a[1..])) + RemoveNewlines(b);
      }
    }
  }

  /** The value starts with `{` and ends with `}`, or starts and ends with `"`. */
  predicate Wrapped(v: string)
  {
    (StartsWith(v, "{") && EndsWith(v, "}")) || (StartsWith(v, "\"") && EndsWith(v, "\""))
  }

  /**
    Removing one pair of surrounding braces or quotes, as main.py does with
    `value[1:-1]`: a wrapped value always changes, losing its first and last
    character (a lone `"` becomes empty), and any other value is kept.
  */
  function Unwrap(v: string): (r: string)
    ensures Wrapped(v) <==> r != v
    ensures Wrapped(v) && |v| >= 2 ==> r == v[1..|v| - 1]
    ensures Wrapped(v) && |v| == 1 ==> r == []
  {
    if Wrapped(v) then
      if |v| >= 2 then v[1..|v| - 1] else ""
    else v
  }

  /** The dictionary key of a captured name: stripped and lower-cased. */
  function FieldName(key: string): (r: string)
    ensures Lower(r) == r
  {
    LowerIdempotent(Strip(key));
    Lower(Strip(key))
  }

  /** The stored value of a captured value: stripped, without line breaks, unwrapped. */
  function FieldValue(raw: string): (r: string)
    ensures '\n' !in r
  {
    Unwrap(RemoveNewlines(Strip(raw)))
  }

  /**
    A braced or quoted value loses exactly its outer pair (and any line
    breaks); a run of digits is kept as it is.
  */
  lemma UnwrapValue(v: string)
    requires WellFormedValue(v)
    ensures AllDigits(v) ==> FieldValue(v) == v
    ensures !AllDigits(v) ==> FieldValue(v) == RemoveNewlines(v[1..|v| - 1])
  {
    StripUnspaced(v);
    if AllDigits(v) {
      RemoveNewlinesOfDigits(v);
      assert IsDigit(v[0]);
    } else {
      UnwrapWrapped(v);
    }
  }

  /** A braced or quoted value, once its line breaks are gone, loses exactly its outer pair. */
  lemma UnwrapWrapped(v: string)
    requires |v| >= 2 && ((v[0] == '{' && v[|v| - 1] == '}') || (v[0] == '"' && v[|v| - 1] == '"'))
    ensures Unwrap(RemoveNewlines(v)) == RemoveNewlines(v[1..|v| - 1])
  {
    RemoveNewlinesInside(v);
    UnwrapPair(v[0], RemoveNewlines(v[1..|v| - 1]), v[|v| - 1]);
  }

  /** A value between a matching pair loses exactly that pair. */
  lemma UnwrapPair(open: char, x: string, close: char)
    requires (open == '{' && close == '}') || (open == '"' && close == '"')
    ensures Unwrap([open] + (x + [close])) == x
  {
    var t := [open] + (x + [close]);
    assert t[..1] == [open] && t[|t| - 1..] == [close];
    assert Wrapped(t);
    assert t[1..|t| - 1] == x;
  }

  /** Line breaks are removed inside a value whose two ends are not line breaks. */
  lemma RemoveNewlinesInside(v: string)
    requires |v| >= 2 && v[0] != '\n' && v[|v| - 1] != '\n'
    ensures RemoveNewlines(v) == [v[0]] + (RemoveNewlines(v[1..|v| - 1]) + [v[|v| - 1]])
  {
    var w := v[1..];
    assert w[..|w| - 1] == v[1..|v| - 1];
    RemoveNewlinesLast(w);
  }

  /** Line breaks are removed from a value ending in something else up to its last character. */
  lemma RemoveNewlinesLast(w: string)
    requires |w| > 0 && w[|w| - 1] != '\n'
    ensures RemoveNewlines(w) == RemoveNewlines(w[..|w| - 1]) + [w[|w| - 1]]
  {
    assert w == w[..|w| - 1] + [w[|w| - 1]];
    RemoveNewlinesAppend(w[..|w| - 1], [w[|w| - 1]]);
    RemoveNewlinesChar(w[|w| - 1]);
  }

  /** A single character other than a line break is kept. */
  lemma RemoveNewlinesChar(c: char)
    requires c != '\n'
    ensures RemoveNewlines([c]) == [c]
  {
    assert [c][1..] == [];
  }

  lemma {:induction false} RemoveNewlinesOfDigits(v: string)
    requires AllDigits(v)
    ensures RemoveNewlines(v) == v
  {
    if |v| > 0 {
      RemoveNewlinesOfDigits(v[1..]);
      assert [v[0]] + v[1..] == v;
    }
  }

  // ---------------------------------------------------------------------------
  // Fields of an entry

  /** The `fields` dictionary after the field loop has run over `fs`. */
  function Fields(fs: seq<FieldMatch>): Dict<string>
  {
    if |fs| == 0 then []
    else
      var f := fs[|fs| - 1];
      Put(Fields(fs[..|fs| - 1]), FieldName(f.key), FieldValue(f.value))
  }

  /** The dictionary has no repeated name, every name is lower-case and no value spans lines. */
  lemma {:induction false} FieldsWellFormed(fs: seq<FieldMatch>)
    ensures DistinctKeys(Fields(fs))
    ensures forall i :: 0 <= i < |Fields(fs)| ==> Lower(Fields(fs)[i].0) == Fields(fs)[i].0 && '\n' !in Fields(fs)[i].1
  {
    if |fs| > 0 {
      var prev := Fields(fs[..|fs| - 1]);
      var f := fs[|fs| - 1];
      FieldsWellFormed(fs[..|fs| - 1]);
      PutDistinct(prev, FieldName(f.key), FieldValue(f.value));
      PutPairs(prev, FieldName(f.key), FieldValue(f.value));
    }
  }

  /** Position `i` holds the last field of `fs` named `k`. */
  predicate IsLastNamed(fs: seq<FieldMatch>, k: string, i: nat)
  {
    && i < |fs| && FieldName(fs[i].key) == k
    && forall j :: i < j < |fs| ==> FieldName(fs[j].key) != k
  }

  /** A repeated field name keeps the value of its last occurrence. */
  lemma {:induction false} FieldsKeepLast(fs: seq<FieldMatch>, k: string, i: nat)
    requires IsLastNamed(fs, k, i)
    ensures Get(Fields(fs), k) == Some(FieldValue(fs[i].value))
  {
    var n := |fs| - 1;
    var key, value := FieldName(fs[n].key), FieldValue(fs[n].value);
    assert Fields(fs) == Put(Fields(fs[..n]), key, value);
    if i == n {
      assert key == k && value == FieldValue(fs[i].value);
    } else {
      LastNamedInPrefix(fs, k, i);
      FieldsKeepLast(fs[..n], k, i);
      assert Get(Put(Fields(fs[..n]), key, value), k) == Get(Fields(fs[..n]), k);
    }
  }

  /** Dropping a later field keeps `i` the last position named `k`. */
  lemma LastNamedInPrefix(fs: seq<FieldMatch>, k: string, i: nat)
    requires IsLastNamed(fs, k, i) && i < |fs| - 1
    ensures IsLastNamed(fs[..|fs| - 1], k, i) && fs[..|fs| - 1][i] == fs[i]
    ensures FieldName(fs[|fs| - 1].key) != k
  {
    var p := fs[..|fs| - 1];
    forall j | i < j < |p| ensures FieldName(p[j].key) != k {
      assert p[j] == fs[j];
    }
  }

  /** One more field match assigns one more name. */
  lemma FieldsStep(fs: seq<FieldMatch>, j: nat)
    requires j < |fs|
    ensures Fields(fs[..j + 1]) == Put(Fields(fs[..j]), FieldName(fs[j].key), FieldValue(fs[j].value))
  {
    assert fs[..j + 1][..j] == fs[..j];
  }

  /** A name no field carries is absent from the dictionary. */
  lemma {:induction false} FieldsAbsent(fs: seq<FieldMatch>, k: string)
    requires forall j :: 0 <= j < |fs| ==> FieldName(fs[j].key) != k
    ensures Get(Fields(fs), k) == None
  {
    if |fs| > 0 {
      FieldsAbsent(fs[..|fs| - 1], k);
    }
  }

  // ---------------------------------------------------------------------------
  // Entries

  /** The subclass main.py builds for a lower-cased type; other types are dropped. */
  function KindOf(entryType: string): (r: Option<Kind>)
    ensures r == Some(Article) <==> entryType == "article"
    ensures r == Some(InProceedings) <==> entryType == "inproceedings"
    ensures r == Some(Book) <==> entryType == "book"
    ensures r != Some(Others)
  {
    if entryType == "article" then Some(Article)
    else if entryType == "inproceedings" then Some(InProceedings)
    else if entryType == "book" then Some(Book)
    else None
  }

  /** What one parsed entry is built from. */
  datatype Parsed = Parsed(kind: Kind, entryType: string, citationKey: string, fields: Dict<string>)

  /** The well-formedness every parsed entry has. */
  ghost predicate GoodParsed(p: Parsed)
  {
    && p.kind != Others && p.entryType == EntryTypeOf(p.kind, p.entryType)
    && ',' !in p.citationKey
    && (p.citationKey == [] || (!IsSpace(p.citationKey[0]) && !IsSpace(p.citationKey[|p.citationKey| - 1])))
    && DistinctKeys(p.fields)
    && (forall i :: 0 <= i < |p.fields| ==> Lower(p.fields[i].0) == p.fields[i].0 && '\n' !in p.fields[i].1)
  }

  /** The entry one match yields, if its type is one main.py keeps. */
  function ParsedOf(m: EntryMatch): (r: Option<Parsed>)
    ensures r.Some? <==> KindOf(Lower(m.entryType)).Some?
    ensures r.Some? ==> r.value.kind == KindOf(Lower(m.entryType)).value && r.value.entryType == Lower(m.entryType)
  {
    match KindOf(Lower(m.entryType))
    case None => None
    case Some(kind) =>
      Some(Parsed(kind, Lower(m.entryType), Strip(m.citationKey), Fields(FieldMatches(Strip(m.body), 0))))
  }

  /** A match with a comma-free key yields a well-formed record. */
  lemma ParsedOfGood(m: EntryMatch)
    requires ',' !in m.citationKey
    ensures ParsedOf(m).Some? ==> GoodParsed(ParsedOf(m).value)
  {
    if ParsedOf(m).Some? {
      var key := Strip(m.citationKey);
      var fs := FieldMatches(Strip(m.body), 0);
      var p := ParsedOf(m).value;
      assert p.citationKey == key && p.fields == Fields(fs);
      StrippedKeyGood(m.citationKey);
      FieldsWellFormed(fs);
    }
  }

  /** A stripped comma-free key stays comma-free and has no surrounding white space. */
  lemma StrippedKeyGood(k: string)
    requires ',' !in k
    ensures ',' !in Strip(k)
    ensures Strip(k) == [] || (!IsSpace(Strip(k)[0]) && !IsSpace(Strip(k)[|Strip(k)| - 1]))
  {
    SliceAvoids(k, Leading(k), Leading(k) + |Strip(k)|, ',');
  }

  lemma SliceAvoids(s: string, i: nat, j: nat, c: char)
    requires i <= j <= |s| && c !in s
    ensures c !in s[i..j]
  {
    assert forall k :: 0 <= k < j - i ==> s[i..j][k] == s[i + k];
  }

  predicate CommaFreeKeys(ms: seq<EntryMatch>)
  {
    forall i :: 0 <= i < |ms| ==> ',' !in ms[i].citationKey
  }

  /** An optional value as a list of zero or one elements. */
  function OptionSeq<U>(o: Option<U>): (r: seq<U>)
    ensures o.None? <==> r == []
    ensures o.Some? ==> r == [o.value]
  {
    match o
    case None => []
    case Some(u) => [u]
  }

  /** The values `f` yields over `xs`, in order, skipping the `None`s. */
  function Collect<T, U>(f: T -> Option<U>, xs: seq<T>): (r: seq<U>)
    ensures |r| <= |xs|
  {
    if |xs| == 0 then [] else Collect(f, xs[..|xs| - 1]) + OptionSeq(f(xs[|xs| - 1]))
  }

  /** Collecting over two stretches concatenates the results, in order. */
  lemma {:induction false} CollectAppend<T, U>(f: T -> Option<U>, a: seq<T>, b: seq<T>)
    ensures Collect(f, a + b) == Collect(f, a) + Collect(f, b)
  {
    if |b| > 0 {
      var n := |b| - 1;
      assert (a + b)[..|a + b| - 1] == a + b[..n];
      assert (a + b)[|a + b| - 1] == b[n];
      CollectAppend(f, a, b[..n]);
    } else {
      assert a + b == a;
    }
  }

  /** One more element extends the result by what `f` yields for it. */
  lemma CollectStep<T, U>(f: T -> Option<U>, xs: seq<T>, n: nat)
    requires n < |xs|
    ensures Collect(f, xs[..n + 1]) == Collect(f, xs[..n]) + OptionSeq(f(xs[n]))
  {
    assert xs[..n + 1][..n] == xs[..n];
  }

  /** Every collected value is what `f` yields for some element. */
  lemma {:induction false} CollectFrom<T, U>(f: T -> Option<U>, xs: seq<T>, u: U)
    requires u in Collect(f, xs)
    ensures exists i :: 0 <= i < |xs| && f(xs[i]) == Some(u)
  {
    var n := |xs| - 1;
    if u in Collect(f, xs[..n]) {
      CollectFrom(f, xs[..n], u);
      var i :| 0 <= i < n && f(xs[..n][i]) == Some(u);
      assert xs[..n][i] == xs[i];
    } else {
      assert f(xs[n]) == Some(u);
    }
  }

  /** The entries list after the entry loop has run over `ms`. */
  function Records(ms: seq<EntryMatch>): (r: seq<Parsed>)
    ensures |r| <= |ms|
  {
    Collect(ParsedOf, ms)
  }

  /** Entries come out in the order of the text: the records of two stretches are concatenated. */
  lemma RecordsAppend(a: seq<EntryMatch>, b: seq<EntryMatch>)
    ensures Records(a + b) == Records(a) + Records(b)
  {
    CollectAppend(ParsedOf, a, b);
  }

  /** A match whose type is not one of the three kept kinds contributes nothing. */
  lemma RecordsOfOne(m: EntryMatch)
    ensures KindOf(Lower(m.entryType)).None? ==> Records([m]) == []
    ensures KindOf(Lower(m.entryType)).Some? ==> Records([m]) == [ParsedOf(m).value]
  {
    var xs := [m];
    assert xs[..0] == [] && xs[..1] == xs;
    CollectStep(ParsedOf, xs, 0);
    assert Records(xs) == OptionSeq(ParsedOf(m));
  }

  /** The normalised text `parse_file` scans. */
  function Content(text: string): string
  {
    NormalizeLineEndings(StripComments(text))
  }

  lemma MatchesCommaFree(s: string)
    ensures CommaFreeKeys(EntryMatches(s, 0))
  {
    var ms := EntryMatches(s, 0);
    forall i | 0 <= i < |ms| ensures ',' !in ms[i].citationKey {
      assert ms[i] in ms;
    }
  }

  /** The entries `parse_file` returns for a text, as values. */
  function ParseSpec(text: string): seq<Parsed>
  {
    Records(EntryMatches(Content(text), 0))
  }

  /** Every record is well formed: one of the three kinds, a clean key, lower-case single-line fields. */
  lemma RecordsGood(ms: seq<EntryMatch>)
    requires CommaFreeKeys(ms)
    ensures forall p | p in Records(ms) :: GoodParsed(p)
  {
    forall p | p in Records(ms) ensures GoodParsed(p) {
      CollectFrom(ParsedOf, ms, p);
      var i :| 0 <= i < |ms| && ParsedOf(ms[i]) == Some(p);
      ParsedOfGood(ms[i]);
    }
  }

  /** What `parse_file` returns is well formed entry by entry. */
  lemma ParseSpecGood(text: string)
    ensures forall p | p in ParseSpec(text) :: GoodParsed(p)
  {
    MatchesCommaFree(Content(text));
    RecordsGood(EntryMatches(Content(text), 0));
  }

  /** An entry object carries the kind, type, key and fields of a parsed record. */
  predicate BuiltFrom(e: BibEntry, p: Parsed)
  {
    e.kind == p.kind && e.entryType == p.entryType && e.citationKey == p.citationKey && e.fields == p.fields
  }

  /** The field loop of `parse_file`: the dictionary built from the field matches in order. */
  method BuildFields(fms: seq<FieldMatch>) returns (fields: Dict<string>)
    ensures fields == Fields(fms)
  {
    fields := [];
    for j := 0 to |fms|
      invariant fields == Fields(fms[..j])
    {
      var f := fms[j];
      FieldsStep(fms, j);
      fields := Put(fields, FieldName(f.key), FieldValue(f.value));
    }
    assert fms[..|fms|] == fms;
  }

  /** The body of the entry loop as a value: the record a match yields, if its type is kept. */
  method ParseEntry(m: EntryMatch) returns (p: Option<Parsed>)
    ensures p == ParsedOf(m)
  {
    var entryType := Lower(m.entryType);
    var citationKey := Strip(m.citationKey);
    var fieldsStr := Strip(m.body);
    var fields := BuildFields(FieldMatches(fieldsStr, 0));
    var kind := KindOf(entryType);
    if kind.Some? {
      p := Some(Parsed(kind.value, entryType, citationKey, fields));
    } else {
      p := None;
    }
  }

  /** The entry loop of `parse_file` over the matches, as values. */
  method ScanEntries(ms: seq<EntryMatch>) returns (ps: seq<Parsed>)
    ensures ps == Records(ms)
  {
    ps := [];
    var n := 0;
    while n < |ms|
      invariant 0 <= n <= |ms|
      invariant ps == Records(ms[..n])
    {
      CollectStep(ParsedOf, ms, n);
      var p := ParseEntry(ms[n]);
      if p.Some? {
        ps := ps + [p.value];
      }
      n := n + 1;
    }
    assert ms[..n] == ms;
  }

  /** One new entry object per record, in order, each with empty logs. */
  method NewEntries(ps: seq<Parsed>) returns (entries: seq<BibEntry>)
    requires forall i :: 0 <= i < |ps| ==> ps[i].entryType == EntryTypeOf(ps[i].kind, ps[i].entryType)
    ensures |entries| == |ps|
    ensures forall i :: 0 <= i < |entries| ==> BuiltFrom(entries[i], ps[i])
    ensures forall i :: 0 <= i < |entries| ==> fresh(entries[i])
    ensures forall i :: 0 <= i < |entries| ==> entries[i].warnings == [] && entries[i].errors == []
    ensures Distinct(entries)
  {
    entries := [];
    var n := 0;
    while n < |ps|
      invariant 0 <= n <= |ps|
      invariant |entries| == n
      invariant forall i :: 0 <= i < n ==> BuiltFrom(entries[i], ps[i])
      invariant forall i :: 0 <= i < n ==> fresh(entries[i])
      invariant forall i :: 0 <= i < n ==> entries[i].warnings == [] && entries[i].errors == []
      invariant Distinct(entries)
    {
      var p := ps[n];
      var e := new BibEntry(p.kind, p.entryType, p.citationKey, p.fields);
      entries := entries + [e];
      n := n + 1;
    }
  }

  /**
    `BibParser.parse_file` on the content of the file: one new entry object
    per kept match, in the order of the text, each with empty logs.
  */
  method ParseFile(text: string) returns (entries: seq<BibEntry>)
    ensures |entries| == |ParseSpec(text)|
    ensures forall i :: 0 <= i < |entries| ==> BuiltFrom(entries[i], ParseSpec(text)[i])
    ensures forall i :: 0 <= i < |entries| ==> fresh(entries[i])
    ensures forall i :: 0 <= i < |entries| ==> entries[i].warnings == [] && entries[i].errors == []
    ensures Distinct(entries)
  {
    var content := StripComments(text);
    content := NormalizeLineEndings(content);
    var ms := EntryMatches(content, 0);
    var ps := ScanEntries(ms);
    MatchesCommaFree(content);
    RecordsGood(ms);
    assert forall i :: 0 <= i < |ps| ==> ps[i] in ps && GoodParsed(ps[i]);
    entries := NewEntries(ps);
  }
}

/**
  `check_year` of check_bib.py: a journal or booktitle should carry neither a
  year (an error) nor an ordinal such as `41st` (a warning); the year belongs
  in the `year` field.
*/
module YearInPub {
  import opened Wrappers
  import opened Text
  import opened Issues
  import opened Entries

  /** `(?<!\d)(19|20)\d{2}(?!\d)` matches at `p`: a year 1900 to 2099 with no digit on either side. */
  predicate YearAt(s: string, p: nat)
  {
    && p + 4 <= |s|
    && ((s[p] == '1' && s[p + 1] == '9') || (s[p] == '2' && s[p + 1] == '0'))
    && IsDigit(s[p + 2]) && IsDigit(s[p + 3])
    && (p == 0 || !IsDigit(s[p - 1]))
    && (p + 4 == |s| || !IsDigit(s[p + 4]))
  }

  /** `re.search` for the year pattern from position `from`: the leftmost match. */
  function FindYear(s: string, from: nat): (r: Option<nat>)
    ensures r.Some? ==> from <= r.value && YearAt(s, r.value)
    ensures r.Some? ==> forall q :: from <= q < r.value ==> !YearAt(s, q)
    ensures r.None? ==> forall q :: from <= q ==> !YearAt(s, q)
    decreases |s| - from
  {
    if from + 4 > |s| then None
    else if YearAt(s, from) then Some(from)
    else FindYear(s, from + 1)
  }

  /**
    `\b\d{1,4}(st|nd|rd|th)\b` (ignoring case) matches at `p` with `n` digits:
    the digits start a word, a suffix follows them, and the word ends there.
  */
  predicate OrdinalShape(s: string, p: nat, n: nat)
  {
    && 1 <= n <= 4
    && p + n + 2 <= |s|
    && (forall k :: p <= k < p + n ==> IsDigit(s[k]))
    && IsOrdinalSuffix(s[p + n..p + n + 2])
    && (p == 0 || !IsWordChar(s[p - 1]))
    && (p + n + 2 == |s| || !IsWordChar(s[p + n + 2]))
  }

  /**
    The scanner for the ordinal pattern at `p`: the whole run of digits from
    `p` is taken, since a shorter run would leave a digit where the suffix
    must start. The result is the length of the match.
  */
  function OrdinalAt(s: string, p: nat): (r: Option<nat>)
  {
    if p > |s| then None
    else
      var e := SpanEnd(s, p, IsDigit);
      if OrdinalShape(s, p, e - p) then Some(e - p + 2) else None
  }

  /** Whatever the scanner matches is a match of the pattern, with one to four digits. */
  lemma OrdinalAtSound(s: string, p: nat)
    requires OrdinalAt(s, p).Some?
    ensures 3 <= OrdinalAt(s, p).value <= 6 && OrdinalShape(s, p, OrdinalAt(s, p).value - 2)
  {
  }

  /**
    Wherever the pattern can match, backtracking over the number of digits,
    the scanner matches too, with the same digits.
  */
  lemma OrdinalAtComplete(s: string, p: nat, n: nat)
    requires OrdinalShape(s, p, n)
    ensures OrdinalAt(s, p) == Some(n + 2)
  {
    var e := SpanEnd(s, p, IsDigit);
    var t := s[p + n..p + n + 2];
    assert !IsDigit(s[p + n]) by {
      assert t[0] == s[p + n];
      assert Lower(t)[0] == ToLowerChar(t[0]);
    }
    assert e == p + n;
  }

  /** `re.search` for the ordinal pattern from position `from`: the leftmost match and its length. */
  function FindOrdinal(s: string, from: nat): (r: Option<(nat, nat)>)
    ensures r.Some? ==> from <= r.value.0 && OrdinalAt(s, r.value.0) == Some(r.value.1)
    ensures r.Some? ==> forall q :: from <= q < r.value.0 ==> OrdinalAt(s, q).None?
    ensures r.None? ==> forall q :: from <= q <= |s| ==> OrdinalAt(s, q).None?
    decreases |s| - from
  {
    if from > |s| then None
    else match OrdinalAt(s, from)
      case Some(n) => Some((from, n))
      case None => FindOrdinal(s, from + 1)
  }

  /**
    `analyze_year_in_pub`: the ordinal warning and the year error the
    publication name raises, each naming the matched text; an empty name
    raises neither.
  */
  function AnalyzeYearInPub(pub: string, pubType: string): (r: (Option<IssueKind>, Option<IssueKind>))
    ensures |pub| == 0 ==> r == (None, None)
    ensures r.0.Some? ==> r.0.value.TitleContainsOrdinal? && r.0.value.ordinalPubType == pubType
                          && Contains(pub, r.0.value.ordinalMatch)
    ensures r.1.Some? ==> r.1.value.TitleContainsYear? && r.1.value.yearPubType == pubType
                          && Contains(pub, r.1.value.yearMatch)
  {
    if |pub| == 0 then (None, None)
    else (OrdinalWarning(pub, pubType), YearError(pub, pubType))
  }

  /** The ordinal warning: the leftmost ordinal, digits and suffix. */
  function OrdinalWarning(pub: string, pubType: string): (r: Option<IssueKind>)
    ensures r.Some? ==> r.value.TitleContainsOrdinal? && r.value.ordinalPubType == pubType
                        && Contains(pub, r.value.ordinalMatch)
  {
    match FindOrdinal(pub, 0)
    case Some((p, n)) =>
      assert OccursAt(pub, pub[p..p + n], p);
      Some(TitleContainsOrdinal(pubType, pub[p..p + n]))
    case None => None
  }

  /** The year error: the leftmost year. */
  function YearError(pub: string, pubType: string): (r: Option<IssueKind>)
    ensures r.Some? ==> r.value.TitleContainsYear? && r.value.yearPubType == pubType
                        && Contains(pub, r.value.yearMatch)
  {
    match FindYear(pub, 0)
    case Some(p) =>
      assert OccursAt(pub, pub[p..p + 4], p);
      Some(TitleContainsYear(pubType, pub[p..p + 4]))
    case None => None
  }

  /**
    A name holding a year gets an error naming its leftmost year, and a name
    with no year gets no error; the named year is four digits starting 19 or 20.
  */
  lemma YearErrorExactly(pub: string, pubType: string, q: nat)
    requires YearAt(pub, q) && forall q': nat :: q' < q ==> !YearAt(pub, q')
    ensures AnalyzeYearInPub(pub, pubType).1 == Some(TitleContainsYear(pubType, pub[q..q + 4]))
    ensures AllDigits(pub[q..q + 4]) && (pub[q..q + 2] == "19" || pub[q..q + 2] == "20")
  {
    assert FindYear(pub, 0) == Some(q);
    assert AnalyzeYearInPub(pub, pubType).1 == YearError(pub, pubType);
    YearDigits(pub, q);
  }

  /** A match of the year pattern is four digits starting 19 or 20. */
  lemma YearDigits(s: string, q: nat)
    requires YearAt(s, q)
    ensures AllDigits(s[q..q + 4]) && (s[q..q + 2] == "19" || s[q..q + 2] == "20")
  {
    var year := s[q..q + 4];
    assert forall k :: 0 <= k < 4 ==> year[k] == s[q + k];
    assert s[q..q + 2] == [s[q], s[q + 1]];
  }

  /** A name with no year anywhere raises no year error. */
  lemma NoYearNoError(pub: string, pubType: string)
    requires forall q: nat :: !YearAt(pub, q)
    ensures AnalyzeYearInPub(pub, pubType).1.None?
  {
  }

  /**
    A name holding an ordinal gets a warning naming its leftmost ordinal,
    digits and suffix, and a name with no ordinal gets no warning.
  */
  lemma OrdinalWarningExactly(pub: string, pubType: string, q: nat, n: nat)
    requires OrdinalShape(pub, q, n) && forall q': nat, n': nat :: q' < q ==> !OrdinalShape(pub, q', n')
    ensures AnalyzeYearInPub(pub, pubType).0 == Some(TitleContainsOrdinal(pubType, pub[q..q + n + 2]))
  {
    OrdinalAtComplete(pub, q, n);
    assert FindOrdinal(pub, 0) == Some((q, n + 2));
  }

  /** A name with no ordinal anywhere raises no ordinal warning. */
  lemma NoOrdinalNoWarning(pub: string, pubType: string)
    requires forall q: nat, n: nat :: !OrdinalShape(pub, q, n)
    ensures AnalyzeYearInPub(pub, pubType).0.None?
  {
    var r := FindOrdinal(pub, 0);
    if r.Some? {
      OrdinalAtSound(pub, r.value.0);
    }
  }

  /**
    What `check_year` finds for an entry: the journal of an Article or the
    booktitle of an InProceedings, unless it is missing or names arXiv.
  */
  function YearFindings(e: BibEntry): (r: (Option<IssueKind>, Option<IssueKind>))
    ensures e.kind != Article && e.kind != InProceedings ==> r == (None, None)
  {
    if e.kind != Article && e.kind != InProceedings then (None, None)
    else
      var pubType := if e.kind == Article then "journal" else "booktitle";
      var pub := e.Field(pubType);
      if pub.None? || OnArxiv(pub) then (None, None)
      else AnalyzeYearInPub(pub.value, pubType)
  }

  /** A publication name that mentions arXiv, in any letter case, is never checked. */
  lemma ArxivPubSkipped(e: BibEntry)
    requires e.kind == Article ==> OnArxiv(e.Field("journal"))
    requires e.kind == InProceedings ==> OnArxiv(e.Field("booktitle"))
    ensures YearFindings(e) == (None, None)
  {
  }

  /** The rule on one entry. */
  method CheckYearOf(e: BibEntry)
    modifies e`warnings, e`errors
    ensures e.warnings == old(e.warnings) + AsLog(Warning, YearFindings(e).0)
    ensures e.errors == old(e.errors) + AsLog(Error, YearFindings(e).1)
  {
    var findings: (Option<IssueKind>, Option<IssueKind>) := (None, None);
    if e.kind == Article || e.kind == InProceedings {
      var pubType := if e.kind == Article then "journal" else "booktitle";
      var pub := e.Field(pubType);
      if pub.Some? && !OnArxiv(pub) {
        findings := AnalyzeYearInPub(pub.value, pubType);
      }
    }
    e.AddWarningIf(findings.0);
    e.AddErrorIf(findings.1);
  }

  /** `check_year`: every entry gets the ordinal warning and the year error its publication name raises. */
  method CheckYear(entries: seq<BibEntry>)
    requires Distinct(entries)
    modifies entries
    ensures forall i :: 0 <= i < |entries| ==>
              entries[i].warnings == old(entries[i].warnings) + AsLog(Warning, YearFindings(entries[i]).0)
    ensures forall i :: 0 <= i < |entries| ==>
              entries[i].errors == old(entries[i].errors) + AsLog(Error, YearFindings(entries[i]).1)
  {
    for n := 0 to |entries|
      invariant forall i :: 0 <= i < n ==> entries[i].warnings == old(entries[i].warnings) + AsLog(Warning, YearFindings(entries[i]).0)
      invariant forall i :: 0 <= i < n ==> entries[i].errors == old(entries[i].errors) + AsLog(Error, YearFindings(entries[i]).1)
      invariant forall i :: n <= i < |entries| ==> entries[i].warnings == old(entries[i].warnings)
      invariant forall i :: n <= i < |entries| ==> entries[i].errors == old(entries[i].errors)
    {
      CheckYearOf(entries[n]);
      assert forall i :: 0 <= i < |entries| && i != n ==> entries[i] != entries[n];
    }
  }
}

/**
  `check_pages` of check_bib.py: the `pages` field must be a page range
  `start--end` with `start <= end`.
*/
module Pages {
  import opened Wrappers
  import opened Text
  import opened Issues
  import opened Entries

  /** The dash characters of `[-–—]`: hyphen, en dash and em dash. */
  predicate IsDash(c: char) { c == '-' || c == '–' || c == '—' }

  /**
    `re.fullmatch(r'(\d+)[-–—]{1,2}(\d+)', t)`: the two numbers of a range.
    The first run of digits can only end at the first non-digit, and the
    one or two dashes must be followed by digits up to the end of the text.
  */
  function MatchRange(t: string): (r: Option<(nat, nat)>)
  {
    var d := SpanEnd(t, 0, IsDigit);
    var q := SpanEnd(t, d, IsDash);
    if 0 < d && d < q <= d + 2 && q < |t| && AllDigits(t[q..]) then
      Some((DigitsValue(t[..d]), DigitsValue(t[q..])))
    else None
  }

  /** A range as the pattern describes it: digits, one or two dashes, digits. */
  predicate IsRange(t: string, start: string, dashes: string, end: string)
  {
    && t == start + dashes + end
    && |start| > 0 && AllDigits(start)
    && 1 <= |dashes| <= 2 && (forall k :: 0 <= k < |dashes| ==> IsDash(dashes[k]))
    && |end| > 0 && AllDigits(end)
  }

  /** The scanner finds a range exactly when the text splits as the pattern says, with those numbers. */
  lemma MatchRangeExactly(t: string, start: string, dashes: string, end: string)
    requires IsRange(t, start, dashes, end)
    ensures MatchRange(t) == Some((DigitsValue(start), DigitsValue(end)))
  {
    var d := SpanEnd(t, 0, IsDigit);
    assert forall k :: 0 <= k < |start| ==> t[k] == start[k];
    assert t[|start|] == dashes[0];
    assert d == |start|;
    var q := SpanEnd(t, d, IsDash);
    assert forall k :: 0 <= k < |dashes| ==> t[d + k] == dashes[k];
    assert t[d + |dashes|] == end[0];
    assert q == d + |dashes|;
    assert t[..d] == start;
    assert t[q..] == end;
  }

  /** Whatever the scanner finds is a range of the pattern's shape. */
  lemma MatchRangeSound(t: string)
    requires MatchRange(t).Some?
    ensures exists start, dashes, end :: IsRange(t, start, dashes, end)
                                         && MatchRange(t) == Some((DigitsValue(start), DigitsValue(end)))
  {
    var d := SpanEnd(t, 0, IsDigit);
    var q := SpanEnd(t, d, IsDash);
    assert t == t[..d] + t[d..q] + t[q..];
    assert AllDigits(t[..d]) by {
      assert forall k :: 0 <= k < d ==> t[..d][k] == t[k];
    }
    assert forall k :: 0 <= k < q - d ==> IsDash(t[d..q][k]) by {
      assert forall k :: 0 <= k < q - d ==> t[d..q][k] == t[d + k];
    }
    assert IsRange(t, t[..d], t[d..q], t[q..]);
  }

  /** `analyze_pages`: the issue the stripped page string raises, if any. */
  function AnalyzePages(pages: string): (r: Option<IssueKind>)
    ensures r.None? ==> MatchRange(Strip(pages)).Some?
    ensures r.Some? ==> r.value.BiggerBeginPage? || r.value.OnlyOnePage? || r.value.WrongPageFormat?
    ensures r.Some? && r.value.BiggerBeginPage? ==> r.value.startPage > r.value.endPage
    ensures r.Some? && r.value.WrongPageFormat? ==> r.value.pagesStr == Strip(pages)
  {
    var t := Strip(pages);
    match MatchRange(t)
    case Some((start, end)) =>
      if start <= end then None else Some(BiggerBeginPage(start, end))
    case None =>
      if |t| > 0 && AllDigits(t) then Some(OnlyOnePage(DigitsValue(t)))
      else Some(WrongPageFormat(t))
  }

  /**
    The four outcomes of `analyze_pages`: a range in order raises nothing, a
    range out of order names both pages, a bare number is a lone begin page,
    anything else is a format error naming the stripped string.
  */
  lemma AnalyzePagesCases(pages: string, start: string, dashes: string, end: string)
    requires IsRange(Strip(pages), start, dashes, end)
    ensures DigitsValue(start) <= DigitsValue(end) ==> AnalyzePages(pages) == None
    ensures DigitsValue(start) > DigitsValue(end)
            ==> AnalyzePages(pages) == Some(BiggerBeginPage(DigitsValue(start), DigitsValue(end)))
  {
    MatchRangeExactly(Strip(pages), start, dashes, end);
  }

  /** A number on its own is a lone begin page. */
  lemma AnalyzePagesSingle(pages: string)
    requires |Strip(pages)| > 0 && AllDigits(Strip(pages))
    ensures AnalyzePages(pages) == Some(OnlyOnePage(DigitsValue(Strip(pages))))
  {
    DigitsAreNoRange(Strip(pages));
  }

  /** A string of digits alone has no dash, so it is not a range. */
  lemma DigitsAreNoRange(t: string)
    requires AllDigits(t)
    ensures MatchRange(t).None?
  {
    var d := SpanEnd(t, 0, IsDigit);
    assert d == |t|;
  }

  /** Text that is neither a range nor a number is a format error. */
  lemma AnalyzePagesOther(pages: string)
    requires forall start, dashes, end :: !IsRange(Strip(pages), start, dashes, end)
    requires !(|Strip(pages)| > 0 && AllDigits(Strip(pages)))
    ensures AnalyzePages(pages) == Some(WrongPageFormat(Strip(pages)))
  {
    if MatchRange(Strip(pages)).Some? {
      MatchRangeSound(Strip(pages));
    }
  }

  /** The errors `check_pages` appends to one entry: none when it has no `pages` field. */
  function PageErrors(e: BibEntry): (r: seq<Issue>)
    ensures forall i :: 0 <= i < |r| ==> r[i].level == Error
  {
    match e.Field("pages")
    case None => []
    case Some(p) =>
      match AnalyzePages(p)
      case None => []
      case Some(k) => [Issue(Error, k)]
  }

  /** The rule on one entry. */
  method CheckPagesOf(e: BibEntry)
    modifies e`errors
    ensures e.errors == old(e.errors) + PageErrors(e)
  {
    var pages := e.Field("pages");
    if pages.Some? {
      var issue := AnalyzePages(pages.value);
      if issue.Some? {
        e.AddError(Issue(Error, issue.value));
      }
    }
  }

  /** `check_pages`: every entry with a `pages` field gets the error its page string raises, if any. */
  method CheckPages(entries: seq<BibEntry>)
    requires Distinct(entries) && Checkable(entries)
    modifies entries
    ensures forall i :: 0 <= i < |entries| ==> entries[i].errors == old(entries[i].errors) + PageErrors(entries[i])
    ensures forall i :: 0 <= i < |entries| ==> entries[i].warnings == old(entries[i].warnings)
  {
    for n := 0 to |entries|
      invariant forall i :: 0 <= i < n ==> entries[i].errors == old(entries[i].errors) + PageErrors(entries[i])
      invariant forall i :: n <= i < |entries| ==> entries[i].errors == old(entries[i].errors)
      invariant forall i :: 0 <= i < |entries| ==> entries[i].warnings == old(entries[i].warnings)
    {
      CheckPagesOf(entries[n]);
      assert forall i :: 0 <= i < |entries| && i != n ==> entries[i] != entries[n];
    }
  }
}

/**
  `check_arxiv` of check_bib.py: an arXiv preprint should have been
  published by now, and an arXiv paper should be an `@article`. The current
  year and `search_paper` of html_show.py are parameters.
*/
module Arxiv {
  import opened Wrappers
  import opened Text
  import opened Issues
  import opened Entries

  /** An Article whose journal mentions arXiv and which has a year: a preprint whose age is checked. */
  predicate ArxivPreprint(e: BibEntry)
  {
    e.kind == Article && OnArxiv(e.Field("journal")) && e.Field("year").Some?
  }

  /**
    What the rule needs of an entry not to fail: it is an Article or an
    InProceedings (anything else trips `assert False`), a preprint has a
    title for `search_paper` and a year `int()` accepts, and an
    InProceedings has a booktitle for the `in` test.
  */
  predicate ArxivReady(e: BibEntry)
  {
    && (e.kind == Article || e.kind == InProceedings)
    && (ArxivPreprint(e) ==> e.Field("title").Some? && ParseInt(e.Field("year").value).Some?)
    && (e.kind == InProceedings ==> e.Field("booktitle").Some?)
  }

  /** The warning and the error the rule gives one entry. */
  function ArxivFindings(e: BibEntry, todayYear: int, searchPaper: string -> string): (r: (Option<IssueKind>, Option<IssueKind>))
    requires ArxivReady(e)
    ensures r.0.Some? ==> r.1.None? && e.kind == Article && ArxivPreprint(e)
                          && r.0.value == ArxivPaper(searchPaper(e.Field("title").value))
    ensures r.1.Some? && e.kind == Article ==> ArxivPreprint(e) && r.1.value == ArxivPaper(searchPaper(e.Field("title").value))
    ensures r.1.Some? && e.kind != Article ==> r.1.value == ArxivWithInproceddings
  {
    if e.kind == Article then
      if ArxivPreprint(e) then
        var msg := ArxivPaper(searchPaper(e.Field("title").value));
        if ParseInt(e.Field("year").value).value < todayYear - 1 then (None, Some(msg)) else (Some(msg), None)
      else (None, None)
    else if Contains(e.Field("booktitle").value, "arxiv") then (None, Some(ArxivWithInproceddings))
    else (None, None)
  }

  /**
    The outcomes of the rule: never both a warning and an error. A preprint
    older than last year is an error and a newer one a warning, both
    carrying the search message for its title, and an Article that is not a
    preprint gets nothing; an InProceedings whose booktitle contains `arxiv`,
    in lower case, is an error.
  */
  lemma ArxivOutcomes(e: BibEntry, todayYear: int, searchPaper: string -> string)
    requires ArxivReady(e)
    ensures !(ArxivFindings(e, todayYear, searchPaper).0.Some? && ArxivFindings(e, todayYear, searchPaper).1.Some?)
    ensures ArxivFindings(e, todayYear, searchPaper).0.Some? ==> ArxivPreprint(e)
    ensures e.kind == Article ==> ((ArxivFindings(e, todayYear, searchPaper).0.Some? || ArxivFindings(e, todayYear, searchPaper).1.Some?) <==> ArxivPreprint(e))
    ensures ArxivPreprint(e) ==> ArxivFindings(e, todayYear, searchPaper).0 == Some(ArxivPaper(searchPaper(e.Field("title").value))) || ArxivFindings(e, todayYear, searchPaper).1 == Some(ArxivPaper(searchPaper(e.Field("title").value)))
    ensures ArxivPreprint(e) ==> (ArxivFindings(e, todayYear, searchPaper).1.Some? <==> ParseInt(e.Field("year").value).value < todayYear - 1)
    ensures e.kind == InProceedings ==> (ArxivFindings(e, todayYear, searchPaper).1.Some? <==> Contains(e.Field("booktitle").value, "arxiv"))
    ensures e.kind == InProceedings && ArxivFindings(e, todayYear, searchPaper).1.Some? ==> ArxivFindings(e, todayYear, searchPaper).1.value == ArxivWithInproceddings
  {
  }

  /** A preprint found too old stays too old in every later year. */
  lemma OldPreprintStaysOld(e: BibEntry, year: int, later: int, searchPaper: string -> string)
    requires ArxivReady(e) && year <= later
    requires ArxivFindings(e, year, searchPaper).1.Some?
    ensures ArxivFindings(e, later, searchPaper).1.Some?
  {
    if e.kind == Article {
      assert ParseInt(e.Field("year").value).value < year - 1;
    }
  }

  /** The rule on one entry. */
  method CheckArxivOf(e: BibEntry, todayYear: int, searchPaper: string -> string)
    requires ArxivReady(e)
    modifies e`warnings, e`errors
    ensures e.warnings == old(e.warnings) + AsLog(Warning, ArxivFindings(e, todayYear, searchPaper).0)
    ensures e.errors == old(e.errors) + AsLog(Error, ArxivFindings(e, todayYear, searchPaper).1)
  {
    ghost var f := ArxivFindings(e, todayYear, searchPaper);
    if e.kind == Article {
      var journal := e.Field("journal");
      var year := e.Field("year");
      if OnArxiv(journal) && year.Some? {
        var msg := ArxivPaper(searchPaper(e.Field("title").value));
        if ParseInt(year.value).value < todayYear - 1 {
          assert f == (None, Some(msg));
          e.AddError(Issue(Error, msg));
          assert e.warnings == old(e.warnings) + [];
        } else {
          assert f == (Some(msg), None);
          e.AddWarning(Issue(Warning, msg));
          assert e.errors == old(e.errors) + [];
        }
      } else {
        assert f == (None, None);
      }
    } else if e.kind == InProceedings {
      if Contains(e.Field("booktitle").value, "arxiv") {
        assert f == (None, Some(ArxivWithInproceddings));
        e.AddError(Issue(Error, ArxivWithInproceddings));
        assert e.warnings == old(e.warnings) + [];
      } else {
        assert f == (None, None);
      }
    } else {
      assert false;
    }
    assert ArxivFindings(e, todayYear, searchPaper) == f;
  }

  /** `check_arxiv`: every entry gets the preprint warning or error, or the wrong-type error, it calls for. */
  method CheckArxiv(entries: seq<BibEntry>, todayYear: int, searchPaper: string -> string)
    requires Distinct(entries)
    requires forall i :: 0 <= i < |entries| ==> ArxivReady(entries[i])
    modifies entries
    ensures forall i :: 0 <= i < |entries| ==>
              entries[i].warnings == old(entries[i].warnings) + AsLog(Warning, ArxivFindings(entries[i], todayYear, searchPaper).0)
    ensures forall i :: 0 <= i < |entries| ==>
              entries[i].errors == old(entries[i].errors) + AsLog(Error, ArxivFindings(entries[i], todayYear, searchPaper).1)
  {
    for n := 0 to |entries|
      invariant forall i :: 0 <= i < n ==>
                  entries[i].warnings == old(entries[i].warnings) + AsLog(Warning, ArxivFindings(entries[i], todayYear, searchPaper).0)
      invariant forall i :: 0 <= i < n ==>
                  entries[i].errors == old(entries[i].errors) + AsLog(Error, ArxivFindings(entries[i], todayYear, searchPaper).1)
      invariant forall i :: n <= i < |entries| ==> entries[i].warnings == old(entries[i].warnings)
      invariant forall i :: n <= i < |entries| ==> entries[i].errors == old(entries[i].errors)
    {
      CheckArxivOf(entries[n], todayYear, searchPaper);
      assert forall i :: 0 <= i < |entries| && i != n ==> entries[i] != entries[n];
    }
  }
}

/**
  `check` of check_bib.py: drop the books and unsupported entries, then run
  the eight rules over the rest in a fixed order, each appending to the
  warnings and errors of the entries it inspects.
*/
module Pipeline {
  import opened Wrappers
  import opened Issues
  import opened Entries
  import MustKeys
  import Duplicates
  import Pages
  import YearInPub
  import Arxiv
  import Capitalization
  import Proceedings
  import Abbreviations

  /** The entries the rules look at: Articles and InProceedings. */
  predicate Supported(e: BibEntry)
  {
    e.kind == Article || e.kind == InProceedings
  }

  /** The list comprehension that drops `Others` and `Book` entries, keeping the order. */
  function Filter(entries: seq<BibEntry>): (r: seq<BibEntry>)
    ensures |r| <= |entries|
    ensures Checkable(r)
    ensures forall i :: 0 <= i < |r| ==> r[i] in entries
  {
    if |entries| == 0 then []
    else
      var last := entries[|entries| - 1];
      Filter(entries[..|entries| - 1]) + (if Supported(last) then [last] else [])
  }

  /** An entry is kept exactly when it is in the list and supported. */
  lemma {:induction false} FilterMembers(entries: seq<BibEntry>, e: BibEntry)
    ensures e in Filter(entries) <==> e in entries && Supported(e)
  {
    if |entries| > 0 {
      var init := entries[..|entries| - 1];
      FilterMembers(init, e);
      assert entries == init + [entries[|entries| - 1]];
    }
  }

  /** Filtering keeps the entries distinct objects. */
  lemma {:induction false} FilterDistinct(entries: seq<BibEntry>)
    requires Distinct(entries)
    ensures Distinct(Filter(entries))
  {
    if |entries| > 0 {
      var init := entries[..|entries| - 1];
      var last := entries[|entries| - 1];
      assert Distinct(init);
      FilterDistinct(init);
      if Supported(last) {
        FilterMembers(init, last);
        var r := Filter(entries);
        assert r == Filter(init) + [last];
        forall i, j | 0 <= i < j < |r|
          ensures r[i] != r[j]
        {
          if j == |r| - 1 {
            assert r[i] in Filter(init);
          }
        }
      }
    }
  }

  /** Filtering runs over concatenations piece by piece: the kept entries stay in their order. */
  lemma {:induction false} FilterAppend(a: seq<BibEntry>, b: seq<BibEntry>)
    ensures Filter(a + b) == Filter(a) + Filter(b)
  {
    if |b| > 0 {
      var init := b[..|b| - 1];
      FilterAppend(a, init);
      assert (a + b)[..|a + b| - 1] == a + init;
    } else {
      assert a + b == a;
    }
  }

  /** What `check` needs of an entry it keeps not to fail: a title, and what the arXiv rule needs. */
  predicate Ready(e: BibEntry)
  {
    Supported(e) ==> e.Field("title").Some? && Arxiv.ArxivReady(e)
  }

  /** A warning log after the first four rules: the missing keys, then the ordinal. */
  function FirstWarnings(log: seq<Issue>, e: BibEntry): seq<Issue>
  {
    log + MustKeys.MustKeysWarnings(e) + AsLog(Warning, YearInPub.YearFindings(e).0)
  }

  /** An error log after the first four rules: keys, duplicates, pages, then the year. */
  function FirstErrors(log: seq<Issue>, checked: seq<BibEntry>, i: nat): seq<Issue>
    requires i < |checked| && Duplicates.HasTitles(checked)
  {
    var e := checked[i];
    log + MustKeys.MustKeysErrors(e) + Duplicates.DuplicateErrors(checked, i) + Pages.PageErrors(e) + AsLog(Error, YearInPub.YearFindings(e).1)
  }

  /** A warning log after the last four rules: arXiv, capitalisation, phrasing, then abbreviations. */
  function LastWarnings(log: seq<Issue>, checked: seq<BibEntry>, i: nat, todayYear: int, searchPaper: string -> string): seq<Issue>
    requires i < |checked| && Arxiv.ArxivReady(checked[i])
  {
    var e := checked[i];
    log + AsLog(Warning, Arxiv.ArxivFindings(e, todayYear, searchPaper).0)
    + AsLog(Warning, Capitalization.CapitalizationFinding(e))
    + AsLog(Warning, Proceedings.ProceedingsFindings(e, Proceedings.NumWith(checked, false), Proceedings.NumWith(checked, true)).0)
    + AsLog(Warning, Abbreviations.AbbreviationFinding(e))
  }

  /** An error log after the last four rules: arXiv, then phrasing. */
  function LastErrors(log: seq<Issue>, checked: seq<BibEntry>, i: nat, todayYear: int, searchPaper: string -> string): seq<Issue>
    requires i < |checked| && Arxiv.ArxivReady(checked[i])
  {
    var e := checked[i];
    log + AsLog(Error, Arxiv.ArxivFindings(e, todayYear, searchPaper).1)
    + AsLog(Error, Proceedings.ProceedingsFindings(e, Proceedings.NumWith(checked, false), Proceedings.NumWith(checked, true)).1)
  }

  /** The preconditions of the rules on the list they check. */
  predicate RulesReady(checked: seq<BibEntry>)
  {
    && Distinct(checked)
    && Checkable(checked)
    && Duplicates.HasTitles(checked)
    && forall i :: 0 <= i < |checked| ==> Arxiv.ArxivReady(checked[i])
  }

  /** The first four rules: must keys, duplicates, pages, year. */
  method RunFirstRules(checked: seq<BibEntry>)
    requires RulesReady(checked)
    modifies checked
    ensures forall i :: 0 <= i < |checked| ==> checked[i].warnings == FirstWarnings(old(checked[i].warnings), checked[i])
    ensures forall i :: 0 <= i < |checked| ==> checked[i].errors == FirstErrors(old(checked[i].errors), checked, i)
  {
    MustKeys.CheckMustKeys(checked);
    Duplicates.CheckRedundant(checked);
    Pages.CheckPages(checked);
    YearInPub.CheckYear(checked);
  }

  /** The last four rules: arXiv, capitalisation, phrasing, abbreviations. */
  method RunLastRules(checked: seq<BibEntry>, todayYear: int, searchPaper: string -> string)
    requires RulesReady(checked)
    modifies checked
    ensures forall i :: 0 <= i < |checked| ==>
              checked[i].warnings == LastWarnings(old(checked[i].warnings), checked, i, todayYear, searchPaper)
    ensures forall i :: 0 <= i < |checked| ==>
              checked[i].errors == LastErrors(old(checked[i].errors), checked, i, todayYear, searchPaper)
  {
    Arxiv.CheckArxiv(checked, todayYear, searchPaper);
    Capitalization.CheckPubCapitalization(checked);
    Proceedings.CheckPreOfConf(checked);
    Abbreviations.CheckPubAbbreviation(checked);
  }

  /**
    `check`: the kept entries, each with the warnings and errors of all eight
    rules appended in the order the rules run; the dropped entries are left
    as they were.
  */
  method Check(entries: seq<BibEntry>, todayYear: int, searchPaper: string -> string) returns (checked: seq<BibEntry>)
    requires Distinct(entries)
    requires forall i :: 0 <= i < |entries| ==> Ready(entries[i])
    modifies entries
    ensures checked == Filter(entries) && RulesReady(checked)
    ensures forall i :: 0 <= i < |checked| ==>
              checked[i].warnings == LastWarnings(FirstWarnings(old(checked[i].warnings), checked[i]), checked, i, todayYear, searchPaper)
    ensures forall i :: 0 <= i < |checked| ==>
              checked[i].errors == LastErrors(FirstErrors(old(checked[i].errors), checked, i), checked, i, todayYear, searchPaper)
    ensures forall i :: 0 <= i < |entries| && !Supported(entries[i]) ==>
              entries[i].warnings == old(entries[i].warnings) && entries[i].errors == old(entries[i].errors)
  {
    checked := Filter(entries);
    FilterDistinct(entries);
    forall i | 0 <= i < |checked|
      ensures checked[i] in entries && Arxiv.ArxivReady(checked[i]) && checked[i].Field("title").Some?
    {
      FilterMembers(entries, checked[i]);
    }
    forall i | 0 <= i < |entries| && !Supported(entries[i])
      ensures entries[i] !in checked
    {
      FilterMembers(entries, entries[i]);
    }
    RunFirstRules(checked);
    RunLastRules(checked, todayYear, searchPaper);
  }
}

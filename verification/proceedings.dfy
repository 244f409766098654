/**
  `check_pre_pf_conf` of check_bib.py: a journal should not read like a
  conference ("Proceedings of …", "Advanced in …"), and the booktitles of a
  bibliography should follow whichever of the two phrasings most of its
  publication names use.
*/
module Proceedings {
  import opened Wrappers
  import opened Text
  import opened Issues
  import opened Entries

  /**
    `check_pub_title`: whether the stripped, lower-cased name starts with
    `proceedings of` and whether it starts with `advanced in`; a missing or
    empty name starts with neither.
  */
  function CheckPubTitle(title: Option<string>): (r: (bool, bool))
    ensures title.None? ==> r == (false, false)
  {
    if title.None? || |title.value| == 0 then (false, false)
    else
      var lowerTitle := Lower(Strip(title.value));
      (StartsWith(lowerTitle, "proceedings of"), StartsWith(lowerTitle, "advanced in"))
  }

  /** No name starts with both phrases. */
  lemma PhrasesExclusive(title: Option<string>)
    ensures !(CheckPubTitle(title).0 && CheckPubTitle(title).1)
  {
    if title.Some? && |title.value| > 0 {
      var lowerTitle := Lower(Strip(title.value));
      if StartsWith(lowerTitle, "proceedings of") {
        assert lowerTitle[0] == "proceedings of"[0] == 'p';
      }
    }
  }

  /** Whether an entry's publication name starts with "Advanced in" (`advanced`) or with "Proceedings of". */
  predicate Phrase(e: BibEntry, advanced: bool)
  {
    if advanced then CheckPubTitle(e.Pub()).1 else CheckPubTitle(e.Pub()).0
  }

  /**
    `sum(starts_with_advanced_l)` (`advanced`) or `sum(starts_with_proceedings_l)`:
    the number of entries whose publication name starts with the phrase.
  */
  function NumWith(entries: seq<BibEntry>, advanced: bool): nat
  {
    if |entries| == 0 then 0
    else NumWith(entries[..|entries| - 1], advanced) + (if Phrase(entries[|entries| - 1], advanced) then 1 else 0)
  }

  /** An entry using the phrase makes the count positive. */
  lemma {:induction false} CountWitness(entries: seq<BibEntry>, advanced: bool, i: nat)
    requires i < |entries| && Phrase(entries[i], advanced)
    ensures NumWith(entries, advanced) > 0
  {
    var last := |entries| - 1;
    if i < last {
      var init := entries[..last];
      assert init[i] == entries[i];
      CountWitness(init, advanced, i);
    }
  }

  /** A positive count has an entry using the phrase behind it. */
  lemma {:induction false} CountFind(entries: seq<BibEntry>, advanced: bool) returns (i: nat)
    requires NumWith(entries, advanced) > 0
    ensures i < |entries| && Phrase(entries[i], advanced)
  {
    var last := |entries| - 1;
    if Phrase(entries[last], advanced) {
      i := last;
    } else {
      var init := entries[..last];
      i := CountFind(init, advanced);
      assert init[i] == entries[i];
    }
  }

  /** A count is zero exactly when no entry uses the phrase. */
  lemma CountPositive(entries: seq<BibEntry>, advanced: bool)
    ensures NumWith(entries, advanced) > 0 <==> exists i :: 0 <= i < |entries| && Phrase(entries[i], advanced)
  {
    if exists i :: 0 <= i < |entries| && Phrase(entries[i], advanced) {
      var i :| 0 <= i < |entries| && Phrase(entries[i], advanced);
      CountWitness(entries, advanced, i);
    }
    if NumWith(entries, advanced) > 0 {
      var i := CountFind(entries, advanced);
    }
  }

  /**
    The warning and the error one entry gets, given the two counts over
    the whole list: an Article named like a conference is an error; an
    InProceedings is warned when its booktitle goes against the majority
    phrasing or uses neither phrasing, unless no entry uses either.
  */
  function ProceedingsFindings(e: BibEntry, numProceeding: nat, numAdvanced: nat): (r: (Option<IssueKind>, Option<IssueKind>))
    ensures r.0.Some? ==> && e.kind == InProceedings && 0 < numProceeding + numAdvanced
                          && r.0.value.ProceedingsOfAdvancedIn?
                          && r.0.value.numProceeding == numProceeding && r.0.value.numAdvanced == numAdvanced
    ensures r.1.Some? ==> e.kind == Article && r.1.value == ArticleWithProceddingsOf
  {
    var (sp, sa) := CheckPubTitle(e.Pub());
    match e.kind
    case Article =>
      if sp || sa then (None, Some(ArticleWithProceddingsOf)) else (None, None)
    case InProceedings =>
      var compare := numProceeding > numAdvanced;
      if numProceeding == 0 && numAdvanced == 0 then (None, None)
      else if (compare && sa) || (!compare && sp) || (!sp && !sa) then
        (Some(ProceedingsOfAdvancedIn(sp, sa, numProceeding, numAdvanced)), None)
      else (None, None)
    case _ => (None, None)
  }

  /** An Article gets the error exactly when its journal starts with either phrase, and never a warning. */
  lemma ArticleNamedLikeConference(e: BibEntry, np: nat, na: nat)
    requires e.kind == Article
    ensures ProceedingsFindings(e, np, na).0.None?
    ensures ProceedingsFindings(e, np, na).1.Some? <==> CheckPubTitle(e.Pub()).0 || CheckPubTitle(e.Pub()).1
  {
  }

  /**
    With both phrasings in use, an InProceedings following the majority is
    left alone and one following the minority is warned; on a tie "Advanced
    in" counts as the majority.
  */
  lemma MajorityPhrasing(e: BibEntry, np: nat, na: nat)
    requires e.kind == InProceedings && (np > 0 || na > 0)
    ensures np > na && CheckPubTitle(e.Pub()).0 ==> ProceedingsFindings(e, np, na) == (None, None)
    ensures np > na && CheckPubTitle(e.Pub()).1 ==> ProceedingsFindings(e, np, na).0.Some?
    ensures np <= na && CheckPubTitle(e.Pub()).1 ==> ProceedingsFindings(e, np, na) == (None, None)
    ensures np <= na && CheckPubTitle(e.Pub()).0 ==> ProceedingsFindings(e, np, na).0.Some?
  {
    PhrasesExclusive(e.Pub());
  }

  /**
    An InProceedings using neither phrasing is warned exactly when some
    entry uses one; an InProceedings never gets an error from this rule.
  */
  lemma NeitherPhrasing(e: BibEntry, entries: seq<BibEntry>)
    requires e.kind == InProceedings && !CheckPubTitle(e.Pub()).0 && !CheckPubTitle(e.Pub()).1
    ensures ProceedingsFindings(e, NumWith(entries, false), NumWith(entries, true)).1.None?
    ensures ProceedingsFindings(e, NumWith(entries, false), NumWith(entries, true)).0.Some?
            <==> exists i :: 0 <= i < |entries| && (Phrase(entries[i], false) || Phrase(entries[i], true))
  {
    CountPositive(entries, false);
    CountPositive(entries, true);
  }

  /**
    Every warning the rule gives has a message: the flags and counts it
    records are never the combination the message property rejects.
  */
  lemma WarningsHaveMessages(e: BibEntry, np: nat, na: nat)
    requires ProceedingsFindings(e, np, na).0.Some?
    ensures Message(ProceedingsFindings(e, np, na).0.value).Some?
  {
    var (sp, sa) := CheckPubTitle(e.Pub());
    assert ProceedingsFindings(e, np, na).0.value == ProceedingsOfAdvancedIn(sp, sa, np, na);
  }

  /** The body of the loop for one entry. */
  method CheckPreOfConfOf(e: BibEntry, numProceeding: nat, numAdvanced: nat)
    modifies e`warnings, e`errors
    ensures e.warnings == old(e.warnings) + AsLog(Warning, ProceedingsFindings(e, numProceeding, numAdvanced).0)
    ensures e.errors == old(e.errors) + AsLog(Error, ProceedingsFindings(e, numProceeding, numAdvanced).1)
  {
    var (sp, sa) := CheckPubTitle(e.Pub());
    var compare := numProceeding > numAdvanced;
    if e.kind == Article {
      if sp || sa {
        e.AddError(Issue(Error, ArticleWithProceddingsOf));
      }
    } else if e.kind == InProceedings {
      var issue := Issue(Warning, ProceedingsOfAdvancedIn(sp, sa, numProceeding, numAdvanced));
      if numProceeding == 0 && numAdvanced == 0 {
      } else if compare && sa {
        e.AddWarning(issue);
      } else if !compare && sp {
        e.AddWarning(issue);
      } else if !sp && !sa {
        e.AddWarning(issue);
      }
    }
  }

  /** `check_pre_pf_conf`: count both phrasings over all entries, then check each entry against the counts. */
  method CheckPreOfConf(entries: seq<BibEntry>)
    requires Distinct(entries)
    modifies entries
    ensures forall i :: 0 <= i < |entries| ==>
              entries[i].warnings == old(entries[i].warnings)
                                     + AsLog(Warning, ProceedingsFindings(entries[i], NumWith(entries, false), NumWith(entries, true)).0)
    ensures forall i :: 0 <= i < |entries| ==>
              entries[i].errors == old(entries[i].errors)
                                   + AsLog(Error, ProceedingsFindings(entries[i], NumWith(entries, false), NumWith(entries, true)).1)
  {
    var numProceeding := NumWith(entries, false);
    var numAdvanced := NumWith(entries, true);
    for n := 0 to |entries|
      invariant forall i :: 0 <= i < n ==>
                  entries[i].warnings == old(entries[i].warnings) + AsLog(Warning, ProceedingsFindings(entries[i], numProceeding, numAdvanced).0)
      invariant forall i :: 0 <= i < n ==>
                  entries[i].errors == old(entries[i].errors) + AsLog(Error, ProceedingsFindings(entries[i], numProceeding, numAdvanced).1)
      invariant forall i :: n <= i < |entries| ==> entries[i].warnings == old(entries[i].warnings)
      invariant forall i :: n <= i < |entries| ==> entries[i].errors == old(entries[i].errors)
    {
      CheckPreOfConfOf(entries[n], numProceeding, numAdvanced);
      assert forall i :: 0 <= i < |entries| && i != n ==> entries[i] != entries[n];
    }
  }
}

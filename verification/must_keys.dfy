/**
  `check_must_keys` of check_bib.py: the fields an entry must carry, the
  fields it should carry, and the fields it should not carry.
*/
module MustKeys {
  import opened Wrappers
  import opened Text
  import opened Dicts
  import opened Issues
  import opened Entries

  const MustKeysBase: seq<string> := ["title", "author", "pages", "year"]
  const MustKeysJournal: seq<string> := MustKeysBase + ["journal"]
  const MustKeysConference: seq<string> := MustKeysBase + ["booktitle"]
  const SelectedKeys: seq<string> := ["volume", "number"]

  /** The elements of `xs` that are not in `ys`, in the order of `xs`. */
  function Without(xs: seq<string>, ys: seq<string>): (r: seq<string>)
    ensures |r| <= |xs|
  {
    if |xs| == 0 then []
    else Without(xs[..|xs| - 1], ys) + (if xs[|xs| - 1] in ys then [] else [xs[|xs| - 1]])
  }

  /** An element is left out exactly when it is in `xs` and not in `ys`. */
  lemma {:induction false} WithoutMembers(xs: seq<string>, ys: seq<string>, x: string)
    ensures x in Without(xs, ys) <==> x in xs && x !in ys
  {
    if |xs| > 0 {
      var init := xs[..|xs| - 1];
      WithoutMembers(init, ys, x);
      assert xs == init + [xs[|xs| - 1]];
    }
  }

  /** `Without` keeps the order of `xs`: it distributes over concatenation. */
  lemma {:induction false} WithoutAppend(a: seq<string>, b: seq<string>, ys: seq<string>)
    ensures Without(a + b, ys) == Without(a, ys) + Without(b, ys)
    decreases |b|
  {
    if |b| > 0 {
      var binit := b[..|b| - 1];
      assert (a + b)[..|a + b| - 1] == a + binit;
      assert (a + b)[|a + b| - 1] == b[|b| - 1];
      WithoutAppend(a, binit, ys);
    } else {
      assert a + b == a;
    }
  }

  /** `find_not_included_keys`: the must-fields the entry lacks, as an issue when there are any. */
  function NotIncluded(e: BibEntry, must: seq<string>): Option<IssueKind>
  {
    var missing := Without(must, Keys(e.fields));
    if |missing| > 0 then Some(NotIncludedKeys(e.entryType, missing)) else None
  }

  /** `find_redundant_keys`: the entry's fields outside the allowed ones, as an issue when there are any. */
  function Redundant(e: BibEntry, allowed: seq<string>): Option<IssueKind>
  {
    var extra := Without(Keys(e.fields), allowed);
    if |extra| > 0 then Some(RedundantKeys(e.entryType, extra)) else None
  }

  /** The loop of `find_not_included_keys`, over the must-fields in order. */
  method FindNotIncludedKeys(e: BibEntry, must: seq<string>) returns (r: Option<IssueKind>)
    ensures r == NotIncluded(e, must)
  {
    var keys := Keys(e.fields);
    var missing: seq<string> := [];
    for j := 0 to |must|
      invariant missing == Without(must[..j], keys)
    {
      assert must[..j + 1][..j] == must[..j];
      if must[j] !in keys {
        missing := missing + [must[j]];
      }
    }
    assert must[..|must|] == must;
    r := if |missing| > 0 then Some(NotIncludedKeys(e.entryType, missing)) else None;
  }

  /** The loop of `find_redundant_keys`, over the entry's fields in order. */
  method FindRedundantKeys(e: BibEntry, allowed: seq<string>) returns (r: Option<IssueKind>)
    ensures r == Redundant(e, allowed)
  {
    var keys := Keys(e.fields);
    var extra: seq<string> := [];
    for j := 0 to |keys|
      invariant extra == Without(keys[..j], allowed)
    {
      assert keys[..j + 1][..j] == keys[..j];
      if keys[j] !in allowed {
        extra := extra + [keys[j]];
      }
    }
    assert keys[..|keys|] == keys;
    r := if |extra| > 0 then Some(RedundantKeys(e.entryType, extra)) else None;
  }

  /** The missing-field warning: an Article not on arXiv should carry volume and number. */
  function MissingWarning(e: BibEntry): Option<IssueKind>
  {
    if e.kind == Article && !OnArxiv(e.Field("journal")) then NotIncluded(e, SelectedKeys) else None
  }

  /** The missing-field error, against the journal or the conference must-fields. */
  function MissingError(e: BibEntry): Option<IssueKind>
  {
    match e.kind
    case Article => NotIncluded(e, MustKeysJournal)
    case InProceedings => NotIncluded(e, MustKeysConference)
    case _ => None
  }

  /** The redundant-field error: fields beyond the must-fields and the selected ones. */
  function RedundantError(e: BibEntry): Option<IssueKind>
  {
    match e.kind
    case Article => Redundant(e, MustKeysJournal + SelectedKeys)
    case InProceedings => Redundant(e, MustKeysConference + SelectedKeys)
    case _ => None
  }

  /** The warnings an entry gets from the rule. */
  function MustKeysWarnings(e: BibEntry): (r: seq<Issue>)
    ensures |r| <= 1
  {
    AsLog(Warning, MissingWarning(e))
  }

  /** The errors an entry gets: first the missing must-fields, then the redundant fields. */
  function MustKeysErrors(e: BibEntry): (r: seq<Issue>)
    ensures |r| <= 2
    ensures forall i :: 0 <= i < |r| ==> r[i].level == Error
  {
    AsLog(Error, MissingError(e)) + AsLog(Error, RedundantError(e))
  }

  /**
    An issue about missing fields lists exactly the must-fields the entry
    lacks, in the order they are required; when none is missing there is
    no issue.
  */
  lemma NotIncludedListsMissing(e: BibEntry, must: seq<string>)
    ensures NotIncluded(e, must).None? <==> forall k :: k in must ==> k in Keys(e.fields)
    ensures NotIncluded(e, must).Some? ==>
              && NotIncluded(e, must).value.NotIncludedKeys?
              && NotIncluded(e, must).value.entryType == e.entryType
              && forall k :: k in NotIncluded(e, must).value.notIncludedKeys <==> k in must && k !in Keys(e.fields)
  {
    forall k ensures k in Without(must, Keys(e.fields)) <==> k in must && k !in Keys(e.fields) {
      WithoutMembers(must, Keys(e.fields), k);
    }
    if |Without(must, Keys(e.fields))| > 0 {
      assert Without(must, Keys(e.fields))[0] in Without(must, Keys(e.fields));
    }
  }

  /**
    An issue about redundant fields lists exactly the entry's fields outside
    the allowed ones; when there are none there is no issue.
  */
  lemma RedundantListsExtra(e: BibEntry, allowed: seq<string>)
    ensures Redundant(e, allowed).None? <==> forall k :: k in Keys(e.fields) ==> k in allowed
    ensures Redundant(e, allowed).Some? ==>
              && Redundant(e, allowed).value.RedundantKeys?
              && forall k :: k in Redundant(e, allowed).value.redundantKeys <==> k in Keys(e.fields) && k !in allowed
  {
    forall k ensures k in Without(Keys(e.fields), allowed) <==> k in Keys(e.fields) && k !in allowed {
      WithoutMembers(Keys(e.fields), allowed, k);
    }
    if |Without(Keys(e.fields), allowed)| > 0 {
      assert Without(Keys(e.fields), allowed)[0] in Without(Keys(e.fields), allowed);
    }
  }

  /**
    An Article whose journal names arXiv is never asked for volume and
    number; any other Article lacking one of them is warned.
  */
  lemma ArticleSelectedWarning(e: BibEntry)
    requires e.kind == Article
    ensures OnArxiv(e.Field("journal")) ==> MustKeysWarnings(e) == []
    ensures !OnArxiv(e.Field("journal")) && ("volume" !in Keys(e.fields) || "number" !in Keys(e.fields))
            ==> |MustKeysWarnings(e)| == 1 && MustKeysWarnings(e)[0].kind.NotIncludedKeys?
  {
    if !OnArxiv(e.Field("journal")) && ("volume" !in Keys(e.fields) || "number" !in Keys(e.fields)) {
      NotIncludedListsMissing(e, SelectedKeys);
      assert MissingWarning(e) == NotIncluded(e, SelectedKeys);
      assert SelectedKeys[0] == "volume" && SelectedKeys[1] == "number";
      assert !(forall k :: k in SelectedKeys ==> k in Keys(e.fields));
      assert NotIncluded(e, SelectedKeys).Some?;
    }
  }

  /**
    An Article or InProceedings with every required field and nothing
    beyond the required and selected fields raises no error.
  */
  lemma CompleteEntryNoErrors(e: BibEntry)
    requires e.kind == Article ==> forall k :: k in MustKeysJournal ==> k in Keys(e.fields)
    requires e.kind == Article ==> forall k :: k in Keys(e.fields) ==> k in MustKeysJournal + SelectedKeys
    requires e.kind == InProceedings ==> forall k :: k in MustKeysConference ==> k in Keys(e.fields)
    requires e.kind == InProceedings ==> forall k :: k in Keys(e.fields) ==> k in MustKeysConference + SelectedKeys
    ensures MustKeysErrors(e) == []
  {
    if e.kind == Article {
      NotIncludedListsMissing(e, MustKeysJournal);
      RedundantListsExtra(e, MustKeysJournal + SelectedKeys);
    } else if e.kind == InProceedings {
      NotIncludedListsMissing(e, MustKeysConference);
      RedundantListsExtra(e, MustKeysConference + SelectedKeys);
    }
  }

  /** The first half of the rule's body: which missing-field messages to log. */
  method FindMissing(e: BibEntry) returns (warning: Option<IssueKind>, error: Option<IssueKind>)
    ensures warning == MissingWarning(e) && error == MissingError(e)
  {
    warning, error := None, None;
    if e.kind == Article {
      if OnArxiv(e.Field("journal")) {
        error := FindNotIncludedKeys(e, MustKeysJournal);
      } else {
        warning := FindNotIncludedKeys(e, SelectedKeys);
        error := FindNotIncludedKeys(e, MustKeysJournal);
      }
    } else if e.kind == InProceedings {
      error := FindNotIncludedKeys(e, MustKeysConference);
    }
  }

  /** The second half of the rule's body: which redundant-field message to log. */
  method FindRedundant(e: BibEntry) returns (error: Option<IssueKind>)
    ensures error == RedundantError(e)
  {
    error := None;
    if e.kind == Article {
      error := FindRedundantKeys(e, MustKeysJournal + SelectedKeys);
    } else if e.kind == InProceedings {
      error := FindRedundantKeys(e, MustKeysConference + SelectedKeys);
    }
  }

  /** The rule on one entry: the missing-field logs, then the redundant-field error. */
  method CheckMustKeysOf(e: BibEntry)
    modifies e`warnings, e`errors
    ensures e.warnings == old(e.warnings) + MustKeysWarnings(e)
    ensures e.errors == old(e.errors) + MustKeysErrors(e)
  {
    var warning, error := FindMissing(e);
    e.AddWarningIf(warning);
    e.AddErrorIf(error);
    var redundant := FindRedundant(e);
    e.AddErrorIf(redundant);
  }

  /** `check_must_keys`: every entry gets its missing-field and redundant-field logs. */
  method CheckMustKeys(entries: seq<BibEntry>)
    requires Distinct(entries)
    modifies entries
    ensures forall i :: 0 <= i < |entries| ==>
              entries[i].warnings == old(entries[i].warnings) + MustKeysWarnings(entries[i])
    ensures forall i :: 0 <= i < |entries| ==>
              entries[i].errors == old(entries[i].errors) + MustKeysErrors(entries[i])
  {
    for n := 0 to |entries|
      invariant forall i :: 0 <= i < n ==> entries[i].warnings == old(entries[i].warnings) + MustKeysWarnings(entries[i])
      invariant forall i :: 0 <= i < n ==> entries[i].errors == old(entries[i].errors) + MustKeysErrors(entries[i])
      invariant forall i :: n <= i < |entries| ==> entries[i].warnings == old(entries[i].warnings)
      invariant forall i :: n <= i < |entries| ==> entries[i].errors == old(entries[i].errors)
    {
      CheckMustKeysOf(entries[n]);
      assert forall i :: 0 <= i < |entries| && i != n ==> entries[i] != entries[n];
    }
  }
}

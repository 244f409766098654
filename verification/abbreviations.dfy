/**
  `check_pub_abbreviation` of check_bib.py: a journal or booktitle should be
  written out rather than abbreviated; a word of letters with two capitals in
  a row counts as an abbreviation, except for a few publisher names.
*/
module Abbreviations {
  import opened Wrappers
  import opened Text
  import opened Issues
  import opened Entries

  /** The publisher abbreviations that are let through. */
  const ExcludedAbbreviations: set<string> := {"ACM", "IEEE", "SIAM", "MIT"}

  /** Two capitals in a row somewhere in `w`. */
  predicate HasCapitalPair(w: string)
  {
    exists k :: 0 <= k && k + 1 < |w| && IsUpper(w[k]) && IsUpper(w[k + 1])
  }

  /** `s[p..q]` is a word in the sense of `\b`: a maximal run of word characters. */
  predicate WordSpan(s: string, p: nat, q: nat)
  {
    && p < q <= |s|
    && (p == 0 || !IsWordChar(s[p - 1]))
    && (q == |s| || !IsWordChar(s[q]))
    && forall k :: p <= k < q ==> IsWordChar(s[k])
  }

  /**
    `s[p..q]` is what `\b(?:[A-Z]{2,}|[A-Za-z]*[A-Z]{2,}[A-Za-z]*)\b` matches
    at `p`: a whole word made of letters only, with two capitals in a row.
  */
  predicate AbbreviationSpan(s: string, p: nat, q: nat)
  {
    && WordSpan(s, p, q)
    && (forall k :: p <= k < q ==> IsAlpha(s[k]))
    && HasCapitalPair(s[p..q])
  }

  /**
    The scanner for the pattern at `p`: the match must start a word and take
    the run of letters from there, which must end the word, so it is the
    whole run or nothing. The result is where the match ends.
  */
  function AbbreviationAt(s: string, p: nat): (r: Option<nat>)
    requires p <= |s|
    ensures r.Some? ==> p + 2 <= r.value <= |s|
  {
    if p > 0 && IsWordChar(s[p - 1]) then None
    else
      var q := SpanEnd(s, p, IsAlpha);
      if (q == |s| || !IsWordChar(s[q])) && HasCapitalPair(s[p..q]) then Some(q) else None
  }

  /** The scanner matches from `p` to `q` exactly when the pattern does. */
  lemma AbbreviationAtExactly(s: string, p: nat, q: nat)
    requires p <= |s|
    ensures AbbreviationAt(s, p) == Some(q) <==> AbbreviationSpan(s, p, q)
  {
  }

  /** A match ends before any later match starts: the later one starts a word. */
  lemma MatchesDisjoint(s: string, p: nat, q: nat, p': nat, q': nat)
    requires AbbreviationSpan(s, p, q) && AbbreviationSpan(s, p', q') && p < p'
    ensures q <= p'
  {
  }

  /** `re.findall` from position `from`: the matches, left to right. */
  function FindAll(s: string, from: nat): seq<string>
    requires from <= |s|
    decreases |s| - from
  {
    if from == |s| then []
    else match AbbreviationAt(s, from)
      case Some(q) => [s[from..q]] + FindAll(s, q)
      case None => FindAll(s, from + 1)
  }

  /** Every word found from `from` on is a match of the pattern starting there or later. */
  lemma {:induction false} FindAllSound(s: string, from: nat, w: string)
    requires from <= |s| && w in FindAll(s, from)
    ensures exists p: nat, q: nat :: from <= p && AbbreviationSpan(s, p, q) && s[p..q] == w
    decreases |s| - from
  {
    match AbbreviationAt(s, from)
    case Some(q) =>
      AbbreviationAtExactly(s, from, q);
      if w != s[from..q] {
        FindAllSound(s, q, w);
      }
    case None =>
      FindAllSound(s, from + 1, w);
  }

  /** Every match of the pattern starting at `from` or later is found. */
  lemma {:induction false} FindAllComplete(s: string, from: nat, p: nat, q: nat)
    requires from <= p && AbbreviationSpan(s, p, q)
    ensures s[p..q] in FindAll(s, from)
    decreases |s| - from
  {
    match AbbreviationAt(s, from)
    case Some(q') =>
      if p == from {
        AbbreviationAtExactly(s, from, q);
      } else {
        AbbreviationAtExactly(s, from, q');
        MatchesDisjoint(s, from, q', p, q);
        FindAllComplete(s, q', p, q);
      }
    case None =>
      if p == from {
        AbbreviationAtExactly(s, from, q);
      } else {
        FindAllComplete(s, from + 1, p, q);
      }
  }

  /** The list comprehension that drops the excluded abbreviations, keeping the order. */
  function WithoutExcluded(abbrs: seq<string>): (r: seq<string>)
    ensures forall w :: w in r <==> w in abbrs && w !in ExcludedAbbreviations
  {
    if |abbrs| == 0 then []
    else (if abbrs[0] in ExcludedAbbreviations then [] else [abbrs[0]]) + WithoutExcluded(abbrs[1..])
  }

  /** `detect_conference_abbreviations`: the abbreviations of the name in order, or nothing when there are none. */
  function DetectConferenceAbbreviations(pub: string): (r: Option<seq<string>>)
    ensures r.Some? ==> |r.value| > 0
    ensures r.Some? ==> forall w :: w in r.value ==> w !in ExcludedAbbreviations && w in FindAll(pub, 0)
    ensures r.None? ==> forall w :: w in FindAll(pub, 0) ==> w in ExcludedAbbreviations
  {
    var targetAbbrs := WithoutExcluded(FindAll(pub, 0));
    if |targetAbbrs| == 0 then None else Some(targetAbbrs)
  }

  /**
    A word is reported exactly when it is a whole word of the name, made of
    letters with two capitals in a row, and not one of the excluded names;
    nothing is reported exactly when there is no such word.
  */
  lemma DetectExactly(pub: string, w: string)
    ensures DetectConferenceAbbreviations(pub).Some? ==>
              (w in DetectConferenceAbbreviations(pub).value
               <==> w !in ExcludedAbbreviations && exists p: nat, q: nat :: AbbreviationSpan(pub, p, q) && pub[p..q] == w)
    ensures DetectConferenceAbbreviations(pub).None? && w !in ExcludedAbbreviations ==>
              forall p: nat, q: nat :: AbbreviationSpan(pub, p, q) ==> pub[p..q] != w
  {
    if w in FindAll(pub, 0) {
      FindAllSound(pub, 0, w);
    }
    forall p: nat, q: nat | AbbreviationSpan(pub, p, q) && pub[p..q] == w
      ensures w in FindAll(pub, 0)
    {
      FindAllComplete(pub, 0, p, q);
    }
  }

  /** The warning an entry gets: the abbreviations in its publication name. */
  function AbbreviationFinding(e: BibEntry): Option<IssueKind>
  {
    match e.Pub()
    case None => None
    case Some(pub) =>
      match DetectConferenceAbbreviations(pub)
      case None => None
      case Some(abbrs) => Some(Abbreviation(abbrs))
  }

  /** The rule on one entry. */
  method CheckAbbreviationOf(e: BibEntry)
    modifies e`warnings
    ensures e.warnings == old(e.warnings) + AsLog(Warning, AbbreviationFinding(e))
  {
    var pub := e.Pub();
    if pub.Some? {
      var abbrs := DetectConferenceAbbreviations(pub.value);
      if abbrs.Some? {
        e.AddWarning(Issue(Warning, Abbreviation(abbrs.value)));
      }
    }
  }

  /** `check_pub_abbreviation`: every entry whose publication name has abbreviations gets one warning listing them. */
  method CheckPubAbbreviation(entries: seq<BibEntry>)
    requires Distinct(entries)
    modifies entries
    ensures forall i :: 0 <= i < |entries| ==>
              entries[i].warnings == old(entries[i].warnings) + AsLog(Warning, AbbreviationFinding(entries[i]))
    ensures forall i :: 0 <= i < |entries| ==> entries[i].errors == old(entries[i].errors)
  {
    for n := 0 to |entries|
      invariant forall i :: 0 <= i < n ==>
                  entries[i].warnings == old(entries[i].warnings) + AsLog(Warning, AbbreviationFinding(entries[i]))
      invariant forall i :: n <= i < |entries| ==> entries[i].warnings == old(entries[i].warnings)
      invariant forall i :: 0 <= i < |entries| ==> entries[i].errors == old(entries[i].errors)
    {
      CheckAbbreviationOf(entries[n]);
      assert forall i :: 0 <= i < |entries| && i != n ==> entries[i] != entries[n];
    }
  }
}

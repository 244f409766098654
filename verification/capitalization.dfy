/**
  `check_pub_captialization` of check_bib.py: every word of a journal or
  booktitle should start with a capital letter, except for short function
  words after the first word and a few shapes of word that carry no letters
  to capitalise.
*/
module Capitalization {
  import opened Wrappers
  import opened Text
  import opened Issues
  import opened Entries

  /** The prepositions, articles and auxiliaries that may stay lower-case, and `preprint`. */
  const IgnoredWords: set<string> := {
    "a", "an", "the", "and", "but", "or", "for", "nor", "as", "at", "by",
    "from", "in", "into", "of", "on", "onto", "to", "with", "is",
    "are", "was", "were", "am", "be", "been", "being", "have", "has", "had",
    "do", "does", "did", "will", "would", "shall", "should", "can", "could",
    "may", "might", "must", "not",
    "preprint"
  }

  /** `^arxiv(:\d{4}\.\d{4,5})?$`, ignoring case: `arXiv` alone or with an identifier. */
  predicate ArxivWord(w: string)
  {
    || Lower(w) == "arxiv"
    || (&& (|w| == 15 || |w| == 16)
        && Lower(w[..6]) == "arxiv:"
        && AllDigits(w[6..10])
        && w[10] == '.'
        && AllDigits(w[11..]))
  }

  /** `^\d+(st|nd|rd|th)$`, ignoring case: an ordinal such as `23rd`. */
  predicate OrdinalWord(w: string)
  {
    |w| >= 3 && AllDigits(w[..|w| - 2]) && IsOrdinalSuffix(w[|w| - 2..])
  }

  /** `^[\d.,]+$`: a number such as `45.6` or `1,000`. */
  predicate NumberWord(w: string)
  {
    |w| > 0 && forall k :: 0 <= k < |w| ==> IsDigit(w[k]) || w[k] == '.' || w[k] == ','
  }

  /** The shapes of word the rule lets through whatever their case. */
  predicate AllowedWord(w: string)
  {
    ArxivWord(w) || OrdinalWord(w) || NumberWord(w)
  }

  /** The first letter of a word, skipping leading digits and punctuation. */
  function FirstAlpha(w: string): (r: Option<char>)
    ensures r.Some? ==> IsAlpha(r.value) && r.value in w
    ensures r.None? <==> forall k :: 0 <= k < |w| ==> !IsAlpha(w[k])
  {
    if |w| == 0 then None
    else if IsAlpha(w[0]) then Some(w[0])
    else FirstAlpha(w[1..])
  }

  /** The loop that looks for the first letter of a word. */
  method FirstLetter(w: string) returns (r: Option<char>)
    ensures r == FirstAlpha(w)
  {
    r := None;
    var k := 0;
    while k < |w|
      invariant 0 <= k <= |w|
      invariant FirstAlpha(w) == FirstAlpha(w[k..])
    {
      assert w[k..][1..] == w[k + 1..];
      if IsAlpha(w[k]) {
        r := Some(w[k]);
        return;
      }
      k := k + 1;
    }
  }

  /**
    The `i`-th word breaks the rule: it is not an allowed shape, it has a
    letter, that letter is not a capital, and it is the first word or not an
    ignored word in lower case.
  */
  predicate Violation(w: string, i: nat)
  {
    && !AllowedWord(w)
    && FirstAlpha(w).Some?
    && !IsUpper(FirstAlpha(w).value)
    && (i == 0 || Lower(w) !in IgnoredWords)
  }

  /** The words among the first `n` that break the rule, in order. */
  function Violators(words: seq<string>, n: nat): (r: seq<string>)
    requires n <= |words|
    ensures |r| <= n
  {
    if n == 0 then []
    else Violators(words, n - 1) + (if Violation(words[n - 1], n - 1) then [words[n - 1]] else [])
  }

  /** A word is reported exactly when some position holds it and it breaks the rule there. */
  lemma {:induction false} ViolatorsExactly(words: seq<string>, n: nat, w: string)
    requires n <= |words|
    ensures w in Violators(words, n) <==> exists i :: 0 <= i < n && words[i] == w && Violation(w, i)
  {
    if n > 0 {
      ViolatorsExactly(words, n - 1, w);
    }
  }

  /**
    The first word is held to the rule even when it is an ignored word:
    `the Journal` is reported, while `Journal of the Society` is not.
  */
  lemma FirstWordAlwaysChecked(words: seq<string>)
    requires |words| > 0 && !AllowedWord(words[0])
    requires FirstAlpha(words[0]).Some? && !IsUpper(FirstAlpha(words[0]).value)
    ensures words[0] in Violators(words, |words|)
  {
    ViolatorsExactly(words, |words|, words[0]);
  }

  /** Later ignored words, and words with a capital or no letter at all, are never reported for that position. */
  lemma LaterIgnoredWordsPass(words: seq<string>, i: nat)
    requires 0 < i < |words|
    requires Lower(words[i]) in IgnoredWords || FirstAlpha(words[i]).None? || IsUpper(FirstAlpha(words[i]).value)
    ensures !Violation(words[i], i)
  {
  }

  /**
    `find_improperly_capitalized_words`: the words of the sentence that break
    the rule, in order, or nothing when there are none.
  */
  method FindImproperlyCapitalizedWords(sentence: string) returns (r: Option<seq<string>>)
    ensures var v := Violators(SplitWords(sentence), |SplitWords(sentence)|);
            r == if |v| > 0 then Some(v) else None
  {
    var words := SplitWords(sentence);
    var violations: seq<string> := [];
    for i := 0 to |words|
      invariant violations == Violators(words, i)
    {
      var word := words[i];
      if !AllowedWord(word) {
        var firstLetter := FirstLetter(word);
        if firstLetter.Some? {
          if i == 0 {
            if !IsUpper(firstLetter.value) {
              violations := violations + [word];
            }
          } else if Lower(word) !in IgnoredWords && !IsUpper(firstLetter.value) {
            violations := violations + [word];
          }
        }
      }
    }
    r := if |violations| > 0 then Some(violations) else None;
  }

  /** The warning an entry gets: the offending words of its publication name, joined by `, `. */
  function CapitalizationFinding(e: BibEntry): Option<IssueKind>
  {
    match e.Pub()
    case None => None
    case Some(pub) =>
      var v := Violators(SplitWords(pub), |SplitWords(pub)|);
      if |v| > 0 then Some(TitleCapitalization(Join(v, ", "))) else None
  }

  /** The rule on one entry. */
  method CheckCapitalizationOf(e: BibEntry)
    modifies e`warnings
    ensures e.warnings == old(e.warnings) + AsLog(Warning, CapitalizationFinding(e))
  {
    var pub := e.Pub();
    if pub.Some? {
      var nonCapWords := FindImproperlyCapitalizedWords(pub.value);
      if nonCapWords.Some? {
        e.AddWarning(Issue(Warning, TitleCapitalization(Join(nonCapWords.value, ", "))));
      }
    }
  }

  /** `check_pub_captialization`: every entry whose publication name breaks the rule gets one warning. */
  method CheckPubCapitalization(entries: seq<BibEntry>)
    requires Distinct(entries)
    modifies entries
    ensures forall i :: 0 <= i < |entries| ==>
              entries[i].warnings == old(entries[i].warnings) + AsLog(Warning, CapitalizationFinding(entries[i]))
    ensures forall i :: 0 <= i < |entries| ==> entries[i].errors == old(entries[i].errors)
  {
    for n := 0 to |entries|
      invariant forall i :: 0 <= i < n ==>
                  entries[i].warnings == old(entries[i].warnings) + AsLog(Warning, CapitalizationFinding(entries[i]))
      invariant forall i :: n <= i < |entries| ==> entries[i].warnings == old(entries[i].warnings)
      invariant forall i :: 0 <= i < |entries| ==> entries[i].errors == old(entries[i].errors)
    {
      CheckCapitalizationOf(entries[n]);
      assert forall i :: 0 <= i < |entries| && i != n ==> entries[i] != entries[n];
    }
  }
}

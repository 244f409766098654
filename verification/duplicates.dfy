/**
  `check_redundant` of check_bib.py: entries that share a citation key, or
  share a title up to letter case, are each given an error.
*/
module Duplicates {
  import opened Wrappers
  import opened Text
  import opened Dicts
  import opened Issues
  import opened Entries

  /** `[entry.citation_key for entry in entries]`. */
  function CitationKeys(entries: seq<BibEntry>): (r: seq<string>)
    ensures |r| == |entries|
    ensures forall i :: 0 <= i < |entries| ==> r[i] == entries[i].citationKey
  {
    seq(|entries|, i requires 0 <= i < |entries| => entries[i].citationKey)
  }

  /** Every entry has a title: `entry.title.lower()` fails on a missing one. */
  predicate HasTitles(entries: seq<BibEntry>)
  {
    forall i :: 0 <= i < |entries| ==> entries[i].Field("title").Some?
  }

  /** `[entry.title.lower() for entry in entries]`. */
  function LowerTitles(entries: seq<BibEntry>): (r: seq<string>)
    requires HasTitles(entries)
    ensures |r| == |entries|
    ensures forall i :: 0 <= i < |entries| ==> r[i] == Lower(entries[i].Field("title").value)
  {
    seq(|entries|, i requires 0 <= i < |entries| && HasTitles(entries) => Lower(entries[i].Field("title").value))
  }

  /** The positions below `n` at which `lst` holds `x`, ascending. */
  function Positions(lst: seq<string>, x: string, n: nat): seq<nat>
    requires n <= |lst|
  {
    if n == 0 then [] else Positions(lst, x, n - 1) + (if lst[n - 1] == x then [n - 1] else [])
  }

  /** `Positions` lists exactly the positions holding `x`, ascending, one per occurrence. */
  lemma {:induction false} PositionsExactly(lst: seq<string>, x: string, n: nat)
    requires n <= |lst|
    ensures forall i :: i in Positions(lst, x, n) <==> 0 <= i < n && lst[i] == x
    ensures forall a, b :: 0 <= a < b < |Positions(lst, x, n)| ==> Positions(lst, x, n)[a] < Positions(lst, x, n)[b]
    ensures |Positions(lst, x, n)| == Count(lst[..n], x)
  {
    if n > 0 {
      PositionsExactly(lst, x, n - 1);
      assert lst[..n][..n - 1] == lst[..n - 1];
      var r := Positions(lst, x, n - 1);
      assert forall a :: 0 <= a < |r| ==> r[a] in r;
    }
  }

  /** What `find_duplicates` returns: each item occurring more than once, mapped to its positions. */
  ghost predicate DuplicatesOf(lst: seq<string>, d: Dict<seq<nat>>)
  {
    forall x :: Get(d, x) == (if Count(lst, x) > 1 then Some(Positions(lst, x, |lst|)) else None)
  }

  /** The loop state of `find_duplicates` after the first `n` items. */
  ghost predicate DuplicatesUpTo(lst: seq<string>, d: Dict<seq<nat>>, n: nat)
    requires n <= |lst|
  {
    && DistinctKeys(d)
    && forall x :: Get(d, x) == (if Count(lst, x) > 1 && Positions(lst, x, n) != [] then Some(Positions(lst, x, n)) else None)
  }

  /** `duplicate_dict.get(item, []) + [n]`. */
  function NextPositions(d: Dict<seq<nat>>, item: string, n: nat): seq<nat>
  {
    (if Get(d, item).Some? then Get(d, item).value else []) + [n]
  }

  /** One turn of the loop: position `n` joins the list of its item when that item is duplicated. */
  lemma DuplicatesStep(lst: seq<string>, d: Dict<seq<nat>>, n: nat)
    requires n < |lst| && DuplicatesUpTo(lst, d, n)
    ensures Count(lst, lst[n]) > 1 ==>
              DuplicatesUpTo(lst, Put<seq<nat>>(d, lst[n], NextPositions(d, lst[n], n)), n + 1)
    ensures Count(lst, lst[n]) <= 1 ==> DuplicatesUpTo(lst, d, n + 1)
  {
    var item := lst[n];
    if Count(lst, item) > 1 {
      var positions := NextPositions(d, item, n);
      assert positions == Positions(lst, item, n + 1);
      PutDistinct(d, item, positions);
      var d' := Put<seq<nat>>(d, item, positions);
      forall x ensures Get(d', x) == (if Count(lst, x) > 1 && Positions(lst, x, n + 1) != [] then Some(Positions(lst, x, n + 1)) else None) {
        if x != item {
          assert Positions(lst, x, n + 1) == Positions(lst, x, n);
        }
      }
    } else {
      forall x ensures Get(d, x) == (if Count(lst, x) > 1 && Positions(lst, x, n + 1) != [] then Some(Positions(lst, x, n + 1)) else None) {
        if x != item {
          assert Positions(lst, x, n + 1) == Positions(lst, x, n);
        }
      }
    }
  }

  /** The first position at or after `i` holding `x`, or `|lst|` when there is none. */
  function FirstIndexFrom(lst: seq<string>, x: string, i: nat): (r: nat)
    requires i <= |lst|
    ensures i <= r <= |lst|
    ensures r < |lst| ==> lst[r] == x
    ensures forall k :: i <= k < r ==> lst[k] != x
    decreases |lst| - i
  {
    if i == |lst| then |lst| else if lst[i] == x then i else FirstIndexFrom(lst, x, i + 1)
  }

  /** The position of the first occurrence of `x` in `lst`, or `|lst|` when it does not occur. */
  function FirstIndex(lst: seq<string>, x: string): nat
  {
    FirstIndexFrom(lst, x, 0)
  }

  /** The keys `ks` are in order of first occurrence in `lst`, and all occur before `n`. */
  ghost predicate FirstOccurrenceOrder(lst: seq<string>, ks: seq<string>, n: nat)
  {
    && (forall a, b :: 0 <= a < b < |ks| ==> FirstIndex(lst, ks[a]) < FirstIndex(lst, ks[b]))
    && (forall a :: 0 <= a < |ks| ==> FirstIndex(lst, ks[a]) < n)
  }

  /** An item not yet a key when the loop reaches it occurs there for the first time. */
  lemma NewKeyFirstSeen(lst: seq<string>, d: Dict<seq<nat>>, n: nat)
    requires n < |lst| && DuplicatesUpTo(lst, d, n)
    requires Count(lst, lst[n]) > 1 && lst[n] !in Keys(d)
    ensures FirstIndex(lst, lst[n]) == n
  {
    var item := lst[n];
    assert Get(d, item).None?;
    assert Positions(lst, item, n) == [];
    PositionsExactly(lst, item, n);
    assert forall k :: 0 <= k < n ==> lst[k] != item;
    FirstIndexAt(lst, item, n);
  }

  /** An item first occurs at `n` when it is there and nowhere before. */
  lemma FirstIndexAt(lst: seq<string>, x: string, n: nat)
    requires n < |lst| && lst[n] == x && forall k :: 0 <= k < n ==> lst[k] != x
    ensures FirstIndex(lst, x) == n
  {
  }

  /**
    One turn of the loop keeps the keys in order of first occurrence: an item
    already present keeps its place, and a new one, first seen at this turn,
    is appended.
  */
  lemma OrderStep(lst: seq<string>, d: Dict<seq<nat>>, n: nat)
    requires n < |lst| && FirstOccurrenceOrder(lst, Keys(d), n)
    requires Count(lst, lst[n]) > 1 && lst[n] !in Keys(d) ==> FirstIndex(lst, lst[n]) == n
    ensures Count(lst, lst[n]) > 1 ==>
              FirstOccurrenceOrder(lst, Keys(Put<seq<nat>>(d, lst[n], NextPositions(d, lst[n], n))), n + 1)
    ensures FirstOccurrenceOrder(lst, Keys(d), n + 1)
  {
    if Count(lst, lst[n]) > 1 && lst[n] !in Keys(d) {
      AppendKeepsOrder(lst, Keys(d), lst[n], n);
    }
  }

  /** Appending a key whose first occurrence is at `n` keeps the order. */
  lemma AppendKeepsOrder(lst: seq<string>, ks: seq<string>, item: string, n: nat)
    requires FirstOccurrenceOrder(lst, ks, n) && FirstIndex(lst, item) == n
    ensures FirstOccurrenceOrder(lst, ks + [item], n + 1)
  {
    var ks' := ks + [item];
    assert forall a :: 0 <= a < |ks| ==> ks'[a] == ks[a];
  }

  /**
    `find_duplicates`: every item occurring more than once, keyed in order of
    first occurrence, with the list of positions where it occurs.
  */
  method FindDuplicates(lst: seq<string>) returns (d: Dict<seq<nat>>)
    ensures DuplicatesOf(lst, d)
    ensures DistinctKeys(d)
    ensures forall a, b :: 0 <= a < b < |d| ==> FirstIndex(lst, d[a].0) < FirstIndex(lst, d[b].0)
  {
    d := [];
    for idx := 0 to |lst|
      invariant DuplicatesUpTo(lst, d, idx)
      invariant FirstOccurrenceOrder(lst, Keys(d), idx)
    {
      DuplicatesStep(lst, d, idx);
      var item := lst[idx];
      if Count(lst, item) > 1 && item !in Keys(d) {
        NewKeyFirstSeen(lst, d, idx);
      }
      OrderStep(lst, d, idx);
      if Count(lst, item) > 1 {
        var current := Get(d, item);
        var positions: seq<nat> := if current.Some? then current.value else [];
        d := Put<seq<nat>>(d, item, positions + [idx]);
      }
    }
    forall x | Count(lst, x) > 1 ensures Positions(lst, x, |lst|) != [] {
      PositionsExactly(lst, x, |lst|);
      assert lst[..|lst|] == lst;
    }
  }

  /** The inner loop: every listed position gets the error once. */
  method AddToAll(entries: seq<BibEntry>, positions: seq<nat>, issue: Issue)
    requires Distinct(entries)
    requires issue.level == Error
    requires forall a :: 0 <= a < |positions| ==> positions[a] < |entries|
    requires forall a, b :: 0 <= a < b < |positions| ==> positions[a] < positions[b]
    modifies entries
    ensures forall i :: 0 <= i < |entries| ==>
              entries[i].errors == old(entries[i].errors) + (if i in positions then [issue] else [])
    ensures forall i :: 0 <= i < |entries| ==> entries[i].warnings == old(entries[i].warnings)
  {
    for q := 0 to |positions|
      invariant forall i :: 0 <= i < |entries| ==>
                  entries[i].errors == old(entries[i].errors) + (if i in positions[..q] then [issue] else [])
      invariant forall i :: 0 <= i < |entries| ==> entries[i].warnings == old(entries[i].warnings)
    {
      var n := positions[q];
      assert positions[..q + 1] == positions[..q] + [n];
      assert n !in positions[..q];
      entries[n].AddError(issue);
      assert forall i :: 0 <= i < |entries| && i != n ==> entries[i] != entries[n];
    }
    assert positions[..|positions|] == positions;
  }

  /** The error of a shared citation key, or of a shared title. */
  function DuplicateIssue(byTitle: bool, item: string): IssueKind
  {
    if byTitle then MultipleTitle(item) else MultipleEntryKey(item)
  }

  /** The error one entry gets from one of the two loops: only when its item is duplicated. */
  function DuplicateLog(items: seq<string>, i: nat, byTitle: bool): seq<Issue>
    requires i < |items|
  {
    if Count(items, items[i]) > 1 then [Issue(Error, DuplicateIssue(byTitle, items[i]))] else []
  }

  /**
    The `p`-th pair of the dict: the positions are ascending, in range and
    exactly those of its item, and the item is not an earlier key.
  */
  lemma DictEntryPositions(items: seq<string>, d: Dict<seq<nat>>, p: nat)
    requires DuplicatesOf(items, d) && DistinctKeys(d) && p < |d|
    ensures forall a :: 0 <= a < |d[p].1| ==> d[p].1[a] < |items|
    ensures forall a, b :: 0 <= a < b < |d[p].1| ==> d[p].1[a] < d[p].1[b]
    ensures forall i :: 0 <= i < |items| ==> (i in d[p].1 <==> items[i] == d[p].0)
    ensures Keys(d)[..p + 1] == Keys(d)[..p] + [d[p].0]
    ensures d[p].0 !in Keys(d)[..p]
  {
    var (item, positions) := d[p];
    var ks := Keys(d);
    assert ks[..p + 1] == ks[..p] + [ks[p]];
    GetStored(d, p);
    assert positions == Positions(items, item, |items|);
    PositionsExactly(items, item, |items|);
    assert forall a :: 0 <= a < |positions| ==> positions[a] in positions;
  }

  /** The keys of the dict are the items occurring more than once. */
  lemma DictKeysDuplicated(items: seq<string>, d: Dict<seq<nat>>)
    requires DuplicatesOf(items, d)
    ensures forall x :: x in Keys(d) <==> Count(items, x) > 1
  {
    forall x ensures x in Keys(d) <==> Count(items, x) > 1 {
      assert Get(d, x).Some? <==> x in Keys(d);
    }
  }

  /**
    The outer loop over the dict: the entries at each duplicated item's
    positions get the error naming that item.
  */
  method LogDuplicates(entries: seq<BibEntry>, items: seq<string>, d: Dict<seq<nat>>, byTitle: bool)
    requires Distinct(entries) && |items| == |entries|
    requires DuplicatesOf(items, d) && DistinctKeys(d)
    modifies entries
    ensures forall i :: 0 <= i < |entries| ==>
              entries[i].errors == old(entries[i].errors) + DuplicateLog(items, i, byTitle)
    ensures forall i :: 0 <= i < |entries| ==> entries[i].warnings == old(entries[i].warnings)
  {
    var ks := Keys(d);
    for p := 0 to |d|
      invariant forall i :: 0 <= i < |entries| ==>
                  entries[i].errors == old(entries[i].errors)
                                       + (if items[i] in ks[..p] then [Issue(Error, DuplicateIssue(byTitle, items[i]))] else [])
      invariant forall i :: 0 <= i < |entries| ==> entries[i].warnings == old(entries[i].warnings)
    {
      var (item, positions) := d[p];
      DictEntryPositions(items, d, p);
      AddToAll(entries, positions, Issue(Error, DuplicateIssue(byTitle, item)));
    }
    DictKeysDuplicated(items, d);
    assert ks[..|d|] == ks;
    assert forall i :: 0 <= i < |entries| ==> (items[i] in ks <==> Count(items, items[i]) > 1);
  }

  /**
    The errors `check_redundant` gives entry `i`: one naming its citation key
    when another entry shares it, then one naming its lower-cased title when
    another entry's title is the same up to case.
  */
  function DuplicateErrors(entries: seq<BibEntry>, i: nat): (r: seq<Issue>)
    requires HasTitles(entries) && i < |entries|
    ensures forall j :: 0 <= j < |r| ==> r[j].level == Error
  {
    DuplicateLog(CitationKeys(entries), i, false) + DuplicateLog(LowerTitles(entries), i, true)
  }

  /** An entry is told its citation key is shared exactly when another entry has the same key. */
  lemma DuplicateKeyExactly(entries: seq<BibEntry>, i: nat)
    requires HasTitles(entries) && i < |entries|
    ensures Issue(Error, MultipleEntryKey(entries[i].citationKey)) in DuplicateErrors(entries, i)
            <==> exists j :: 0 <= j < |entries| && j != i && entries[j].citationKey == entries[i].citationKey
  {
    var keys := CitationKeys(entries);
    CountAboveOne(keys, i);
    if exists j :: 0 <= j < |entries| && j != i && entries[j].citationKey == entries[i].citationKey {
      var j :| 0 <= j < |entries| && j != i && entries[j].citationKey == entries[i].citationKey;
      assert keys[j] == keys[i];
    }
  }

  /**
    An entry is told its title is shared exactly when another entry's title
    is the same once both are lower-cased; the error names the lower-cased title.
  */
  lemma DuplicateTitleExactly(entries: seq<BibEntry>, i: nat)
    requires HasTitles(entries) && i < |entries|
    ensures Issue(Error, MultipleTitle(LowerTitles(entries)[i])) in DuplicateErrors(entries, i)
            <==> exists j :: 0 <= j < |entries| && j != i && LowerTitles(entries)[j] == LowerTitles(entries)[i]
  {
    CountAboveOne(LowerTitles(entries), i);
  }

  /** `check_redundant`: the citation-key errors of all entries, then the title errors. */
  method CheckRedundant(entries: seq<BibEntry>)
    requires Distinct(entries) && Checkable(entries) && HasTitles(entries)
    modifies entries
    ensures forall i :: 0 <= i < |entries| ==>
              entries[i].errors == old(entries[i].errors) + DuplicateErrors(entries, i)
    ensures forall i :: 0 <= i < |entries| ==> entries[i].warnings == old(entries[i].warnings)
  {
    var keys := CitationKeys(entries);
    var keyDuplicates := FindDuplicates(keys);
    var titles := LowerTitles(entries);
    var titleDuplicates := FindDuplicates(titles);
    LogDuplicates(entries, keys, keyDuplicates, false);
    label KeysLogged:
    LogDuplicates(entries, titles, titleDuplicates, true);
    forall i | 0 <= i < |entries|
      ensures entries[i].errors == old(entries[i].errors) + DuplicateErrors(entries, i)
    {
      var keyLog, titleLog := DuplicateLog(keys, i, false), DuplicateLog(titles, i, true);
      assert old@KeysLogged(entries[i].errors) == old(entries[i].errors) + keyLog;
      assert (old(entries[i].errors) + keyLog) + titleLog == old(entries[i].errors) + (keyLog + titleLog);
    }
  }
}

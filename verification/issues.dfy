/**
  The issue taxonomy of issue.py: a two-level severity, the fifteen issue
  variants with the data each message needs, the message of each variant, its
  type tag and its legend.
*/
module Issues {
  import opened Wrappers
  import opened Text

  /** `IssueLevel`: WARNING = (1, 'WARNING'), ERROR = (2, 'ERROR'). */
  datatype IssueLevel = Warning | Error {

    function Code(): (c: nat)
      ensures c == 1 <==> this == Warning
      ensures c == 2 <==> this == Error
    {
      if Warning? then 1 else 2
    }

    function Text(): string
    {
      if Warning? then "WARNING" else "ERROR"
    }
  }

  /**
    One constructor per `Issue*` class. The entry's `entry_type`, which two of
    the messages print, is carried by those two variants.
  */
  datatype IssueKind =
    | NotIncludedKeys(entryType: string, notIncludedKeys: seq<string>)
    | RedundantKeys(entryType: string, redundantKeys: seq<string>)
    | MultipleEntryKey(citKey: string)
    | MultipleTitle(title: string)
    | BiggerBeginPage(startPage: nat, endPage: nat)
    | OnlyOnePage(pageNum: nat)
    | WrongPageFormat(pagesStr: string)
    | TitleContainsYear(yearPubType: string, yearMatch: string)
    | TitleContainsOrdinal(ordinalPubType: string, ordinalMatch: string)
    | ArxivPaper(msg: string)
    | ArxivWithInproceddings
    | TitleCapitalization(nonCapWordsStr: string)
    | ArticleWithProceddingsOf
    | ProceedingsOfAdvancedIn(startsWithProceedings: bool, startsWithAdvanced: bool,
                              numProceeding: nat, numAdvanced: nat)
    | Abbreviation(abbrs: seq<string>)

  /** An issue as attached to an entry: its severity and its variant. */
  datatype Issue = Issue(level: IssueLevel, kind: IssueKind)

  /** What a rule appends for an optional issue: nothing, or the issue at the given level. */
  function AsLog(level: IssueLevel, k: Option<IssueKind>): (r: seq<Issue>)
    ensures |r| == (if k.Some? then 1 else 0)
    ensures forall i :: 0 <= i < |r| ==> r[i] == Issue(level, k.value)
  {
    match k
    case None => []
    case Some(kind) => [Issue(level, kind)]
  }

  /** `compare_proceeding_advanced`, fixed when the issue is built. */
  function CompareProceedingAdvanced(k: IssueKind): bool
    requires k.ProceedingsOfAdvancedIn?
  {
    k.numProceeding > k.numAdvanced
  }

  /** Python's `repr` of a list of strings made of letters, as an f-string prints it. */
  function ListRepr(items: seq<string>): string
  {
    "[" + Join(seq(|items|, i requires 0 <= i < |items| => "'" + items[i] + "'"), ", ") + "]"
  }

  /**
    The `message` property of each variant; `None` where the property fails by
    assertion (a "Proceedings of"/"Advanced in" issue whose flags contradict
    the counts).
  */
  function Message(k: IssueKind): (r: Option<string>)
    ensures !k.ProceedingsOfAdvancedIn? ==> r.Some?
  {
    match k
    case ProceedingsOfAdvancedIn(sp, sa, np, na) => ProceedingsMessage(sp, sa, np, na)
    case _ => Some(MessageText(k))
  }

  /** The message of every variant but the "Proceedings of"/"Advanced in" one, which is always defined. */
  function MessageText(k: IssueKind): string
    requires !k.ProceedingsOfAdvancedIn?
  {
    match k
    case NotIncludedKeys(t, keys) =>
      ("This " + t + " paper does not have fields: " + Join(keys, ", ") + ".")
    case RedundantKeys(t, keys) =>
      ("This " + t + " paper have redundant fields: " + Join(keys, ", ") + ".")
    case MultipleEntryKey(key) =>
      ("Multiple papers have the same citation key '" + key + "'.")
    case MultipleTitle(title) =>
      ("Multiple papers have the same title '" + title + "'.")
    case BiggerBeginPage(s, e) =>
      (BeginPageMessage(s, e))
    case OnlyOnePage(n) =>
      ("The page number contain only a begin page '" + NatToString(n) + "' without an end page.")
    case WrongPageFormat(p) =>
      ("Unrecognized page format: '" + p + "', should be like '1--20'.")
    case TitleContainsYear(pubType, m) =>
      ("Publication name at key '" + pubType + "' contains year number '" + m
           + "'. Year number should only appear in the 'year' field.")
    case TitleContainsOrdinal(pubType, m) =>
      ("Publication name at key '" + pubType + "' contains ordinal number '" + m + "'.")
    case ArxivPaper(msg) =>
      (msg)
    case ArxivWithInproceddings =>
      ("arxiv papers should use '@article', rather than '@inproceedings'")
    case TitleCapitalization(words) =>
      ("The journal/conference name is not correctly capitalized: " + words + ".")
    case ArticleWithProceddingsOf =>
      ("The journal begins with 'Proceedings of' or 'Advanced in', you may change '@article' to '@inproceddings' and change keys for this bib entry.")
    case Abbreviation(abbrs) =>
      ("The journal/conference of the paper contain abberiviations: " + ListRepr(abbrs))
  }

  /** The not-included and redundant messages quote the entry type and the joined keys. */
  lemma KeyListMessagesQuote(t: string, keys: seq<string>)
    ensures Contains(MessageText(NotIncludedKeys(t, keys)), t)
    ensures Contains(MessageText(NotIncludedKeys(t, keys)), Join(keys, ", "))
    ensures Contains(MessageText(RedundantKeys(t, keys)), t)
    ensures Contains(MessageText(RedundantKeys(t, keys)), Join(keys, ", "))
  {
    var m1, m2 := MessageText(NotIncludedKeys(t, keys)), MessageText(RedundantKeys(t, keys));
    var l1, l2, tail := " paper does not have fields: ", " paper have redundant fields: ", Join(keys, ", ");
    ContainsPart(m1, "This ", t, l1 + tail + ".");
    ContainsPart(m1, "This " + t + l1, tail, ".");
    ContainsPart(m2, "This ", t, l2 + tail + ".");
    ContainsPart(m2, "This " + t + l2, tail, ".");
  }

  /** The shared-key and shared-title messages quote the key and the title. */
  lemma SharedMessagesQuote(key: string, title: string)
    ensures Contains(MessageText(MultipleEntryKey(key)), key)
    ensures Contains(MessageText(MultipleTitle(title)), title)
  {
    ContainsPart(MessageText(MultipleEntryKey(key)), "Multiple papers have the same citation key '", key, "'.");
    ContainsPart(MessageText(MultipleTitle(title)), "Multiple papers have the same title '", title, "'.");
  }

  /** The begin-page message quotes both page numbers. */
  lemma BeginPageMessageQuote(s: nat, e: nat)
    ensures Contains(MessageText(BiggerBeginPage(s, e)), NatToString(s))
    ensures Contains(MessageText(BiggerBeginPage(s, e)), NatToString(e))
  {
    var p, q, z := "The begin page '", "' is bigger than the end page '", "'.";
    var a, b := NatToString(s), NatToString(e);
    var m := BeginPageMessage(s, e);
    assert MessageText(BiggerBeginPage(s, e)) == m;
    var rest := m[|p|..];
    assert rest == a + (q + (b + z));
    assert m[|p|..|p| + |a|] == rest[..|a|] == a;
    assert OccursAt(m, a, |p|);
    var i := |p| + |a| + |q|;
    assert rest[|a| + |q|..] == b + z;
    assert m[i..i + |b|] == b;
    assert OccursAt(m, b, i);
  }

  /** The lone-page and page-format messages quote the page number and the page string. */
  lemma PageMessagesQuote(n: nat, pages: string)
    ensures Contains(MessageText(OnlyOnePage(n)), NatToString(n))
    ensures Contains(MessageText(WrongPageFormat(pages)), pages)
  {
    ContainsPart(MessageText(OnlyOnePage(n)), "The page number contain only a begin page '", NatToString(n), "' without an end page.");
    ContainsPart(MessageText(WrongPageFormat(pages)), "Unrecognized page format: '", pages, "', should be like '1--20'.");
  }

  /** The year and ordinal messages quote the publication type and the matched text. */
  lemma NumberMessagesQuote(pubType: string, m: string)
    ensures Contains(MessageText(TitleContainsYear(pubType, m)), pubType)
    ensures Contains(MessageText(TitleContainsYear(pubType, m)), m)
    ensures Contains(MessageText(TitleContainsOrdinal(pubType, m)), pubType)
    ensures Contains(MessageText(TitleContainsOrdinal(pubType, m)), m)
  {
    YearMessageQuote(pubType, m);
    OrdinalMessageQuote(pubType, m);
  }

  lemma YearMessageQuote(pubType: string, m: string)
    ensures Contains(MessageText(TitleContainsYear(pubType, m)), pubType)
    ensures Contains(MessageText(TitleContainsYear(pubType, m)), m)
  {
    var p, q, z := "Publication name at key '", "' contains year number '", "'. Year number should only appear in the 'year' field.";
    var msg := MessageText(TitleContainsYear(pubType, m));
    ContainsPart(msg, p, pubType, q + m + z);
    ContainsPart(msg, p + pubType + q, m, z);
  }

  lemma OrdinalMessageQuote(pubType: string, m: string)
    ensures Contains(MessageText(TitleContainsOrdinal(pubType, m)), pubType)
    ensures Contains(MessageText(TitleContainsOrdinal(pubType, m)), m)
  {
    var p, q, z := "Publication name at key '", "' contains ordinal number '", "'.";
    var msg := MessageText(TitleContainsOrdinal(pubType, m));
    ContainsPart(msg, p, pubType, q + m + z);
    ContainsPart(msg, p + pubType + q, m, z);
  }

  /** The capitalisation message quotes the badly capitalised words. */
  lemma CapitalizationMessageQuote(words: string)
    ensures Contains(MessageText(TitleCapitalization(words)), words)
  {
    ContainsPart(MessageText(TitleCapitalization(words)), "The journal/conference name is not correctly capitalized: ", words, ".");
  }

  /** The abbreviation message ends with the list of abbreviations. */
  lemma AbbreviationMessageQuote(abbrs: seq<string>)
    ensures EndsWith(MessageText(Abbreviation(abbrs)), ListRepr(abbrs))
  {
    var p, l := "The journal/conference of the paper contain abberiviations: ", ListRepr(abbrs);
    var m := MessageText(Abbreviation(abbrs));
    assert m == p + l;
    assert m[|m| - |l|..] == l;
  }

  /** An arXiv message is the search result itself. */
  lemma ArxivMessageIsSearchResult(msg: string)
    ensures Message(ArxivPaper(msg)) == Some(msg)
  {
  }

  /** The message of a begin page bigger than the end page. */
  function BeginPageMessage(s: nat, e: nat): string
  {
    "The begin page '" + (NatToString(s) + ("' is bigger than the end page '" + (NatToString(e) + "'.")))
  }

  /** The message of a "Proceedings of"/"Advanced in" inconsistency, when the flags agree with the counts. */
  function ProceedingsMessage(sp: bool, sa: bool, np: nat, na: nat): Option<string>
  {
    var compare := np > na;
    if compare && sa then
      Some("The booktitle should start with 'Proceedings of' (" + NatToString(np)
           + " papers start with 'Proceedings of' and " + NatToString(na)
           + " papers start with 'Advanced in'.)")
    else if !compare && sp then
      Some("The booktitle should start with 'Advanced in' (" + NatToString(na)
           + " papers start with 'Advanced in' and " + NatToString(np)
           + " papers start with 'Proceedings of'.)")
    else if !sp && !sa then
      Some("The booktitle of this conference paper should start with 'Proceedings of' or 'Advanced in'.")
    else None
  }

  /** The message property is undefined exactly where the source's assertion fails. */
  lemma MessageUndefinedExactly(k: IssueKind)
    ensures Message(k).None? <==>
              && k.ProceedingsOfAdvancedIn?
              && !(CompareProceedingAdvanced(k) && k.startsWithAdvanced)
              && !(!CompareProceedingAdvanced(k) && k.startsWithProceedings)
              && (k.startsWithProceedings || k.startsWithAdvanced)
  {
  }

  /** The position of a variant in the class list of issue.py. */
  function VariantIndex(k: IssueKind): (i: nat)
    ensures i < 15
  {
    match k
    case NotIncludedKeys(_, _) => 0
    case RedundantKeys(_, _) => 1
    case MultipleEntryKey(_) => 2
    case MultipleTitle(_) => 3
    case BiggerBeginPage(_, _) => 4
    case OnlyOnePage(_) => 5
    case WrongPageFormat(_) => 6
    case TitleContainsYear(_, _) => 7
    case TitleContainsOrdinal(_, _) => 8
    case ArxivPaper(_) => 9
    case ArxivWithInproceddings => 10
    case TitleCapitalization(_) => 11
    case ArticleWithProceddingsOf => 12
    case ProceedingsOfAdvancedIn(_, _, _, _) => 13
    case Abbreviation(_) => 14
  }

  /** The class name of each variant, by position. */
  function ClassName(i: nat): string
  {
    match i
    case 0 => "IssueNotIncludedKeys"
    case 1 => "IssueRedundantKeys"
    case 2 => "IssueMultipleEntryKey"
    case 3 => "IssueMultipleTitle"
    case 4 => "IssueBiggerBeginPage"
    case 5 => "IssueOnlyOnePage"
    case 6 => "IssueWrongPageFormat"
    case 7 => "IssueTitleContainsYear"
    case 8 => "IssueTitleContainsOrdinal"
    case 9 => "IssueArxivPaper"
    case 10 => "IssueArxivWithInproceddings"
    case 11 => "IssueTitleCapitalization"
    case 12 => "IssueArticleWithProceddingsOf"
    case 13 => "IssueProceedingsOfAdvancedIn"
    case _ => "IssueAbbreviation"
  }

  /** `get_issue_type()`: the name of the issue's class. */
  function TypeName(k: IssueKind): (r: string)
    ensures r in IssueTypeNames
  {
    ClassName(VariantIndex(k))
  }

  /** The fifteen class names the legend table knows. */
  const IssueTypeNames: set<string> := {
    "IssueNotIncludedKeys", "IssueRedundantKeys", "IssueMultipleEntryKey",
    "IssueMultipleTitle", "IssueBiggerBeginPage", "IssueOnlyOnePage",
    "IssueWrongPageFormat", "IssueTitleContainsYear", "IssueTitleContainsOrdinal",
    "IssueArxivPaper", "IssueArxivWithInproceddings", "IssueTitleCapitalization",
    "IssueArticleWithProceddingsOf", "IssueProceedingsOfAdvancedIn", "IssueAbbreviation"
  }

  /**
    `get_issue_legend(name)`: the legend of a class name; `None` where the
    Python function fails by assertion. It is defined on the class names and
    nowhere else.
  */
  function IssueLegend(name: string): (r: Option<string>)
    ensures r.Some? <==> name in IssueTypeNames
  {
    if name == "IssueNotIncludedKeys" then Some("Not included keys")
    else if name == "IssueRedundantKeys" then Some("Include redundant keys")
    else if name == "IssueMultipleEntryKey" then Some("Mulitple entry key")
    else if name == "IssueMultipleTitle" then Some("Mulitple paper title")
    else if name == "IssueBiggerBeginPage" then Some("Bigger begin page")
    else if name == "IssueOnlyOnePage" then Some("Only one page")
    else if name == "IssueWrongPageFormat" then Some("Wrong page format")
    else if name == "IssueTitleContainsYear" then Some("Title contains year")
    else if name == "IssueTitleContainsOrdinal" then Some("Title contains ordinal number")
    else if name == "IssueArxivPaper" then Some("Arxiv papers")
    else if name == "IssueArxivWithInproceddings" then Some("Arxiv as conf paper")
    else if name == "IssueTitleCapitalization" then Some("Title not capitalized")
    else if name == "IssueArticleWithProceddingsOf" then Some("Acticle has \"Proceedings of\"")
    else if name == "IssueProceedingsOfAdvancedIn" then Some("Inconsistency of \"Proceedings of\" and \"Advanced in\"")
    else if name == "IssueAbbreviation" then Some("Journal/Booktitle contains abbreviations")
    else None
  }

  /** The legend of each variant, by position. */
  function LegendRow(i: nat): string
  {
    match i
    case 0 => "Not included keys"
    case 1 => "Include redundant keys"
    case 2 => "Mulitple entry key"
    case 3 => "Mulitple paper title"
    case 4 => "Bigger begin page"
    case 5 => "Only one page"
    case 6 => "Wrong page format"
    case 7 => "Title contains year"
    case 8 => "Title contains ordinal number"
    case 9 => "Arxiv papers"
    case 10 => "Arxiv as conf paper"
    case 11 => "Title not capitalized"
    case 12 => "Acticle has \"Proceedings of\""
    case 13 => "Inconsistency of \"Proceedings of\" and \"Advanced in\""
    case _ => "Journal/Booktitle contains abbreviations"
  }

  /** The `legend` attribute an issue gets when it is built. */
  function Legend(k: IssueKind): string
  {
    LegendRow(VariantIndex(k))
  }

  /** `legend = get_issue_legend(get_issue_type())`: the class name is in the table, and its row is the legend. */
  lemma LegendFromTable(k: IssueKind)
    ensures TypeName(k) in IssueTypeNames
    ensures IssueLegend(TypeName(k)) == Some(Legend(k))
  {
    if VariantIndex(k) < 8 {
      TableRowsLow(VariantIndex(k));
    } else {
      TableRowsHigh(VariantIndex(k));
    }
  }

  /** The first eight rows of the table, looked up by class name. */
  lemma TableRowsLow(i: nat)
    requires i < 8
    ensures IssueLegend(ClassName(i)) == Some(LegendRow(i))
  {
  }

  /** The last seven rows of the table, looked up by class name. */
  lemma TableRowsHigh(i: nat)
    requires 8 <= i < 15
    ensures IssueLegend(ClassName(i)) == Some(LegendRow(i))
  {
  }

  /** The length of each legend. */
  function LegendLength(i: nat): nat
  {
    match i
    case 0 => 17 case 1 => 22 case 2 => 18 case 3 => 20 case 4 => 17
    case 5 => 13 case 6 => 17 case 7 => 19 case 8 => 29 case 9 => 12
    case 10 => 19 case 11 => 21 case 12 => 28 case 13 => 51 case _ => 40
  }

  /** The first letter of each legend; with the length it tells the legends apart. */
  function LegendInitial(i: nat): char
  {
    match i
    case 0 => 'N' case 1 => 'I' case 2 => 'M' case 3 => 'M' case 4 => 'B'
    case 5 => 'O' case 6 => 'W' case 7 => 'T' case 8 => 'T' case 9 => 'A'
    case 10 => 'A' case 11 => 'T' case 12 => 'A' case 13 => 'I' case _ => 'J'
  }

  lemma LegendHasShape(i: nat)
    requires i < 15
    ensures |LegendRow(i)| == LegendLength(i)
    ensures i != 13 ==> LegendRow(i)[0] == LegendInitial(i)
  {
  }

  /** Two rows of the legend table differ in length or in their first letter. */
  lemma RowsDistinct(i: nat, j: nat)
    requires i < 15 && j < 15 && i != j
    ensures LegendRow(i) != LegendRow(j)
  {
    LegendHasShape(i);
    LegendHasShape(j);
    assert LegendLength(i) != LegendLength(j) || (i != 13 && j != 13 && LegendInitial(i) != LegendInitial(j));
  }

  /**
    Each class has its own legend: two issues share a legend exactly when
    they are of the same class, and the same holds for their class names.
  */
  lemma LegendsDistinct(k1: IssueKind, k2: IssueKind)
    ensures Legend(k1) == Legend(k2) <==> VariantIndex(k1) == VariantIndex(k2)
    ensures TypeName(k1) == TypeName(k2) <==> VariantIndex(k1) == VariantIndex(k2)
  {
    if VariantIndex(k1) != VariantIndex(k2) {
      RowsDistinct(VariantIndex(k1), VariantIndex(k2));
      LegendFromTable(k1);
      LegendFromTable(k2);
    }
  }

  /** The not-included and redundant messages end with the keys joined by ", " and a full stop. */
  lemma KeyListMessages(t: string, keys: seq<string>)
    ensures EndsWith(Message(NotIncludedKeys(t, keys)).value, Join(keys, ", ") + ".")
    ensures EndsWith(Message(RedundantKeys(t, keys)).value, Join(keys, ", ") + ".")
  {
    var tail := Join(keys, ", ") + ".";
    var m1 := "This " + t + " paper does not have fields: ";
    var m2 := "This " + t + " paper have redundant fields: ";
    assert Message(NotIncludedKeys(t, keys)).value == m1 + tail;
    assert Message(RedundantKeys(t, keys)).value == m2 + tail;
    assert (m1 + tail)[|m1 + tail| - |tail|..] == tail;
    assert (m2 + tail)[|m2 + tail| - |tail|..] == tail;
  }

  lemma {:induction false} DigitsThenNonDigit(a: string, x: string, c: string, y: string)
    requires AllDigits(a) && AllDigits(c)
    requires |x| > 0 && !IsDigit(x[0]) && |y| > 0 && !IsDigit(y[0])
    requires a + x == c + y
    ensures a == c && x == y
  {
    assert (a + x)[|a|] == x[0];
    assert (c + y)[|c|] == y[0];
    assert forall k :: 0 <= k < |a| ==> (a + x)[k] == a[k];
    assert forall k :: 0 <= k < |c| ==> (c + y)[k] == c[k];
    assert |a| == |c|;
    assert a == (a + x)[..|a|];
    assert c == (c + y)[..|c|];
    assert x == (a + x)[|a|..];
    assert y == (c + y)[|c|..];
  }

  /**
    The begin-page message names the begin page and then the end page: two
    such messages are equal only for the same pair of pages.
  */
  lemma BiggerBeginPageMessageNamesPages(s1: nat, e1: nat, s2: nat, e2: nat)
    requires BeginPageMessage(s1, e1) == BeginPageMessage(s2, e2)
    ensures s1 == s2 && e1 == e2
  {
    var p := "The begin page '";
    var q := "' is bigger than the end page '";
    var z := "'.";
    var a, c := NatToString(s1), NatToString(s2);
    var b, d := NatToString(e1), NatToString(e2);
    var m1, m2 := BeginPageMessage(s1, e1), BeginPageMessage(s2, e2);
    assert a + (q + (b + z)) == m1[|p|..];
    assert c + (q + (d + z)) == m2[|p|..];
    DigitsThenNonDigit(a, q + (b + z), c, q + (d + z));
    NatToStringInjective(s1, s2);
    assert b + z == (q + (b + z))[|q|..];
    assert d + z == (q + (d + z))[|q|..];
    DigitsThenNonDigit(b, z, d, z);
    NatToStringInjective(e1, e2);
  }
}

# LatexBibChecker core in Dafny

LatexBibChecker lints the bibliography of a LaTeX paper. It reads a `.bib`
file and turns each `@article`, `@inproceedings` and `@book` entry into an
entry object. The object holds:

- the entry type;
- the citation key;
- an insertion-ordered field dictionary;
- a warning log and an error log.

The `check` pipeline then drops the books. It runs eight rules, in a fixed
order, over the Articles and InProceedings that remain. Each rule appends
issues from a closed taxonomy to the logs of the entries it inspects. Each
issue carries:

- a severity (WARNING = 1, ERROR = 2);
- a variant that holds the data its message prints;
- a type tag;
- a legend.

This project models that core. Each module follows one part of the source.

- `parser.dfy` models `BibParser.parse_file`, starting from the text of the file. It covers:
  - comment removal;
  - line-ending normalisation;
  - the entry and field regular expressions, as deterministic scanners;
  - value unwrapping;
  - the choice of entry class.

  It is proved against a value-level specification, `ParseSpec`, and
  returns fresh, distinct entry objects.
- `entries.dfy` models `BibEntry` and its subclasses. They become one class with a `Kind` tag. Its two logs are mutable fields that only grow. The other fields are constants.
- `must_keys.dfy`, `duplicates.dfy`, `pages.dfy`, `year_in_pub.dfy`, `arxiv.dfy`, `capitalization.dfy`, `proceedings.dfy` and `abbreviations.dfy` model the eight rules. Each rule has three parts:
  - a specification function for what one entry gets;
  - lemmas that state what the rule promises;
  - a method over the entry list.

  The method changes only the logs, and each log becomes its old value
  followed by what the specification function gives.
- `pipeline.dfy` models `check`. It keeps the Articles and InProceedings in order and runs the eight rules. Each kept entry's logs become the concatenation of what the eight rules append, in the order they run.
- `issues.dfy` models `issue.py`: the levels, the fifteen variants, their messages, their type names and their legends.
- `text.dfy` and `dicts.dfy` hold the Python string and dictionary operations the rest uses, on ASCII text.

Where the documented behaviour of the checker and its code differ, the model follows the code:

- A tie between the "Proceedings of" and "Advanced in" counts makes "Advanced in" the expected phrasing. The comparison is a strict `num_proceeding > num_advanced` (check_bib.py:374, 385-388).
- An InProceedings may carry `volume` and `number` without a redundant-field error. Both kinds allow the selected keys (check_bib.py:73-75).
- There are fifteen issue variants, not sixteen.
- Entries of any type other than article, inproceedings and book are dropped by the parser (main.py:77-79). `Others` is never built.
- `check` returns the filtered list (check_bib.py:441-463), not the original one. Its length assertion compares against that filtered list.
- A page string that is empty after stripping is reported as a wrong page format, like any other string that is neither a range nor a number.
- Entries carry no line numbers, because the parser records none.
- check_bib.py hands plain message strings to `add_warnings` and `add_errors`. Their assertion reads `issue_level.code` of the argument, which a string does not have. The model passes the issue.py variant that carries the same data, at the level the rule intends. Its text is issue.py's. check_bib.py imports `Issue` from a module `error_warning`; that module is not part of this model, and issue.py stands in for it.

## Model

| member | source | states |
|---|---|---|
| Issues.IssueLevel.Code | issue.py:6-12 | the code is 1 exactly for WARNING and 2 exactly for ERROR |
| Issues.AsLog | check_bib.py:64-67 | a rule appends nothing for an absent message and exactly one issue, at the given level, for a present one |
| Issues.Message | issue.py:21-179 | the message of every issue but the "Proceedings of"/"Advanced in" one is defined |
| Issues.KeyListMessagesQuote | issue.py:35-46 | the not-included and redundant-field messages quote the entry type and the keys joined by ", " |
| Issues.SharedMessagesQuote | issue.py:53-64 | the shared-key and shared-title messages quote the key and the title |
| Issues.BeginPageMessageQuote | issue.py:72-74 | the begin-page message quotes both page numbers |
| Issues.PageMessagesQuote | issue.py:81-92 | the one-page message quotes the page number and the page-format message quotes the page string |
| Issues.NumberMessagesQuote | issue.py:100-112 | the year and ordinal messages quote the publication type and the matched text |
| Issues.ArxivMessageIsSearchResult | issue.py:119-121 | an arXiv message is the search result itself |
| Issues.CapitalizationMessageQuote | issue.py:136-138 | the capitalisation message quotes the badly capitalised words |
| Issues.AbbreviationMessageQuote | issue.py:176-179 | the abbreviation message ends with the list of abbreviations |
| Issues.TypeName | issue.py:24-25 | every issue's type name is one of the fifteen class names |
| Issues.MessageUndefinedExactly | issue.py:157-169 | the message is undefined (the `assert False` branch) exactly for a "Proceedings of"/"Advanced in" issue whose flags agree with neither branch, while one of its flags is set |
| Issues.IssueLegend | issue.py:181-215 | the legend lookup succeeds exactly on the fifteen class names and fails on every other name |
| Issues.LegendFromTable | issue.py:18 | every issue's class name is in the legend table, and its legend is that table row |
| Issues.LegendsDistinct | issue.py:181-215 | two issues share a legend exactly when they are of the same class, and likewise share a type name (issue.py:24-25) |
| Issues.KeyListMessages | issue.py:35-46 | the not-included and redundant-field messages end with the keys joined by ", " and a full stop |
| Issues.BiggerBeginPageMessageNamesPages | issue.py:72-74 | the begin-page message determines both pages: equal messages mean equal begin and end pages |
| Text.Strip | check_bib.py:124 | `strip()` removes exactly the leading and trailing whitespace and leaves a result that neither starts nor ends with whitespace |
| Text.StripUnspaced | check_bib.py:124 | `strip()` leaves a text that neither starts nor ends with whitespace unchanged |
| Text.SplitWords | check_bib.py:286 | `split()` returns no words exactly when the text is all whitespace |
| Text.SplitWordsKeepsText | check_bib.py:286 | the words `split()` returns, laid end to end, are the text with its whitespace removed |
| Text.NonSpaceCharsAppend | check_bib.py:286 | removing whitespace from two texts laid end to end removes it from each |
| Text.NonSpaceCharsOfSpace | check_bib.py:286 | removing whitespace from whitespace leaves nothing |
| Text.NonSpaceCharsOfWord | check_bib.py:286 | removing whitespace from a word leaves the word |
| Text.LeadingSpaceDropped | check_bib.py:286 | leading whitespace contributes no characters to the words |
| Text.FirstWordKept | check_bib.py:286 | the first word contributes all its characters |
| Text.ParseInt | check_bib.py:230 | `int()` succeeds only on a text that is not blank once stripped, and gives a negative number only when the stripped text starts with a minus sign |
| Text.RemoveUnderscoresOfDigits | check_bib.py:230 | a run of digits has no underscores to remove |
| Text.ParseIntNatToString | check_bib.py:230 | `int(str(n))` is `n` for every natural number |
| Text.ParseIntNegated | check_bib.py:230 | `int("-" + str(n))` is `-n` for every natural number |
| Text.ParseIntOfDigits | check_bib.py:230 | `int()` reads any non-empty run of decimal digits as its value |
| Text.ParseIntOfNegatedDigits | check_bib.py:230 | `int()` reads a minus sign followed by a run of decimal digits as the negated value |
| Text.SplitWordsAreWords | check_bib.py:286 | every piece `split()` returns is non-empty and has no whitespace |
| Text.CountAboveOne | check_bib.py:91-92 | an item counts more than once exactly when another position holds it |
| Dicts.Put | main.py:68 | after `d[k] = v`, `k` maps to `v` and every other key keeps its value; an existing key keeps its place and a new key is appended |
| Dicts.PutDistinct | main.py:68 | assigning a key never creates a repeated key |
| Dicts.Get | check_bib.py:97 | `get` finds a value exactly when the key is among the keys |
| Entries.EntryTypeOf | bib_read.py:56-158 | Article, InProceedings and Book fix their type name as "article", "inproceedings" and "book"; Others keeps the given type |
| Entries.FirstField | bib_read.py:27-30 | the lookup finds the first field in insertion order whose lower-cased name matches, or reports that none does |
| Entries.BibEntry.constructor | bib_read.py:7-13 | an entry holds the given key and fields and starts with empty warning and error logs |
| Entries.BibEntry.GetField | bib_read.py:24-30 | the value of the first field whose lower-cased name equals the lower-cased query; the default when there is none |
| Entries.BibEntry.Pub | bib_read.py:50-106 | the publication name is the journal of an Article, the booktitle of an InProceedings, and absent otherwise |
| Entries.BibEntry.PubType | bib_read.py:50-106 | the publication key is "article" for an Article, "booktitle" for an InProceedings, and absent otherwise |
| Entries.BibEntry.AddWarning | bib_read.py:36-38 | requires the level code 1; appends exactly that warning and keeps every logged warning at level WARNING |
| Entries.BibEntry.AddError | bib_read.py:40-42 | requires the level code 2; appends exactly that error and keeps every logged error at level ERROR |
| Entries.BibEntry.AddWarningIf | check_bib.py:64-65 | the warning log grows by the message when there is one and is unchanged otherwise |
| Entries.BibEntry.AddErrorIf | check_bib.py:66-67 | the error log grows by the message when there is one and is unchanged otherwise |
| Entries.BibEntry.ToStringLines | bib_read.py:15-22 | with single-line names and values, `__str__` splits into the header line, one line per field in order, and the closing brace |
| Parser.StripComments | main.py:28 | no `%` survives comment removal |
| Parser.StripCommentsKeepsText | main.py:28 | text without `%` is kept unchanged |
| Parser.StripCommentsDropsComment | main.py:28 | a comment is removed up to its line break, and the line break is kept |
| Parser.ReplaceCR | main.py:31 | every carriage return becomes a line break, and nothing else changes |
| Parser.EnsureFinalNewline | main.py:32-33 | the text ends with a line break afterwards |
| Parser.NormalizedText | main.py:31-33 | normalised text has no carriage return and ends with a line break |
| Parser.NormalizeFixesNormalized | main.py:31-33 | normalising text that is already normalised changes nothing |
| Parser.ReplaceCRLFWithoutCR | main.py:31 | the CRLF replacement leaves text without carriage returns unchanged |
| Parser.BodyEnd | main.py:38-39 | the lazy body stops at the first position where a look-ahead alternative holds, and at no earlier one |
| Parser.MatchEntryAt | main.py:36-41 | a match starts at `@`, has a non-empty type of word characters and a non-empty comma-free key, and ends after its start |
| Parser.EntryMatches | main.py:52 | every match found has a non-empty type and a comma-free key |
| Parser.BraceEnd | main.py:46 | a braced value that is found ends at a closing brace after its start |
| Parser.ClosesAtShift | main.py:46 | whether a value closes from a position depends only on how its first character changes the brace depth and on whether it closes from the next position |
| Parser.BraceEndExactly | main.py:46 | the value ends exactly where the brace depth, counted from the opening brace, first returns to zero while staying between one and three before; no end is found when the depth never returns to zero or would reach four |
| Parser.ValueEnd | main.py:46 | a value found is braced, quoted or a run of digits |
| Parser.MatchFieldAt | main.py:44-48 | a field match has a non-empty key of word characters and a well-formed value |
| Parser.FieldMatches | main.py:59 | every field match found has a key of word characters and a well-formed value |
| Parser.RemoveNewlines | main.py:61 | no line break is left |
| Parser.RemoveNewlinesAppend | main.py:61 | line-break removal works piece by piece over a concatenation |
| Parser.Unwrap | main.py:63-66 | a value that starts with `{` and ends with `}`, or starts and ends with `"`, always changes and loses exactly its first and last character (a lone `"` becomes empty); any other value is kept as it is |
| Parser.UnwrapPair | main.py:63-66 | a value between a matching pair of braces or quotes loses exactly that pair |
| Parser.FieldName | main.py:60 | a stored field name is lower-case |
| Parser.FieldValue | main.py:61-66 | a stored value holds no line break |
| Parser.UnwrapValue | main.py:61-66 | a run of digits is stored as it is; a braced or quoted value is stored without its outer pair and without line breaks |
| Parser.UnwrapWrapped | main.py:63-66 | a braced or quoted value without line breaks loses exactly its outer pair |
| Parser.RemoveNewlinesInside | main.py:61 | line breaks are removed only inside a value whose ends are not line breaks |
| Parser.FieldsWellFormed | main.py:57-68 | the field dictionary has no repeated name, every name is lower-case, and no value spans lines |
| Parser.FieldsKeepLast | main.py:68 | a repeated field name keeps the value of its last occurrence |
| Parser.FieldsAbsent | main.py:59-68 | a name no field match carries is absent from the dictionary |
| Parser.KindOf | main.py:71-79 | "article", "inproceedings" and "book" choose their classes, every other type is dropped, and `Others` is never chosen |
| Parser.ParsedOf | main.py:53-79 | a match yields an entry exactly when its lower-cased type is one of the three kept types, with that kind and that type |
| Parser.ParsedOfGood | main.py:53-68 | a parsed entry has a comma-free key without surrounding whitespace and a well-formed field dictionary |
| Parser.StrippedKeyGood | main.py:54 | a stripped comma-free key stays comma-free and has no surrounding whitespace |
| Parser.Records | main.py:50-79 | at most one entry per match |
| Parser.RecordsAppend | main.py:52-79 | entries come out in the order of the text: two stretches of matches give concatenated entry lists |
| Parser.RecordsOfOne | main.py:71-79 | a match of a dropped type contributes nothing, and any other match contributes its one entry |
| Parser.MatchesCommaFree | main.py:37 | no matched citation key holds a comma |
| Parser.RecordsGood | main.py:52-79 | every entry built from comma-free matches is well formed |
| Parser.ParseSpecGood | main.py:14-81 | every entry `parse_file` returns is well formed |
| Parser.BuildFields | main.py:57-68 | the field loop builds exactly the dictionary of the field matches, in order |
| Parser.ParseEntry | main.py:53-79 | the loop body yields exactly the entry specified for the match |
| Parser.ScanEntries | main.py:52-79 | the entry loop yields exactly the specified entries, in order |
| Parser.NewEntries | main.py:71-76 | one fresh entry object per parsed entry, in order, each with its kind, type, key and fields and empty logs, all distinct |
| Parser.ParseFile | main.py:14-81 | `parse_file` returns one fresh, distinct entry object with empty logs for each entry of the specification, in order |
| MustKeys.WithoutMembers | check_bib.py:31-42 | a key is listed exactly when it is required and absent |
| MustKeys.FindNotIncludedKeys | check_bib.py:31-42 | the loop lists the missing must-fields, in the order they are required |
| MustKeys.FindRedundantKeys | check_bib.py:17-29 | the loop lists the entry's fields outside the allowed ones, in field order |
| MustKeys.MustKeysWarnings | check_bib.py:44-67 | the rule gives an entry at most one warning |
| MustKeys.MustKeysErrors | check_bib.py:44-84 | the rule gives an entry at most two errors, all at level ERROR |
| MustKeys.NotIncludedListsMissing | check_bib.py:31-42 | there is no issue exactly when every must-field is present; an issue lists exactly the missing ones and names the entry type |
| MustKeys.RedundantListsExtra | check_bib.py:17-29 | there is no issue exactly when every field is allowed; an issue lists exactly the extra fields |
| MustKeys.ArticleSelectedWarning | check_bib.py:47-56 | an Article whose journal names arXiv gets no volume/number warning; any other Article lacking either gets exactly one |
| MustKeys.CompleteEntryNoErrors | check_bib.py:44-84 | an entry with every required field and nothing beyond the required and selected fields gets no error |
| MustKeys.FindMissing | check_bib.py:46-62 | the missing-field branch chooses the specified warning and error for every kind |
| MustKeys.FindRedundant | check_bib.py:71-79 | the redundant-field branch chooses the specified error for every kind |
| MustKeys.CheckMustKeysOf | check_bib.py:44-84 | one entry's logs grow by exactly its missing-field and redundant-field issues |
| MustKeys.CheckMustKeys | check_bib.py:11-86 | every entry's logs grow by exactly its must-key issues, and nothing else changes |
| Duplicates.CitationKeys | check_bib.py:102 | the list holds the citation key of each entry, position by position |
| Duplicates.LowerTitles | check_bib.py:106 | the list holds the lower-cased title of each entry, position by position |
| Duplicates.PositionsExactly | check_bib.py:95-97 | the positions listed for an item are exactly where it occurs, ascending, one per occurrence |
| Duplicates.DuplicatesStep | check_bib.py:95-97 | one turn of the loop adds the position to its item's list exactly when the item is duplicated |
| Duplicates.FindDuplicates | check_bib.py:90-99 | the dictionary maps exactly the items occurring more than once to all their positions, ascending, and its keys are in order of first occurrence in the list |
| Duplicates.FirstIndexFrom | check_bib.py:95-97 | the first position at or after the start holding the item, or the length of the list when none does |
| Duplicates.NewKeyFirstSeen | check_bib.py:95-97 | a duplicated item that is not yet a key when the loop reaches it occurs there for the first time |
| Duplicates.FirstIndexAt | check_bib.py:95-97 | an item at a position and nowhere before first occurs there |
| Duplicates.AppendKeepsOrder | check_bib.py:97 | appending a key first seen at the current position keeps the keys in order of first occurrence |
| Duplicates.OrderStep | check_bib.py:95-97 | each turn of the loop keeps the keys in order of first occurrence, all seen before the next position |
| Duplicates.AddToAll | check_bib.py:111-112 | every listed entry, and no other, gets the error once; warnings are unchanged |
| Duplicates.DictEntryPositions | check_bib.py:94-97 | each dictionary entry's positions are ascending, in range, and exactly those of its item |
| Duplicates.DictKeysDuplicated | check_bib.py:91-92 | the dictionary's keys are exactly the items occurring more than once |
| Duplicates.LogDuplicates | check_bib.py:109-117 | each entry whose item is duplicated gets one error naming that item; no other entry changes |
| Duplicates.DuplicateErrors | check_bib.py:101-117 | every duplicate issue is at level ERROR |
| Duplicates.DuplicateKeyExactly | check_bib.py:101-112 | an entry gets the shared-key error exactly when another entry has the same citation key |
| Duplicates.DuplicateTitleExactly | check_bib.py:105-117 | an entry gets the shared-title error, naming the lower-cased title, exactly when another title is equal up to case |
| Duplicates.CheckRedundant | check_bib.py:89-119 | every entry's errors grow by its key error and then its title error; warnings are unchanged |
| Pages.MatchRangeExactly | check_bib.py:127-130 | a string shaped as digits, one or two dashes and digits is matched, with those two numbers |
| Pages.MatchRangeSound | check_bib.py:127 | whatever the range scanner accepts has that shape |
| Pages.AnalyzePagesCases | check_bib.py:127-134 | a range in order raises nothing; a range out of order raises the begin-page error with both numbers |
| Pages.AnalyzePagesSingle | check_bib.py:137-139 | a bare number raises the one-page error with its value |
| Pages.DigitsAreNoRange | check_bib.py:127-137 | a string of digits alone is not a range |
| Pages.AnalyzePagesOther | check_bib.py:141-142 | anything else raises the format error, naming the stripped string |
| Pages.AnalyzePages | check_bib.py:123-142 | no issue only for a text the range pattern matches; otherwise a reversed range with the begin page above the end page, a lone page, or a format error naming the stripped text |
| Pages.PageErrors | check_bib.py:144-150 | page issues are at level ERROR |
| Pages.CheckPagesOf | check_bib.py:145-150 | one entry's errors grow by exactly its page error |
| Pages.CheckPages | check_bib.py:122-152 | every entry's errors grow by exactly its page error; warnings are unchanged |
| YearInPub.FindYear | check_bib.py:186 | the search returns the leftmost year position at or after the start, or none when there is no year |
| YearInPub.OrdinalAtSound | check_bib.py:191 | the ordinal scanner matches only the pattern's shape, with one to four digits |
| YearInPub.OrdinalAtComplete | check_bib.py:191 | wherever the pattern matches, the scanner matches the same digits |
| YearInPub.FindOrdinal | check_bib.py:191 | the search returns the leftmost ordinal, or none when there is no ordinal |
| YearInPub.YearErrorExactly | check_bib.py:186-188 | a name holding a year gets an error naming its leftmost year, four digits starting 19 or 20 |
| YearInPub.NoYearNoError | check_bib.py:186-188 | a name without a year gets no error |
| YearInPub.OrdinalWarningExactly | check_bib.py:191-193 | a name holding an ordinal gets a warning naming its leftmost ordinal, digits and suffix |
| YearInPub.NoOrdinalNoWarning | check_bib.py:191-193 | a name without an ordinal gets no warning |
| YearInPub.OrdinalWarning | check_bib.py:191-193 | an ordinal warning names the publication type and a piece of the name |
| YearInPub.YearError | check_bib.py:186-188 | a year error names the publication type and a piece of the name |
| YearInPub.AnalyzeYearInPub | check_bib.py:171-195 | an empty name raises nothing; otherwise the warning is an ordinal warning and the error a year error, each naming the publication type and a piece of the name |
| YearInPub.YearFindings | check_bib.py:197-212 | entries other than Articles and InProceedings get nothing |
| YearInPub.ArxivPubSkipped | check_bib.py:207-210 | a publication name mentioning arXiv, in any case, is never checked |
| YearInPub.CheckYearOf | check_bib.py:198-216 | one entry's logs grow by exactly its ordinal warning and year error |
| YearInPub.CheckYear | check_bib.py:156-218 | every entry's logs grow by exactly its ordinal warning and year error |
| Arxiv.ArxivOutcomes | check_bib.py:224-238 | never both a warning and an error; a preprint gets the search message, as an error exactly when its year is before last year; an Article that is not a preprint gets nothing; an InProceedings gets the wrong-type error exactly when its booktitle contains `arxiv` |
| Arxiv.ArxivFindings | check_bib.py:224-238 | a warning is the search message of an Article preprint and comes without an error; an error on an Article is the search message of a preprint, and on an InProceedings the conference-arXiv error |
| Arxiv.OldPreprintStaysOld | check_bib.py:229-233 | a preprint that is too old stays too old in every later year |
| Arxiv.CheckArxivOf | check_bib.py:225-240 | one entry's logs grow by exactly its arXiv findings |
| Arxiv.CheckArxiv | check_bib.py:221-242 | every entry's logs grow by exactly its arXiv findings |
| Capitalization.FirstAlpha | check_bib.py:299-303 | the first letter found is a letter of the word; none exactly when the word has no letter |
| Capitalization.FirstLetter | check_bib.py:299-303 | the character loop finds the specified first letter |
| Capitalization.ViolatorsExactly | check_bib.py:288-316 | a word is reported exactly when some position holds it and it breaks the rule there |
| Capitalization.FirstWordAlwaysChecked | check_bib.py:310-312 | a first word with a lower-case first letter is reported even when it is an ignored word |
| Capitalization.LaterIgnoredWordsPass | check_bib.py:313-316 | a later ignored word, or a word whose first letter is a capital or which has no letter, is never reported |
| Capitalization.FindImproperlyCapitalizedWords | check_bib.py:247-318 | the loop returns the violating words in order, or nothing when there are none |
| Capitalization.CheckCapitalizationOf | check_bib.py:321-328 | one entry's warnings grow by exactly its capitalisation warning |
| Capitalization.CheckPubCapitalization | check_bib.py:246-330 | every entry's warnings grow by exactly its capitalisation warning; errors are unchanged |
| Proceedings.CheckPubTitle | check_bib.py:349-354 | a missing name starts with neither phrase |
| Proceedings.PhrasesExclusive | check_bib.py:357-360 | no name starts with both phrases |
| Proceedings.CountWitness | check_bib.py:372-373 | an entry using a phrase makes its count positive |
| Proceedings.CountFind | check_bib.py:372-373 | a positive count has an entry using the phrase behind it |
| Proceedings.CountPositive | check_bib.py:367-373 | a count is positive exactly when some entry uses the phrase |
| Proceedings.ArticleNamedLikeConference | check_bib.py:377-381 | an Article gets the error exactly when its journal starts with either phrase, and never a warning |
| Proceedings.MajorityPhrasing | check_bib.py:382-388 | an InProceedings following the majority phrasing is left alone, and one following the minority is warned; on a tie "Advanced in" is the majority |
| Proceedings.NeitherPhrasing | check_bib.py:382-391 | an InProceedings using neither phrase is warned exactly when some entry uses one, and never gets an error |
| Proceedings.ProceedingsFindings | check_bib.py:376-391 | a warning goes only to an InProceedings while some entry uses a phrase, carrying both counts; an error goes only to an Article and is the article-named-like-conference error |
| Proceedings.WarningsHaveMessages | issue.py:157-169 | every warning the rule gives has a message: its flags never reach `assert False` |
| Proceedings.CheckPreOfConfOf | check_bib.py:376-391 | one entry's logs grow by exactly its phrasing findings under the given counts |
| Proceedings.CheckPreOfConf | check_bib.py:333-393 | every entry's logs grow by exactly its phrasing findings under the counts over the whole list |
| Abbreviations.AbbreviationAt | check_bib.py:409 | a match at a position is at least two characters long and within the text |
| Abbreviations.AbbreviationAtExactly | check_bib.py:409 | the scanner matches exactly the whole words made of letters that have two capitals in a row |
| Abbreviations.MatchesDisjoint | check_bib.py:415 | a match ends before any later match starts |
| Abbreviations.FindAllSound | check_bib.py:415 | every word `findall` returns is a match of the pattern |
| Abbreviations.FindAllComplete | check_bib.py:415 | every match of the pattern is returned by `findall` |
| Abbreviations.WithoutExcluded | check_bib.py:418 | the filter keeps exactly the words that are not excluded |
| Abbreviations.DetectConferenceAbbreviations | check_bib.py:397-423 | a result is never empty and holds only words the pattern found that are not excluded; no result means every word found is excluded |
| Abbreviations.DetectExactly | check_bib.py:397-423 | a word is reported exactly when it is a whole word of letters with two capitals in a row and not an excluded name; nothing is reported exactly when there is no such word |
| Abbreviations.CheckAbbreviationOf | check_bib.py:426-431 | one entry's warnings grow by exactly its abbreviation warning |
| Abbreviations.CheckPubAbbreviation | check_bib.py:396-433 | every entry's warnings grow by exactly its abbreviation warning; errors are unchanged |
| Pipeline.Filter | check_bib.py:441 | the kept list is no longer than the input, holds only Articles and InProceedings, and holds only entries of the input |
| Pipeline.FilterMembers | check_bib.py:441 | an entry is kept exactly when it is in the list and is an Article or an InProceedings |
| Pipeline.FilterDistinct | check_bib.py:441 | filtering keeps the entries distinct |
| Pipeline.FilterAppend | check_bib.py:441 | filtering keeps the order: it works piece by piece over a concatenation |
| Pipeline.RunFirstRules | check_bib.py:445-451 | the first four rules append the must-key, duplicate, page and year issues, in that order |
| Pipeline.RunLastRules | check_bib.py:453-459 | the last four rules append the arXiv, capitalisation, phrasing and abbreviation issues, in that order |
| Pipeline.Check | check_bib.py:439-463 | `check` returns the Articles and InProceedings in order. Each one's logs become its old logs followed by the issues of the eight rules in the order they run. Dropped entries are unchanged |

## Left out

- Reading the file (main.py:24-25), the `__main__` blocks, and the HTML report are not modelled. The model starts from the text of the file. `search_paper` of html_show.py is a function parameter, and html_show.py is not part of this model.
- The current year that `check_arxiv` takes from the clock is the parameter `todayYear`.
- Character classes are ASCII only. This covers `\d`, `\w`, `\s`, `isalpha`, `isupper`, `isdigit`, `lower()`, `strip()`, `split()` and `re.IGNORECASE`. Python also accepts non-ASCII letters, digits and spaces.
- The source's regular expressions are deterministic scanners. The lemmas tie each scanner to the pattern's shape for the page range, the ordinal and the abbreviation. The entry and field scanners are not proved equal to a backtracking matcher.
- The `entry` back-reference and the `legend` attribute of an `Issue` are not stored. The legend is the function `Legend`.
- `get_all_fields` is the `fields` constant. The per-field properties are `Field(name)`, and the Book properties are not listed one by one.
- Python's list `repr` inside the abbreviation message is written for words made of letters, which is all the pattern matches.
- Capitalization.FindImproperlyCapitalizedWords: returns the offending words without their indices, since `check_pub_captialization` only prints the words.
- Proceedings.CheckPubTitle: the `is_valid` key of its result is not modelled; nothing reads it.
- Pipeline.Check: requires the entries to be distinct objects, which `ParseFile` guarantees. A list holding one object twice is not modelled.
- Pipeline.Check: requires what the source needs not to fail on a kept entry:
  - a title, for `title.lower()` in `check_redundant`;
  - for an arXiv preprint, a title for `search_paper` and a year that `int()` accepts;
  - for an InProceedings, a booktitle, for the `in` test of `check_arxiv`.

  Inputs that make the source raise are outside the model.
- Arxiv.CheckArxiv: requires every entry to be an Article or an InProceedings, because `check_arxiv` fails by `assert False` on any other entry.
- Entries.BibEntry.AddWarning: requires the level code 1, which the source asserts. Entries.BibEntry.AddError requires the code 2 in the same way.
- Others is a constructor case of `Kind` that `parse_file` never builds, because its line is commented out (main.py:79).

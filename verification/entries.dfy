/**
  The entry model of bib_read.py: one class `BibEntry` whose type, citation
  key and fields are fixed when it is built and whose warning and error logs
  grow as the rules run. The Python subclasses `Article`, `InProceedings`,
  `Book` and `Others` only differ in their type name and in what `get_pub`
  and `get_pub_type` answer, so they are a `Kind` tag on the one class.
*/
module Entries {
  import opened Wrappers
  import opened Text
  import opened Dicts
  import opened Issues

  datatype Kind = Article | InProceedings | Book | Others

  /** The `entry_type` each subclass passes to the base constructor. */
  function EntryTypeOf(kind: Kind, givenType: string): (t: string)
    ensures kind == Article ==> t == "article"
    ensures kind == InProceedings ==> t == "inproceedings"
    ensures kind == Book ==> t == "book"
    ensures kind == Others ==> t == givenType
  {
    match kind
    case Article => "article"
    case InProceedings => "inproceedings"
    case Book => "book"
    case Others => givenType
  }

  /** No field before position `i` has the lower-cased name `name`. */
  predicate NoEarlierField(fields: Dict<string>, name: string, i: nat)
    requires i <= |fields|
  {
    forall j :: 0 <= j < i ==> Lower(fields[j].0) != name
  }

  /** The position of the first field, from `i` on, whose lower-cased name is `name`. */
  function FirstField(fields: Dict<string>, name: string, i: nat): (r: Option<nat>)
    requires i <= |fields| && NoEarlierField(fields, name, i)
    ensures r.Some? ==> && r.value < |fields| && Lower(fields[r.value].0) == name
                        && NoEarlierField(fields, name, r.value)
    ensures r.None? ==> NoEarlierField(fields, name, |fields|)
    decreases |fields| - i
  {
    if i == |fields| then None
    else if Lower(fields[i].0) == name then Some(i)
    else FirstField(fields, name, i + 1)
  }

  /** One `\tkey = {value},` line of `__str__`. */
  function FieldLine(key: string, value: string): string
  {
    "\t" + key + " = {" + value + "},"
  }

  /** No character of `s` is a line break. */
  predicate SingleLine(s: string)
  {
    '\n' !in s
  }

  class BibEntry {
    const kind: Kind
    const entryType: string
    const citationKey: string
    const fields: Dict<string>
    var warnings: seq<Issue>
    var errors: seq<Issue>

    /** Every logged warning has level WARNING and every logged error level ERROR. */
    ghost predicate Valid()
      reads this
    {
      && (forall i :: 0 <= i < |warnings| ==> warnings[i].level == Warning)
      && (forall i :: 0 <= i < |errors| ==> errors[i].level == Error)
    }

    /** `Article(key, fields)`, `InProceedings(key, fields)`, `Book(key, fields)` or `Others(type, key, fields)`. */
    constructor (kind: Kind, givenType: string, citationKey: string, fields: Dict<string>)
      ensures this.kind == kind && this.citationKey == citationKey && this.fields == fields
      ensures entryType == EntryTypeOf(kind, givenType)
      ensures NumWarnings() == 0 && NumErrors() == 0
      ensures Valid()
    {
      this.kind := kind;
      this.entryType := EntryTypeOf(kind, givenType);
      this.citationKey := citationKey;
      this.fields := fields;
      warnings := [];
      errors := [];
    }

    /**
      `get_field(name, default)`: the value of the first field, in insertion
      order, whose lower-cased name is the lower-cased query; `default` when
      there is none.
    */
    function GetField(name: string, default: Option<string>): (r: Option<string>)
      ensures NoEarlierField(fields, Lower(name), |fields|) ==> r == default
      ensures forall i | 0 <= i < |fields| && Lower(fields[i].0) == Lower(name)
                           && NoEarlierField(fields, Lower(name), i) :: r == Some(fields[i].1)
    {
      match FirstField(fields, Lower(name), 0)
      case None => default
      case Some(i) =>
        Some(fields[i].1)
    }

    /** The named-field properties of the subclasses: `get_field(name)` with no default. */
    function Field(name: string): Option<string>
    {
      GetField(name, None)
    }

    /** `get_pub()`: the journal of an Article, the booktitle of an InProceedings, else nothing. */
    function Pub(): (r: Option<string>)
      ensures kind == Article ==> r == Field("journal")
      ensures kind == InProceedings ==> r == Field("booktitle")
      ensures kind == Book || kind == Others ==> r == None
    {
      match kind
      case Article => Field("journal")
      case InProceedings => Field("booktitle")
      case _ => None
    }

    /** `get_pub_type()`. */
    function PubType(): (r: Option<string>)
      ensures kind == Article ==> r == Some("article")
      ensures kind == InProceedings ==> r == Some("booktitle")
      ensures kind == Book || kind == Others ==> r == None
    {
      match kind
      case Article => Some("article")
      case InProceedings => Some("booktitle")
      case _ => None
    }

    /** `get_num_warnings()`. */
    function NumWarnings(): nat
      reads this
    {
      |warnings|
    }

    /** `get_num_errors()`. */
    function NumErrors(): nat
      reads this
    {
      |errors|
    }

    /** `add_warnings(w)`: the source asserts the level code is 1 and appends. */
    method AddWarning(w: Issue)
      requires w.level.Code() == 1
      modifies this`warnings
      ensures warnings == old(warnings) + [w]
      ensures NumWarnings() == old(NumWarnings()) + 1
      ensures old(Valid()) ==> Valid()
    {
      warnings := warnings + [w];
    }

    /** `add_errors(e)`: the source asserts the level code is 2 and appends. */
    method AddError(e: Issue)
      requires e.level.Code() == 2
      modifies this`errors
      ensures errors == old(errors) + [e]
      ensures NumErrors() == old(NumErrors()) + 1
      ensures old(Valid()) ==> Valid()
    {
      errors := errors + [e];
    }

    /** The rules' `if warning_msg is not None: entry.add_warnings(warning_msg)`. */
    method AddWarningIf(k: Option<IssueKind>)
      modifies this`warnings
      ensures warnings == old(warnings) + AsLog(Warning, k)
    {
      if k.Some? {
        AddWarning(Issue(Warning, k.value));
      }
    }

    /** The rules' `if error_msg is not None: entry.add_errors(error_msg)`. */
    method AddErrorIf(k: Option<IssueKind>)
      modifies this`errors
      ensures errors == old(errors) + AsLog(Error, k)
    {
      if k.Some? {
        AddError(Issue(Error, k.value));
      }
    }

    /** The lines `__str__` joins: the header, one line per field in order, the closing brace. */
    function Lines(): seq<string>
    {
      ["@" + entryType + "{" + citationKey + ","]
      + seq(|fields|, i requires 0 <= i < |fields| => FieldLine(fields[i].0, fields[i].1))
      + ["}"]
    }

    /** `__str__`. */
    function ToString(): string
    {
      Join(Lines(), "\n")
    }

    /**
      When no name or value holds a line break, `__str__` has exactly
      `len(fields) + 2` lines: the header, the fields in order, and `}`.
    */
    lemma ToStringLines()
      requires SingleLine(entryType) && SingleLine(citationKey)
      requires forall i :: 0 <= i < |fields| ==> SingleLine(fields[i].0) && SingleLine(fields[i].1)
      ensures Split(ToString(), '\n') == Lines()
      ensures |Lines()| == |fields| + 2
      ensures Lines()[0] == "@" + entryType + "{" + citationKey + ","
      ensures forall i :: 0 <= i < |fields| ==> Lines()[i + 1] == FieldLine(fields[i].0, fields[i].1)
      ensures Lines()[|fields| + 1] == "}"
    {
      var ls := Lines();
      forall i | 0 <= i < |ls| ensures '\n' !in ls[i] {
        if 0 < i <= |fields| {
          var k, v := fields[i - 1].0, fields[i - 1].1;
          assert ls[i] == "\t" + k + " = {" + v + "},";
        }
      }
      SplitJoin(ls, '\n');
    }
  }

  /** `'arxiv' in pub.lower()` for a publication name that is present. */
  predicate OnArxiv(pub: Option<string>)
  {
    pub.Some? && Contains(Lower(pub.value), "arxiv")
  }

  /** No entry object occurs twice in the list. */
  predicate Distinct(entries: seq<BibEntry>)
  {
    forall i, j :: 0 <= i < j < |entries| ==> entries[i] != entries[j]
  }

  /** Every entry is an Article or an InProceedings: the list `check` hands to its rules. */
  predicate Checkable(entries: seq<BibEntry>)
  {
    forall i :: 0 <= i < |entries| ==> entries[i].kind == Article || entries[i].kind == InProceedings
  }
}

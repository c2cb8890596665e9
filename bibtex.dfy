/** `_fetch_info_from_bib`: a BibTeX entry, as text, turned into a Crossref-style record by two
    regular expressions and a handful of fallbacks. */
module Bibtex {
  import opened Outcomes
  import opened PyStrings
  import opened Records

  /** The fields looked up, in the order of the source's loop. */
  const FieldNames: seq<string> := [
    "author", "editor", "title", "year", "month",
    "journal", "booktitle", "pages", "volume",
    "number", "publisher", "doi", "url"]

  /** `BIB_TO_CROSSREF`. */
  const BibToCrossref: map<string, string> := map[
    "article" := "journal-article",
    "book" := "book",
    "inbook" := "book-chapter",
    "inproceedings" := "proceedings-article"]

  /** The length of the run of `\w` characters at the start of `s`. */
  function WordRun(s: string): (n: nat)
    ensures n <= |s| && forall i | 0 <= i < n :: IsWordChar(s[i])
    ensures n < |s| ==> !IsWordChar(s[n])
  {
    if s == [] || !IsWordChar(s[0]) then 0 else 1 + WordRun(s[1..])
  }

  /** The length of the run of `\s` characters at the start of `s`. */
  function SpaceRun(s: string): (n: nat)
    ensures n <= |s| && (n < |s| ==> !IsSpace(s[n]))
  {
    if s == [] || !IsSpace(s[0]) then 0 else 1 + SpaceRun(s[1..])
  }

  /** Every character of the run is whitespace, so with the character after it the run is the
      longest whitespace prefix. */
  lemma {:induction false} SpaceRunSpaces(s: string)
    ensures forall i | 0 <= i < SpaceRun(s) :: IsSpace(s[i])
  {
    if s != [] && IsSpace(s[0]) {
      SpaceRunSpaces(s[1..]);
      assert forall i | 1 <= i < SpaceRun(s) :: s[i] == s[1..][i - 1];
    }
  }

  /** `re.match(r"@(\w+)\s*{\s*([^,]+),", s)`, giving group 1. The word run and the spaces
      cannot give anything back to what follows them, so they are taken whole; after the brace,
      `\s*([^,]+),` matches exactly when a comma follows at least one other character. */
  function EntryTypeMatch(s: string): (r: Option<string>)
    ensures r.Some? ==> r.value != [] && forall i | 0 <= i < |r.value| :: IsWordChar(r.value[i])
    ensures r.Some? ==> |s| >= 2 && s[0] == '@' && r.value <= s[1..]
  {
    if s == [] || s[0] != '@' then None
    else
      var w := WordRun(s[1..]);
      if w == 0 || !BraceAndKey(s[1 + w..]) then None else Some(s[1..1 + w])
  }

  /** `\s*{\s*([^,]+),` at the start of `rest`: spaces, a brace, and a comma after at least one
      other character. */
  predicate BraceAndKey(rest: string) {
    var sp := SpaceRun(rest);
    && sp < |rest| && rest[sp] == '{'
    && match Find(rest[sp + 1..], ",")
       case Some(k) => k >= 1
       case None => false
  }

  /** The entry type: the header's word lower-cased, `misc` when the header does not match. */
  function EntryType(s: string): (t: string)
    ensures t != []
    ensures EntryTypeMatch(s).None? ==> t == "misc"
    ensures EntryTypeMatch(s).Some? ==> SameIgnoringCase(t, EntryTypeMatch(s).value)
                                        && forall i | 0 <= i < |t| :: !('A' <= t[i] <= 'Z')
  {
    match EntryTypeMatch(s)
    case Some(w) => LowerIgnoringCase(w); Lower(w)
    case None => "misc"
  }

  /** Lower-casing changes a text only up to case. */
  lemma {:induction false} LowerIgnoringCase(w: string)
    ensures SameIgnoringCase(Lower(w), w)
    decreases |w|
  {
    if w != [] {
      LowerIgnoringCase(w[1..]);
      assert Lower(w)[1..] == Lower(w[1..]);
    }
  }

  /** The record type: the four known entry types mapped, every other one `journal-article`. */
  function CrossrefType(s: string): (t: string)
    ensures EntryType(s) in BibToCrossref ==> t == BibToCrossref[EntryType(s)]
    ensures EntryType(s) !in BibToCrossref ==> t == "journal-article"
  {
    var e := EntryType(s);
    if e in BibToCrossref then BibToCrossref[e] else "journal-article"
  }

  /** `a` and `b` agree when ASCII letters are compared without case. */
  predicate SameIgnoringCase(a: string, b: string) {
    |a| == |b| && (a == [] || (LowerChar(a[0]) == LowerChar(b[0]) && SameIgnoringCase(a[1..], b[1..])))
  }

  /** The index of the first `}` or `"` in `s`. */
  function CloseAt(s: string): (r: Option<nat>)
    ensures r.Some? ==> r.value < |s| && (s[r.value] == '}' || s[r.value] == '"')
  {
    if s == [] then None
    else if s[0] == '}' || s[0] == '"' then Some(0)
    else match CloseAt(s[1..])
      case None => None
      case Some(j) => Some(j + 1)
  }

  /** The closing character found is the first one, and none means there is none. */
  lemma {:induction false} CloseAtFirst(s: string)
    ensures CloseAt(s).Some? ==> forall j | 0 <= j < CloseAt(s).value :: s[j] != '}' && s[j] != '"'
    ensures CloseAt(s).None? ==> forall j | 0 <= j < |s| :: s[j] != '}' && s[j] != '"'
  {
    if s != [] && s[0] != '}' && s[0] != '"' {
      CloseAtFirst(s[1..]);
      assert forall j | 1 <= j < |s| :: s[j] == s[1..][j - 1];
    }
  }

  /** The pattern `field\s*=\s*[{"](.*?)[}"],?` tried at position `i` of `s` without case and
      with `.` matching newlines, giving group 1. */
  function MatchFieldAt(s: string, i: nat, field: string): (r: Option<string>)
    requires i <= |s|
    ensures r.Some? ==> i + |field| <= |s| && SameIgnoringCase(s[i..i + |field|], field)
                        && '}' !in r.value && '"' !in r.value
  {
    if |s| - i < |field| || !SameIgnoringCase(s[i..i + |field|], field) then None
    else ValueAt(s, i + |field|)
  }

  /** The rest of the pattern after the field name, `\s*=\s*[{"](.*?)[}"]`, tried at position `p`
      of `s`, giving group 1. The lazy group ends at the first `}` or `"`. */
  function ValueAt(s: string, p: nat): (r: Option<string>)
    requires p <= |s|
    ensures r.Some? ==> '}' !in r.value && '"' !in r.value
  {
    var a := s[p..];
    var sp1 := SpaceRun(a);
    if sp1 == |a| || a[sp1] != '=' then None
    else
      var b := a[sp1 + 1..];
      var sp2 := SpaceRun(b);
      if sp2 == |b| || (b[sp2] != '{' && b[sp2] != '"') then None
      else
        var v := b[sp2 + 1..];
        match CloseAt(v)
        case None => None
        case Some(k) =>
          CloseAtFirst(v);
          assert forall c | c in v[..k] :: c != '}' && c != '"';
          Some(v[..k])
  }

  /** `re.search(...)` for one field from position `i` on: the leftmost position where the
      pattern matches. */
  function SearchFrom(s: string, field: string, i: nat): (r: Option<nat>)
    requires i <= |s|
    ensures r.Some? ==> i <= r.value <= |s| && MatchFieldAt(s, r.value, field).Some?
    ensures r.Some? ==> forall k | i <= k < r.value :: MatchFieldAt(s, k, field).None?
    ensures r.None? ==> forall k | i <= k <= |s| :: MatchFieldAt(s, k, field).None?
    decreases |s| - i
  {
    if MatchFieldAt(s, i, field).Some? then Some(i)
    else if i == |s| then None
    else
      var r := SearchFrom(s, field, i + 1);
      assert MatchFieldAt(s, i, field).None?;
      r
  }

  /** Group 1 of the leftmost match of the field's pattern, if any. */
  function SearchField(s: string, field: string): (r: Option<string>)
    ensures r.Some? ==> '}' !in r.value && '"' !in r.value
  {
    match SearchFrom(s, field, 0)
    case Some(j) => MatchFieldAt(s, j, field)
    case None => None
  }

  /** The search finds the value of the leftmost position where the field's pattern matches,
      and nothing only when it matches nowhere. */
  lemma SearchFieldLeftmost(s: string, field: string)
    ensures SearchField(s, field).None? ==> forall k | 0 <= k <= |s| :: MatchFieldAt(s, k, field).None?
    ensures SearchField(s, field).Some? ==>
              exists k | 0 <= k <= |s| :: MatchFieldAt(s, k, field) == SearchField(s, field)
                                         && forall j | 0 <= j < k :: MatchFieldAt(s, j, field).None?
    ensures SearchField(s, field).Some? ==> '}' !in SearchField(s, field).value && '"' !in SearchField(s, field).value
  {
    var j := SearchFrom(s, field, 0);
    if j.Some? {
      assert MatchFieldAt(s, j.value, field) == SearchField(s, field);
    }
  }

  /** The search of one field in the entry `s`. */
  function Searcher(s: string): string -> Option<string> {
    field => SearchField(s, field)
  }

  /** The field dictionary after the loop has looked up `names` in order with `search`. */
  function FieldsFound(names: seq<string>, search: string -> Option<string>): (fields: map<string, string>)
    ensures forall f | f in fields :: f in names
    decreases |names|
  {
    if names == [] then map[]
    else
      var n := |names| - 1;
      var fields := FieldsFound(names[..n], search);
      assert forall f | f in names[..n] :: f in names;
      if search(names[n]).Some? then fields[names[n] := Strip(search(names[n]).value)] else fields
  }

  /** The fields found in the entry, each value stripped of surrounding whitespace. */
  function Fields(s: string): (fields: map<string, string>)
    ensures forall f | f in fields :: f in FieldNames
  {
    FieldsFound(FieldNames, Searcher(s))
  }

  /** The field loop as the source runs it. */
  method ExtractFields(s: string) returns (fields: map<string, string>)
    ensures fields == Fields(s)
  {
    fields := map[];
    for n := 0 to |FieldNames|
      invariant fields == FieldsFound(FieldNames[..n], Searcher(s))
    {
      var field := FieldNames[n];
      var m := SearchField(s, field);
      assert Searcher(s)(field) == m;
      FieldsFoundStep(FieldNames, Searcher(s), n);
      if m.Some? {
        // the names are lower-case already, so `field.lower()` is the name itself
        fields := fields[field := Strip(m.value)];
      }
    }
    assert FieldNames[..|FieldNames|] == FieldNames;
  }

  /** One more turn of the loop looks up the next name. */
  lemma FieldsFoundStep(names: seq<string>, search: string -> Option<string>, n: nat)
    requires n < |names|
    ensures FieldsFound(names[..n + 1], search)
            == if search(names[n]).Some? then FieldsFound(names[..n], search)[names[n] := Strip(search(names[n]).value)]
               else FieldsFound(names[..n], search)
  {
    assert names[..n + 1][..n] == names[..n];
  }

  predicate Distinct(names: seq<string>) {
    forall i, j | 0 <= i < j < |names| :: names[i] != names[j]
  }

  /** For distinct names, a field is present exactly when its search finds it, and then holds
      the stripped value found. */
  lemma {:induction false} FieldsFoundSpec(names: seq<string>, search: string -> Option<string>)
    requires Distinct(names)
    ensures forall k | 0 <= k < |names| :: (names[k] in FieldsFound(names, search)) == search(names[k]).Some?
    ensures forall k | 0 <= k < |names| && names[k] in FieldsFound(names, search) ::
              FieldsFound(names, search)[names[k]] == Strip(search(names[k]).value)
    decreases |names|
  {
    if names != [] {
      var n := |names| - 1;
      var init := names[..n];
      assert Distinct(init) by {
        forall i, j | 0 <= i < j < n ensures init[i] != init[j] {
          assert init[i] == names[i] && init[j] == names[j];
        }
      }
      FieldsFoundSpec(init, search);
      forall k | 0 <= k < n ensures init[k] == names[k] && names[k] != names[n] {
      }
    }
  }

  /** No field is looked up twice: the names differ in their first letter or their length. */
  lemma FieldNamesDistinct()
    ensures Distinct(FieldNames)
  {
    forall i, j | 0 <= i < j < |FieldNames| ensures FieldNames[i] != FieldNames[j] {
      assert FieldNames[i][0] != FieldNames[j][0] || |FieldNames[i]| != |FieldNames[j]|;
    }
  }

  /** A field of the entry is present exactly when its pattern matches somewhere, and then
      holds the stripped value of the leftmost match; no other key is present. */
  lemma FieldsSpec(s: string)
    ensures forall f | f in Fields(s) :: f in FieldNames
    ensures forall k | 0 <= k < |FieldNames| :: (FieldNames[k] in Fields(s)) == SearchField(s, FieldNames[k]).Some?
    ensures forall k | 0 <= k < |FieldNames| && FieldNames[k] in Fields(s) ::
              Fields(s)[FieldNames[k]] == Strip(SearchField(s, FieldNames[k]).value)
  {
    FieldNamesDistinct();
    FieldsFoundSpec(FieldNames, Searcher(s));
  }

  /** One name of the author list: all words but the last are the given name, the last the
      family name; a single word gets the empty given name; no word at all is `IndexError`. */
  function NameOf(name: string): (r: Result<Author>)
    ensures r.Failure? <==> Words(Strip(name)) == []
    ensures r.Failure? ==> r.error == IndexError("list index out of range")
  {
    var parts := Words(Strip(name));
    if |parts| >= 2 then
      Success(Author(Some(Join(parts[..|parts| - 1], " ")), Some(parts[|parts| - 1]), None))
    else if |parts| == 1 then Success(Author(Some(""), Some(parts[0]), None))
    else Failure(IndexError("list index out of range"))
  }

  /** The authors of the first `n` pieces, failing at the first piece without a word. */
  function NamesOf(pieces: seq<string>): (r: Result<seq<Author>>)
    ensures r.Success? ==> |r.value| == |pieces| && forall i | 0 <= i < |pieces| :: NameOf(pieces[i]) == Success(r.value[i])
    ensures r.Failure? <==> exists i | 0 <= i < |pieces| :: NameOf(pieces[i]).Failure?
    ensures r.Failure? ==> r.error == IndexError("list index out of range")
    decreases |pieces|
  {
    if pieces == [] then Success([])
    else
      var n := |pieces| - 1;
      var init :- NamesOf(pieces[..n]);
      var last :- NameOf(pieces[n]);
      assert forall i | 0 <= i < n :: pieces[..n][i] == pieces[i];
      Success(init + [last])
  }

  /** `parse_authors(auth_str)`: the pieces between occurrences of the substring `and` (also
      inside a word such as `Sandra`). */
  function ParseAuthors(authors: string): (r: Result<seq<Author>>)
    ensures var pieces := Split(authors, "and");
            r.Success? ==> |r.value| == |pieces| && forall i | 0 <= i < |pieces| :: NameOf(pieces[i]) == Success(r.value[i])
    ensures r.Failure? ==> exists i | 0 <= i < |Split(authors, "and")| :: NameOf(Split(authors, "and")[i]).Failure?
    ensures r.Success? ==> forall i | 0 <= i < |Split(authors, "and")| :: NameOf(Split(authors, "and")[i]).Success?
    ensures r.Failure? ==> r.error == IndexError("list index out of range")
  {
    NamesOf(Split(authors, "and"))
  }

  /** A piece without a word makes the whole list fail with `IndexError`. */
  lemma NamesOfFailsAt(pieces: seq<string>, i: nat)
    requires i < |pieces| && NameOf(pieces[i]).Failure?
    ensures NamesOf(pieces) == Failure(IndexError("list index out of range"))
  {
  }

  /** The `parse_authors` loop as the source runs it. */
  method ParseAuthorsLoop(authors: string) returns (r: Result<seq<Author>>)
    ensures r == ParseAuthors(authors)
  {
    r := CollectNames(Split(authors, "and"));
  }

  /** The loop body over the pieces: each name is appended, the first failure is raised. */
  method CollectNames(pieces: seq<string>) returns (r: Result<seq<Author>>)
    ensures r == NamesOf(pieces)
  {
    var list: seq<Author> := [];
    for i := 0 to |pieces|
      invariant NamesOf(pieces[..i]) == Success(list)
    {
      assert pieces[..i + 1][..i] == pieces[..i];
      var a := NameOf(pieces[i]);
      if a.Failure? {
        NamesOfFailsAt(pieces, i);
        return a.PropagateFailure();
      }
      list := list + [a.value];
    }
    assert pieces[..|pieces|] == pieces;
    r := Success(list);
  }

  /** The year: the value of an all-digit `year` field, read as an integer. */
  function Year(fields: map<string, string>): (y: Option<int>)
    ensures y.Some? <==> "year" in fields && IsDigits(fields["year"])
    ensures y.Some? ==> y.value >= 0
  {
    if "year" in fields && IsDigits(fields["year"]) then Some(DigitsValue(fields["year"])) else None
  }

  /** A year field written by `str` from a natural number reads back as that number. */
  lemma YearReadsBack(fields: map<string, string>, n: nat)
    requires "year" in fields && fields["year"] == NatToString(n)
    ensures Year(fields) == Some(n)
  {
    NatToStringRoundTrip(n);
  }

  /** `parse_month` as the source has it: the empty month is `None`, a number is read by `int`,
      and anything else reaches `calendar`, a name the module never imports. */
  function ParseMonth(month: string): (r: Result<Option<int>>)
    ensures month == [] ==> r == Success(None)
    ensures month != [] && r.Success? ==> r.value.Some? && ParseInt(month) == r.value
    ensures r.Failure? <==> month != [] && ParseInt(month).None?
    ensures r.Failure? ==> r.error == NameError("calendar")
  {
    if month == [] then Success(None)
    else match ParseInt(month)
      case Some(m) => Success(Some(m))
      case None => Failure(NameError("calendar"))
  }

  /** The English month names, as `calendar.month_name[1..]`. */
  const MonthNames: seq<string> := [
    "January", "February", "March", "April", "May", "June",
    "July", "August", "September", "October", "November", "December"]

  /** The abbreviations, as `calendar.month_abbr[1..]`. */
  const MonthAbbreviations: seq<string> := [
    "Jan", "Feb", "Mar", "Apr", "May", "Jun", "Jul", "Aug", "Sep", "Oct", "Nov", "Dec"]

  /** `s.capitalize()` on ASCII text. */
  function Capitalize(s: string): string {
    if s == [] then [] else [UpperChar(s[0])] + Lower(s[1..])
  }

  /** The index of `x` in `xs`, counted from 1. */
  function IndexFrom1(xs: seq<string>, x: string): (r: Option<int>)
    ensures r.Some? ==> 1 <= r.value <= |xs| && xs[r.value - 1] == x
    ensures r.Some? ==> forall j | 0 <= j < r.value - 1 :: xs[j] != x
    ensures r.None? ==> x !in xs
  {
    if xs == [] then None
    else if xs[0] == x then Some(1)
    else match IndexFrom1(xs[1..], x)
      case None => None
      case Some(k) => Some(k + 1)
  }

  /** The month names the unreachable branch of `parse_month` would look up: the three-letter
      abbreviation of the month, then its full English name, both after `capitalize()`. */
  function MonthByName(month: string): (r: Option<int>)
    ensures r.Some? ==> 1 <= r.value <= 12
  {
    var prefix := if |month| <= 3 then month else month[..3];
    match IndexFrom1(MonthAbbreviations, Capitalize(prefix))
    case Some(k) => Some(k)
    case None => IndexFrom1(MonthNames, Capitalize(month))
  }

  /** `parse_month` as it reads with `calendar` in scope: a number, else a month name, else
      `None`. */
  function IntendedParseMonth(month: string): (r: Option<int>)
    ensures month == [] ==> r.None?
  {
    if month == [] then None
    else match ParseInt(month)
      case Some(m) => Some(m)
      case None => MonthByName(month)
  }

  /** The `date-parts` row: the year when it is non-zero, then the month when that is also
      non-zero. */
  function DateParts(year: Option<int>, month: Option<int>): (parts: seq<int>)
    ensures |parts| <= 2
    ensures parts != [] <==> year.Some? && year.value != 0
    ensures |parts| == 2 <==> year.Some? && year.value != 0 && month.Some? && month.value != 0
  {
    if year.Some? && year.value != 0 then
      [year.value] + (if month.Some? && month.value != 0 then [month.value] else [])
    else []
  }

  /** `a or b` on optional strings: `a` unless it is missing or empty. */
  function Or(a: Option<string>, b: Option<string>): Option<string> {
    if a.Some? && a.value != [] then a else b
  }

  /** `fields.get("doi") or fields.get("url") or ""`. */
  function Doi(fields: map<string, string>): (d: string)
    ensures "doi" in fields && fields["doi"] != [] ==> d == fields["doi"]
    ensures !("doi" in fields && fields["doi"] != []) && "url" in fields ==> d == fields["url"]
    ensures !("doi" in fields && fields["doi"] != []) && "url" !in fields ==> d == []
  {
    Or(Or(Get(fields, "doi"), Get(fields, "url")), Some("")).value
  }

  function Get(fields: map<string, string>, key: string): (r: Option<string>)
    ensures r.Some? <==> key in fields
    ensures r.Some? ==> r.value == fields[key]
  {
    if key in fields then Some(fields[key]) else None
  }

  /** The `container-title` list: the journal, or the book title when the journal is missing or
      empty; an empty list when neither key is present. */
  function Container(fields: map<string, string>): (c: seq<Option<string>>)
    ensures ("journal" in fields || "booktitle" in fields) <==> |c| == 1
    ensures !("journal" in fields || "booktitle" in fields) <==> c == []
    ensures "journal" in fields && fields["journal"] != [] ==> c == [Some(fields["journal"])]
    ensures !("journal" in fields && fields["journal"] != []) && "booktitle" in fields ==> c == [Some(fields["booktitle"])]
    ensures "journal" in fields && fields["journal"] == [] && "booktitle" !in fields ==> c == [None]
  {
    if "journal" in fields || "booktitle" in fields then [Or(Get(fields, "journal"), Get(fields, "booktitle"))]
    else []
  }

  /** The month text: the `month` field stripped and lower-cased, empty when it is absent. */
  function MonthText(fields: map<string, string>): (m: string)
    ensures "month" !in fields ==> m == []
    ensures m != [] ==> !IsSpace(m[0]) && !IsSpace(m[|m| - 1])
    ensures forall i | 0 <= i < |m| :: !('A' <= m[i] <= 'Z')
  {
    var t := Strip(if "month" in fields then fields["month"] else "");
    assert t != [] ==> Lower(t)[0] == LowerChar(t[0]) && Lower(t)[|t| - 1] == LowerChar(t[|t| - 1]);
    Lower(t)
  }

  /** `_fetch_info_from_bib(s)`: raises `NameError` for a month that is not a number and
      `IndexError` for an author or editor piece without a word. */
  function BibInfo(s: string): (r: Result<Info>)
    ensures r == InfoFromFields(s, Fields(s))
    ensures r.Success? ==> r.value.source == Some("bibtex") && r.value.kind == Some(CrossrefType(s))
    ensures r.Failure? && r.error.NameError? <==> ParseMonth(MonthText(Fields(s))).Failure?
  {
    InfoFromFields(s, Fields(s))
  }

  /** The record `_fetch_info_from_bib` builds once the field dictionary `fields` of the entry
      `s` is known. */
  function InfoFromFields(s: string, fields: map<string, string>): (r: Result<Info>)
    ensures r.Success? ==> r.value.source == Some("bibtex") && r.value.kind == Some(CrossrefType(s))
    ensures r.Failure? ==> r.error == NameError("calendar") || r.error == IndexError("list index out of range")
    ensures r.Failure? && r.error.NameError? <==> ParseMonth(MonthText(fields)).Failure?
    ensures r.Success? <==> ParseMonth(MonthText(fields)).Success?
                            && ("author" in fields ==> ParseAuthors(fields["author"]).Success?)
                            && ("editor" in fields ==> ParseAuthors(fields["editor"]).Success?)
    ensures r.Success? ==> r.value.doi == Some(Doi(fields))
    ensures r.Success? ==> r.value.title == Some(if "title" in fields then [fields["title"]] else [])
    ensures r.Success? ==> r.value.containerTitle == Some(Container(fields))
    ensures r.Success? ==> (r.value.published.Some? <==> Year(fields).Some? && Year(fields).value != 0)
    ensures r.Success? ==>
              (var parts := DateParts(Year(fields), ParseMonth(MonthText(fields)).value);
               r.value.published == if parts != [] then Some([parts]) else None)
    ensures r.Success? ==> r.value.author.Some? && r.value.editor.Some?
    ensures r.Success? && "author" in fields ==> r.value.author == Some(ParseAuthors(fields["author"]).value)
    ensures r.Success? && "editor" in fields ==> r.value.editor == Some(ParseAuthors(fields["editor"]).value)
    ensures r.Success? && "author" !in fields ==> r.value.author == Some([])
    ensures r.Success? && "editor" !in fields ==> r.value.editor == Some([])
    ensures r.Success? ==> r.value.publisher == Get(fields, "publisher") && r.value.volume == Get(fields, "volume")
                           && r.value.issue == Get(fields, "number") && r.value.page == Get(fields, "pages")
  {
    var year := Year(fields);
    var monthNum :- ParseMonth(MonthText(fields));
    var parts := DateParts(year, monthNum);
    var authors :- if "author" in fields then ParseAuthors(fields["author"]) else Success([]);
    var editors :- if "editor" in fields then ParseAuthors(fields["editor"]) else Success([]);
    Success(Info(
      doi := Some(Doi(fields)),
      kind := Some(CrossrefType(s)),
      title := Some(if "title" in fields then [fields["title"]] else []),
      author := Some(authors),
      editor := Some(editors),
      published := if parts != [] then Some([parts]) else None,
      containerTitle := Some(Container(fields)),
      publisher := Get(fields, "publisher"),
      volume := Get(fields, "volume"),
      issue := Get(fields, "number"),
      page := Get(fields, "pages"),
      editionNumber := None,
      subject := None,
      source := Some("bibtex")))
  }

  lemma {:induction false} WordRunOf(w: string, t: string)
    requires forall i | 0 <= i < |w| :: IsWordChar(w[i])
    requires t != [] && !IsWordChar(t[0])
    ensures WordRun(w + t) == |w|
    decreases |w|
  {
    if w == [] {
      assert w + t == t;
    } else {
      assert (w + t)[1..] == w[1..] + t;
      WordRunOf(w[1..], t);
    }
  }

  lemma {:induction false} SpaceRunOf(sp: string, t: string)
    requires forall i | 0 <= i < |sp| :: IsSpace(sp[i])
    requires t != [] && !IsSpace(t[0])
    ensures SpaceRun(sp + t) == |sp|
    decreases |sp|
  {
    if sp == [] {
      assert sp + t == t;
    } else {
      assert (sp + t)[1..] == sp[1..] + t;
      SpaceRunOf(sp[1..], t);
    }
  }

  /** The first comma of `key + "," + rest` is the one after `key` when `key` has none. */
  lemma FindComma(key: string, rest: string)
    requires ',' !in key
    ensures Find(key + "," + rest, ",") == Some(|key|)
  {
    FindAfterPiece(key, rest, ",");
  }

  /** A header `@type{key,`, with any whitespace before the brace, gives the lower-cased type
      whatever follows the comma. */
  lemma HeaderEntryType(s: string, w: string, sp: string, key: string, rest: string)
    requires s == "@" + w + sp + "{" + key + "," + rest
    requires w != [] && forall i | 0 <= i < |w| :: IsWordChar(w[i])
    requires forall i | 0 <= i < |sp| :: IsSpace(sp[i])
    requires key != [] && ',' !in key
    ensures EntryType(s) == Lower(w)
  {
    var body := key + "," + rest;
    var y := sp + ("{" + body);
    assert s == "@" + (w + y);
    HeaderParts(s, w, y, sp, body, key, rest);
  }

  lemma HeaderParts(s: string, w: string, y: string, sp: string, body: string, key: string, rest: string)
    requires s == "@" + (w + y) && y == sp + ("{" + body) && body == key + "," + rest
    requires w != [] && forall i | 0 <= i < |w| :: IsWordChar(w[i])
    requires forall i | 0 <= i < |sp| :: IsSpace(sp[i])
    requires key != [] && ',' !in key
    ensures EntryTypeMatch(s) == Some(w)
  {
    BraceKeyParts(y, sp, body, key, rest);
    assert !IsWordChar(y[0]);
    HeaderOf(s, w, y);
  }

  lemma BraceKeyParts(y: string, sp: string, body: string, key: string, rest: string)
    requires y == sp + ("{" + body) && body == key + "," + rest
    requires forall i | 0 <= i < |sp| :: IsSpace(sp[i])
    requires key != [] && ',' !in key
    ensures BraceAndKey(y)
  {
    SpaceRunOf(sp, "{" + body);
    assert y[|sp|] == '{';
    assert y[|sp| + 1..] == body;
    FindComma(key, rest);
  }

  lemma HeaderOf(s: string, w: string, y: string)
    requires s == "@" + (w + y) && w != [] && forall i | 0 <= i < |w| :: IsWordChar(w[i])
    requires y != [] && !IsWordChar(y[0]) && BraceAndKey(y)
    ensures EntryTypeMatch(s) == Some(w)
  {
    assert s[1..] == w + y;
    WordRunOf(w, y);
    assert s[1 + |w|..] == y;
    assert s[1..1 + |w|] == w;
  }

  /** A text that does not start with `@` has the type `misc`, and so the record type
      `journal-article`. */
  lemma NoHeader(s: string)
    requires s == [] || s[0] != '@'
    ensures EntryType(s) == "misc" && CrossrefType(s) == "journal-article"
  {
    assert "misc" !in BibToCrossref;
  }

  /** The field `title` matches inside `booktitle`, four characters further on, with the same
      value. */
  lemma TitleInsideBooktitle(s: string, j: nat)
    requires j <= |s| && MatchFieldAt(s, j, "booktitle").Some?
    ensures MatchFieldAt(s, j + 4, "title") == MatchFieldAt(s, j, "booktitle")
  {
    MatchFieldAtName(s, j, "booktitle");
    NameSuffix(s, j, "booktitle", 4);
    assert "booktitle"[4..] == "title";
  }

  /** A field name matched at `j` has each of its tails matched where that tail starts. */
  lemma NameSuffix(s: string, j: nat, field: string, d: nat)
    requires j + |field| <= |s| && SameIgnoringCase(s[j..j + |field|], field) && d <= |field|
    ensures j + d + |field[d..]| == j + |field|
    ensures SameIgnoringCase(s[j + d..j + d + |field[d..]|], field[d..])
  {
    var e := j + d + |field[d..]|;
    assert e == j + |field|;
    SameIgnoringCaseTail(s[j..e], field, d);
    assert s[j..e][d..] == s[j + d..e];
  }

  /** A match starts with the field name, compared without case. */
  lemma MatchFieldAtName(s: string, i: nat, field: string)
    requires i <= |s| && MatchFieldAt(s, i, field).Some?
    ensures i + |field| <= |s| && SameIgnoringCase(s[i..i + |field|], field)
  {
  }

  lemma {:induction false} SameIgnoringCaseTail(a: string, b: string, d: nat)
    requires SameIgnoringCase(a, b) && d <= |a|
    ensures SameIgnoringCase(a[d..], b[d..])
    decreases d
  {
    if d > 0 {
      SameIgnoringCaseTail(a[1..], b[1..], d - 1);
      assert a[1..][d - 1..] == a[d..] && b[1..][d - 1..] == b[d..];
    }
  }

  /** So an entry whose `booktitle` comes before any `title` gets the book title as its title. */
  lemma BooktitleShadowsTitle(s: string, j: nat)
    requires j <= |s| && MatchFieldAt(s, j, "booktitle").Some?
    requires forall k | 0 <= k < j + 4 :: MatchFieldAt(s, k, "title").None?
    ensures SearchField(s, "title") == MatchFieldAt(s, j, "booktitle")
  {
    TitleInsideBooktitle(s, j);
    var r := SearchFrom(s, "title", 0);
    assert r.Some? && r.value <= j + 4;
  }

  /** A parsed name reads back: the family name is the last word of the piece and holds no
      whitespace; with more than one word, the given name, a space and the family name are the
      words rejoined by single spaces. */
  lemma NameOfReadBack(piece: string)
    requires NameOf(piece).Success?
    ensures var a := NameOf(piece).value;
            var words := Words(Strip(piece));
            && a.given.Some? && a.family.Some? && a.name.None?
            && a.family.value == words[|words| - 1]
            && a.family.value != []
            && (forall i | 0 <= i < |a.family.value| :: !IsSpace(a.family.value[i]))
            && (|words| == 1 ==> a.given.value == [])
            && (|words| >= 2 ==> a.given.value + " " + a.family.value == Join(words, " "))
  {
    var words := Words(Strip(piece));
    WordsShape(Strip(piece));
    if |words| >= 2 {
      var n := |words| - 1;
      JoinSnoc(words[..n], words[n], " ");
      assert words[..n] + [words[n]] == words;
    }
  }

  /** `Sandra Smith` is read as two authors, `S` and `ra Smith`, because the list is cut at
      every `and`. */
  lemma SandraSplits(s: string)
    requires s == "Sandra Smith"
    ensures ParseAuthors(s) == Success([Author(Some(""), Some("S"), None), Author(Some("ra"), Some("Smith"), None)])
  {
    SandraList(s);
    SandraPieces("S", "ra Smith");
  }

  lemma SandraList(s: string)
    requires s == "Sandra Smith"
    ensures Split(s, "and") == ["S", "ra Smith"]
  {
    var rest := "ra Smith";
    assert s == "S" + "and" + rest;
    SplitStep("S", rest, "and");
    NoAndInRest(rest);
    assert Split(rest, "and") == [rest];
  }

  lemma NoAndInRest(rest: string)
    requires rest == "ra Smith"
    ensures !Occurs("and", rest)
  {
    assert 'd' !in rest;
    AbsentByChar("and", rest, 'd');
  }

  lemma SandraPieces(first: string, second: string)
    requires first == "S" && second == "ra Smith"
    ensures NamesOf([first, second]) == Success([Author(Some(""), Some("S"), None), Author(Some("ra"), Some("Smith"), None)])
  {
    SingleWordPiece(first);
    TwoWordPiece(second);
    NamesOfTwo(first, second);
  }

  lemma NamesOfTwo(a: string, b: string)
    requires NameOf(a).Success? && NameOf(b).Success?
    ensures NamesOf([a, b]) == Success([NameOf(a).value, NameOf(b).value])
  {
    var pieces := [a, b];
    assert forall i | 0 <= i < 2 :: NameOf(pieces[i]).Success?;
    var r := NamesOf(pieces);
    assert NameOf(pieces[0]) == Success(r.value[0]);
    assert NameOf(pieces[1]) == Success(r.value[1]);
    assert r.value == [r.value[0], r.value[1]];
  }

  lemma SingleWordPiece(piece: string)
    requires piece == "S"
    ensures NameOf(piece) == Success(Author(Some(""), Some("S"), None))
  {
    assert Strip(piece) == piece;
    WordsOfWord(piece, []);
    assert piece + [] == piece;
  }

  lemma SmithNoSpace()
    ensures forall i | 0 <= i < |"Smith"| :: !IsSpace("Smith"[i])
  {
    SpaceFreeChars("Smith");
  }

  lemma TwoWordPiece(piece: string)
    requires piece == "ra Smith"
    ensures NameOf(piece) == Success(Author(Some("ra"), Some("Smith"), None))
  {
    TwoWords(piece);
    assert Join(["ra"], " ") == "ra";
  }

  lemma TwoWords(piece: string)
    requires piece == "ra Smith"
    ensures Strip(piece) == piece && Words(piece) == ["ra", "Smith"]
  {
    StripKeeps(piece);
    SmithNoSpace();
    assert piece == "ra" + " " + "Smith";
    WordsOfTwo("ra", "Smith");
  }

  /** A month with a letter in it (`march`, `Mar.`) is not a number, so `parse_month` reaches
      the missing `calendar` and raises `NameError`. */
  lemma LetterMonthIsNameError(month: string, k: nat)
    requires k < |month| && IsAsciiLetter(month[k])
    ensures ParseInt(month) == None
    ensures ParseMonth(month) == Failure(NameError("calendar"))
  {
    var signed := month[0] == '+' || month[0] == '-';
    var body := if signed then month[1..] else month;
    var kb := if signed then k - 1 else k;
    assert 0 <= kb < |body| && body[kb] == month[k];
  }

  /** An entry whose month field holds a letter is refused as a whole. */
  lemma LetterMonthRefusesEntry(s: string, k: nat)
    requires k < |MonthText(Fields(s))| && IsAsciiLetter(MonthText(Fields(s))[k])
    ensures BibInfo(s) == Failure(NameError("calendar"))
  {
    LetterMonthIsNameError(MonthText(Fields(s)), k);
  }

  /** A month written as a number reads as that number, as it would with `calendar` in scope. */
  lemma NumericMonth(n: nat)
    ensures ParseMonth(NatToString(n)) == Success(Some(n as int))
    ensures IntendedParseMonth(NatToString(n)) == Some(n as int)
  {
    ParseIntOfString(n);
  }

  /** Where `parse_month` does not fail, the intended lookup agrees with it. */
  lemma ParseMonthAgrees(month: string)
    requires ParseMonth(month).Success?
    ensures ParseMonth(month).value == IntendedParseMonth(month)
  {
  }

  /** With `calendar` in scope, `march` would read as month 3; as written it is `NameError`. */
  lemma MarchReads(m: string)
    requires m == "march"
    ensures ParseMonth(m) == Failure(NameError("calendar"))
    ensures IntendedParseMonth(m) == Some(3)
  {
    LetterMonthIsNameError(m, 0);
    assert m[..3] == "mar";
    assert Capitalize("mar") == "Mar" by {
      assert Lower("ar") == "ar";
    }
    var xs := MonthAbbreviations;
    assert xs[0] != "Mar" && xs[1] != "Mar" && xs[2] == "Mar";
    assert IndexFrom1(xs[2..], "Mar") == Some(1);
    assert IndexFrom1(xs[1..], "Mar") == Some(2) by {
      assert xs[1..][1..] == xs[2..];
    }
    assert IndexFrom1(xs, "Mar") == Some(3);
  }

  /** The twelve abbreviations are distinct and each starts with a capital letter. */
  lemma AbbreviationFacts(xs: seq<string>)
    requires xs == MonthAbbreviations
    ensures forall a, b | 0 <= a < b < |xs| :: xs[a] != xs[b]
    ensures forall a | 0 <= a < |xs| :: |xs[a]| == 3 && 'A' <= xs[a][0] <= 'Z'
  {
  }

  /** Every full month name begins with its abbreviation. */
  lemma NamesStartWithAbbreviations(names: seq<string>, xs: seq<string>)
    requires names == MonthNames && xs == MonthAbbreviations
    ensures |names| == |xs| == 12
    ensures forall a | 0 <= a < 12 :: |names[a]| >= 3 && names[a][..3] == xs[a]
  {
  }

  /** A month whose first three letters, capitalised, are the abbreviation of month `i` reads
      as `i` with `calendar` in scope; as written it is `NameError`. */
  lemma MonthAbbreviationReads(month: string, i: int)
    requires 1 <= i <= 12 && |month| >= 3 && Capitalize(month[..3]) == MonthAbbreviations[i - 1]
    ensures MonthByName(month) == Some(i)
    ensures IntendedParseMonth(month) == Some(i)
    ensures ParseMonth(month) == Failure(NameError("calendar"))
  {
    var prefix := if |month| <= 3 then month else month[..3];
    assert prefix == month[..3];
    AbbreviationIndex(MonthAbbreviations, Capitalize(prefix), i);
    CapitalizedLetter(month[..3], MonthAbbreviations[i - 1]);
    LetterMonthIsNameError(month, 0);
  }

  /** `list.index` finds an abbreviation at its own place. */
  lemma AbbreviationIndex(xs: seq<string>, x: string, i: int)
    requires xs == MonthAbbreviations && 1 <= i <= 12 && x == xs[i - 1]
    ensures IndexFrom1(xs, x) == Some(i)
  {
    AbbreviationFacts(xs);
    assert x in xs;
  }

  /** A text that capitalises to an abbreviation starts with a letter. */
  lemma CapitalizedLetter(p: string, x: string)
    requires x in MonthAbbreviations && Capitalize(p) == x
    ensures p != [] && IsAsciiLetter(p[0])
  {
    AbbreviationFacts(MonthAbbreviations);
    assert x[0] == UpperChar(p[0]);
  }

  /** `capitalize` commutes with taking a prefix. */
  lemma CapitalizePrefix(s: string, n: nat)
    requires 1 <= n <= |s|
    ensures |Capitalize(s)| == |s| && Capitalize(s)[..n] == Capitalize(s[..n])
  {
    assert s[..n][1..] == s[1..n];
    assert Lower(s[1..])[..n - 1] == Lower(s[1..n]);
  }

  /** A month written as the full name of month `i`, in any case, reads as `i` with `calendar`
      in scope (through its abbreviation, which the source tries first); as written it is
      `NameError`. */
  lemma MonthNameReads(month: string, i: int)
    requires 1 <= i <= 12 && Capitalize(month) == MonthNames[i - 1]
    ensures IntendedParseMonth(month) == Some(i)
    ensures ParseMonth(month) == Failure(NameError("calendar"))
  {
    NamesStartWithAbbreviations(MonthNames, MonthAbbreviations);
    assert month != [];
    CapitalizePrefix(month, 1);
    CapitalizePrefix(month, 3);
    MonthAbbreviationReads(month, i);
  }
}

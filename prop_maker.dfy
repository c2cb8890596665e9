/** `NotionPropMaker`: a bibliographic record, from whichever source, turned into the properties
    of one Notion page, and the notes it keeps about authors it had to leave out. */
module PropMaker {
  import opened Outcomes
  import opened PyStrings
  import opened Records
  import opened NotionValue
  import Citekey
  import Bibtex
  import Jalc
  import Arxiv

  /** Notion accepts at most this many options in one multi-select. */
  const MaxMultiSelect := 100

  const NoAuthorName := "Valid author name was not found"
  const NotePrefix := "From the 100th to the second to last author: "

  /** Python truthiness of an optional string: present and non-empty. */
  predicate Truthy(x: Option<string>) {
    x.Some? && x.value != []
  }

  /** The name shown for one author: given and family name joined by a space; a family name
      alone (given name missing) with its spaces turned into `_`; else the literal `name`; else
      `RuntimeError`. A given name that is present but empty does not count as missing. */
  function DisplayName(a: Author): (r: Result<string>)
    ensures Truthy(a.given) && Truthy(a.family) ==> r == Success(a.given.value + " " + a.family.value)
    ensures !(Truthy(a.given) && Truthy(a.family)) && a.given.None? && Truthy(a.family) ==>
              r == Success(Replace(a.family.value, " ", "_"))
    ensures !(Truthy(a.given) && Truthy(a.family)) && !(a.given.None? && Truthy(a.family)) && Truthy(a.name) ==>
              r == Success(a.name.value)
    ensures r.Failure? <==> !(Truthy(a.given) && Truthy(a.family)) && !(a.given.None? && Truthy(a.family)) && !Truthy(a.name)
    ensures r.Failure? ==> r.error == RuntimeError(NoAuthorName)
    ensures r.Success? ==> r.value != []
  {
    if Truthy(a.given) && Truthy(a.family) then Success(a.given.value + " " + a.family.value)
    else if a.given.None? && Truthy(a.family) then
      ReplaceSpacesKeepsLength(a.family.value);
      Success(Replace(a.family.value, " ", "_"))
    else if Truthy(a.name) then Success(a.name.value)
    else Failure(RuntimeError(NoAuthorName))
  }

  lemma ReplaceSpacesKeepsLength(s: string)
    ensures |Replace(s, " ", "_")| == |s|
  {
    ReplaceCharPointwise(s, ' ', '_');
  }

  /** The display names of all authors, in order; the first author without a usable name
      makes the whole list fail. */
  function DisplayNames(authors: seq<Author>): (r: Result<seq<string>>)
    ensures r.Success? <==> forall i | 0 <= i < |authors| :: DisplayName(authors[i]).Success?
    ensures r.Success? ==> |r.value| == |authors| && forall i | 0 <= i < |authors| :: DisplayName(authors[i]) == Success(r.value[i])
    ensures r.Failure? ==> r.error == RuntimeError(NoAuthorName)
    decreases |authors|
  {
    if authors == [] then Success([])
    else
      var n := |authors| - 1;
      var init :- DisplayNames(authors[..n]);
      var last :- DisplayName(authors[n]);
      assert forall i | 0 <= i < n :: authors[..n][i] == authors[i];
      Success(init + [last])
  }

  /** The list kept for the multi-select: all names when there are at most 100, otherwise the
      first 99 and the last one. */
  function Capped(names: seq<string>): (r: seq<string>)
    ensures |names| <= MaxMultiSelect ==> r == names
    ensures |names| > MaxMultiSelect ==> |r| == MaxMultiSelect && r[..MaxMultiSelect - 1] == names[..MaxMultiSelect - 1]
                                         && r[MaxMultiSelect - 1] == names[|names| - 1]
  {
    if |names| > MaxMultiSelect then names[..MaxMultiSelect - 1] + [names[|names| - 1]] else names
  }

  /** The names left out of a capped list: from the 100th to the second to last. */
  function Dropped(names: seq<string>): seq<string>
    requires |names| > MaxMultiSelect
  {
    names[MaxMultiSelect - 1..|names| - 1]
  }

  /** The note recording the names left out. */
  function Note(names: seq<string>): (n: string)
    requires |names| > MaxMultiSelect
    ensures NotePrefix <= n
  {
    NotePrefix + Join(Dropped(names), "; ")
  }

  /** `_make_author_list(authors)`: the display names, capped for Notion. */
  function AuthorList(authors: seq<Author>): (r: Result<seq<string>>)
    ensures r.Success? <==> DisplayNames(authors).Success?
    ensures r.Success? ==> |r.value| == if |authors| <= MaxMultiSelect then |authors| else MaxMultiSelect
    ensures r.Failure? ==> r.error == RuntimeError(NoAuthorName)
    ensures r.Success? && authors != [] ==> r.value[0] == DisplayNames(authors).value[0]
                                            && r.value[|r.value| - 1] == DisplayNames(authors).value[|authors| - 1]
  {
    var names :- DisplayNames(authors);
    Success(Capped(names))
  }

  /** The notes `_make_author_list` appends: one exactly when the list was capped. */
  function AuthorNotes(authors: seq<Author>): (notes: seq<string>)
    ensures |notes| <= 1
    ensures |notes| == 1 <==> DisplayNames(authors).Success? && |authors| > MaxMultiSelect
  {
    match DisplayNames(authors)
    case Success(names) => if |names| > MaxMultiSelect then [Note(names)] else []
    case Failure(_) => []
  }

  /** `info[key]`: the value, or `KeyError` when the record lacks the key. */
  function Required<T>(x: Option<T>, key: string): (r: Result<T>)
    ensures r.Success? <==> x.Some?
    ensures r.Success? ==> r.value == x.value
    ensures r.Failure? ==> r.error == KeyError(key)
  {
    if x.Some? then Success(x.value) else Failure(KeyError(key))
  }

  /** `s.split(' ')[-1]`. */
  function LastToken(s: string): (t: string)
    ensures ' ' !in t
    ensures ' ' !in s ==> t == s
  {
    var parts := Split(s, " ");
    SplitOnCharParts(s, " ", parts);
    assert ' ' !in s ==> parts == [s] by {
      if ' ' !in s {
        AbsentByChar(" ", s, ' ');
        SplitAbsent(s, " ", parts);
      }
    }
    parts[|parts| - 1]
  }

  /** `CROSSREF_TO_BIB.get(kind) or 'misc'`. */
  function EntryTypeOf(c: Config, kind: string): (t: string)
    ensures t != []
  {
    if kind in c.crossrefToBib && c.crossrefToBib[kind] != [] then c.crossrefToBib[kind] else "misc"
  }

  /** `propnames.get(key) or key`. */
  function Rename(propnames: map<string, string>, key: string): (r: string)
    ensures key !in propnames ==> r == key
    ensures r == key || r in propnames.Values
    ensures r == [] ==> key == []
    ensures key in propnames && propnames[key] == [] ==> r == key
    ensures r != key ==> key in propnames && r == propnames[key]
  {
    if key in propnames && propnames[key] != [] then propnames[key] else key
  }

  function StrOrNull(x: Option<string>): Value {
    if x.Some? then Str(x.value) else Null
  }

  function StrList(xs: seq<string>): Value {
    List(seq(|xs|, i requires 0 <= i < |xs| => Str(xs[i])))
  }

  /** One line of the `properties` dictionary before conversion: key, value and mode. */
  datatype Entry = Entry(key: string, value: Value, mode: string)

  /** One converted line: the key and what `to_notionprop` gave for it. */
  datatype Field = Field(key: string, prop: Option<Prop>)

  /** The fifteen lines of the `properties` dictionary, in order. */
  function Entries(info: Info, recordName: string, doi: string, authors: seq<string>, title: string,
                   year: int, journal: Option<string>, citekey: string, entryType: string): (es: seq<Entry>)
    requires authors != []
    ensures |es| == 15 && forall i | 0 <= i < |es| :: WellTyped(es[i])
  {
    [ Entry("Name", Str(recordName), "title"),
      Entry("doi", Str(doi), "rich_text"),
      Entry("edition", StrOrNull(info.editionNumber), "rich_text"),
      Entry("First", Str(authors[0]), "select"),
      Entry("author", StrList(authors), "multi_select"),
      Entry("title", Str(title), "rich_text"),
      Entry("year", Int(year), "number"),
      Entry("journal", StrOrNull(journal), "select"),
      Entry("volume", StrOrNull(info.volume), "rich_text"),
      Entry("Issue", StrOrNull(info.issue), "rich_text"),
      Entry("pages", StrOrNull(info.page), "rich_text"),
      Entry("publisher", StrOrNull(info.publisher), "select"),
      Entry("Subject", if info.subject.Some? then StrList(info.subject.value) else Null, "multi_select"),
      Entry("id", Str(citekey), "rich_text"),
      Entry("entrytype", Str(entryType), "select") ]
  }

  /** A line whose value is `None` or of the type its mode asserts. */
  predicate WellTyped(e: Entry) {
    || e.value.Null?
    || ((e.mode == "title" || e.mode == "select" || e.mode == "rich_text") && e.value.Str?)
    || (e.mode == "multi_select" && e.value.List?)
    || (e.mode == "number" && e.value.Int?)
  }

  /** Every line through `to_notionprop`, in order. */
  function Convert(es: seq<Entry>): (r: Result<seq<Field>>)
    ensures r.Success? ==> |r.value| == |es| && forall i | 0 <= i < |es| ::
              r.value[i].key == es[i].key && ToNotionProp(es[i].value, es[i].mode) == Success(r.value[i].prop)
    ensures (forall i | 0 <= i < |es| :: WellTyped(es[i])) ==> r.Success?
    decreases |es|
  {
    if es == [] then Success([])
    else
      var p :- ToNotionProp(es[0].value, es[0].mode);
      var rest :- Convert(es[1..]);
      assert forall i | 1 <= i < |es| :: es[1..][i - 1] == es[i];
      Success([Field(es[0].key, p)] + rest)
  }

  /** The dictionary comprehension: lines whose property is `None` are dropped, each key is
      renamed, and of two lines with the same new key the later one stays. */
  function Assemble(fields: seq<Field>, propnames: map<string, string>): (m: map<string, Prop>)
    ensures |m| <= |fields|
    decreases |fields|
  {
    if fields == [] then map[]
    else
      var n := |fields| - 1;
      var m := Assemble(fields[..n], propnames);
      if fields[n].prop.Some? then m[Rename(propnames, fields[n].key) := fields[n].prop.value] else m
  }

  /** The keys are exactly the renamed keys of the lines whose property is not `None`. */
  lemma {:induction false} AssembleKeys(fields: seq<Field>, propnames: map<string, string>)
    ensures forall k :: k in Assemble(fields, propnames) <==>
      exists i | 0 <= i < |fields| :: fields[i].prop.Some? && Rename(propnames, fields[i].key) == k
    decreases |fields|
  {
    if fields != [] {
      var n := |fields| - 1;
      AssembleKeys(fields[..n], propnames);
      assert forall i | 0 <= i < n :: fields[..n][i] == fields[i];
    }
  }

  /** A line that is not overridden by a later line with the same new key is what the
      dictionary holds under that key. */
  lemma {:induction false} AssembleValue(fields: seq<Field>, propnames: map<string, string>, i: nat)
    requires i < |fields| && fields[i].prop.Some?
    requires forall j | i < j < |fields| :: fields[j].prop.Some? ==> Rename(propnames, fields[j].key) != Rename(propnames, fields[i].key)
    ensures Rename(propnames, fields[i].key) in Assemble(fields, propnames)
    ensures Assemble(fields, propnames)[Rename(propnames, fields[i].key)] == fields[i].prop.value
    decreases |fields|
  {
    var n := |fields| - 1;
    var k := Rename(propnames, fields[i].key);
    if i < n {
      var init := fields[..n];
      assert init[i] == fields[i];
      forall j | i < j < n
        ensures init[j].prop.Some? ==> Rename(propnames, init[j].key) != k
      {
        assert init[j] == fields[j];
      }
      AssembleValue(init, propnames, i);
      AssembleKeep(fields, propnames, k);
    }
  }

  /** A key the last line does not write keeps what the earlier lines gave it. */
  lemma AssembleKeep(fields: seq<Field>, propnames: map<string, string>, k: string)
    requires fields != [] && k in Assemble(fields[..|fields| - 1], propnames)
    requires fields[|fields| - 1].prop.Some? ==> Rename(propnames, fields[|fields| - 1].key) != k
    ensures k in Assemble(fields, propnames)
    ensures Assemble(fields, propnames)[k] == Assemble(fields[..|fields| - 1], propnames)[k]
  {
  }

  /** What `_make_properties` reads from the record besides the authors. */
  datatype Looked = Looked(lastname: string, year: int, kind: string, title: string, journal: Option<string>, doi: string)

  /** The lookups of `_make_properties` after the author list, failing in the order the source
      makes them: the first author, `published`, its first date, `type`, `title` and its first
      entry, `container-title`, `DOI`. */
  function Lookups(info: Info, authors: seq<string>): (r: Result<Looked>)
    ensures r.Failure? ==> r.error.KeyError? || r.error.IndexError?
    ensures authors == [] ==> r == Failure(IndexError("list index out of range"))
    ensures r.Success? <==> && authors != []
                            && info.published.Some? && info.published.value != [] && info.published.value[0] != []
                            && info.kind.Some? && info.title.Some? && info.title.value != []
                            && info.containerTitle.Some? && info.doi.Some?
    ensures r.Success? ==> && r.value.lastname == LastToken(authors[0])
                           && r.value.year == info.published.value[0][0]
                           && r.value.kind == info.kind.value
                           && r.value.title == info.title.value[0]
                           && r.value.doi == info.doi.value
                           && r.value.journal == (var cs := info.containerTitle.value; if cs != [] then cs[0] else None)
  {
    if authors == [] then Failure(IndexError("list index out of range"))
    else
      var lastname := LastToken(authors[0]);
      var published :- Required(info.published, "published");
      if published == [] || published[0] == [] then Failure(IndexError("list index out of range"))
      else
        var kind :- Required(info.kind, "type");
        var titles :- Required(info.title, "title");
        if titles == [] then Failure(IndexError("list index out of range"))
        else
          var containers :- Required(info.containerTitle, "container-title");
          var journal := if containers != [] then containers[0] else None;
          var doi :- Required(info.doi, "DOI");
          Success(Looked(lastname, published[0][0], kind, titles[0], journal, doi))
  }

  /** The citation key of the page: `_make_citekey(first_author_lastname, info['title'][0], year)`. */
  function PageCitekey(c: Config, l: Looked): string
    requires Transliterates(c.unidecode)
  {
    Citekey.CiteKey(c, l.lastname, l.title, l.year)
  }

  /** The record name of the page: the first author's last name token and the year. */
  function RecordName(l: Looked): string {
    l.lastname + IntToString(l.year)
  }

  /** The fifteen lines for the record, every one of them well typed. */
  function PageEntries(c: Config, info: Info, authors: seq<string>, l: Looked): (es: seq<Entry>)
    requires Transliterates(c.unidecode) && authors != []
    ensures Convert(es).Success?
  {
    Entries(info, RecordName(l), l.doi, authors, l.title, l.year, l.journal, PageCitekey(c, l), EntryTypeOf(c, l.kind))
  }

  /** `_make_properties(info, propnames)` from the author list on. */
  function PropertiesFrom(c: Config, info: Info, propnames: map<string, string>, authors: seq<string>): (r: Result<map<string, Prop>>)
    requires Transliterates(c.unidecode)
    ensures r.Failure? ==> r.error.KeyError? || r.error.IndexError?
    ensures authors == [] ==> r == Failure(IndexError("list index out of range"))
  {
    var l :- Lookups(info, authors);
    Success(Assemble(Convert(PageEntries(c, info, authors, l)).value, propnames))
  }

  /** `_make_properties(info, propnames)`: the properties of the page, or the exception the
      source raises. */
  function Properties(c: Config, info: Info, propnames: map<string, string>): (r: Result<map<string, Prop>>)
    requires Transliterates(c.unidecode)
    ensures r.Failure? ==> r.error.KeyError? || r.error.IndexError? || r.error == RuntimeError(NoAuthorName)
    ensures info.author.None? ==> r == Failure(KeyError("author"))
    ensures info.author.Some? && info.author.value == [] ==> r == Failure(IndexError("list index out of range"))
  {
    var field :- Required(info.author, "author");
    var authors :- AuthorList(field);
    PropertiesFrom(c, info, propnames, authors)
  }

  /** The notes `_make_properties` leaves behind: those of the author list, when the record has
      one. */
  function NotesOf(info: Info): seq<string> {
    if info.author.Some? then AuthorNotes(info.author.value) else []
  }

  /** `from_bib`, `from_doi_jalc` and `from_doi` after their fetch: a fetch that raised raises. */
  function FromInfo(c: Config, fetched: Result<Info>, propnames: map<string, string>): Result<map<string, Prop>>
    requires Transliterates(c.unidecode)
  {
    var info :- fetched;
    Properties(c, info, propnames)
  }

  function NotesAfter(fetched: Result<Info>): seq<string> {
    if fetched.Success? then NotesOf(fetched.value) else []
  }

  /** `_fetch_info_from_doi(doi)`: `crossref` stands for what the Crossref API returns for a
      DOI, `None` when it does not know it. */
  function CrossrefInfo(doi: string, crossref: string -> Option<Info>): (r: Result<Info>)
    ensures r.Failure? <==> crossref(Replace(doi, "//", "/")).None?
    ensures r.Success? ==> r.value == crossref(Replace(doi, "//", "/")).value
  {
    var clean := Replace(doi, "//", "/");
    match crossref(clean)
    case None => Failure(Exception("Extracted DOI (" + clean + ") was not found."))
    case Some(info) => Success(info)
  }

  /** The source `from_doi` picks: arXiv when the DOI contains `arXiv`, Crossref otherwise. */
  function FetchDoi(doi: string, search: string -> seq<Arxiv.Paper>, crossref: string -> Option<Info>): (r: Result<Info>)
    ensures Find(doi, "arXiv").Some? ==> r == Arxiv.FetchInfo(doi, search)
    ensures Find(doi, "arXiv").None? ==> r == CrossrefInfo(doi, crossref)
  {
    if Find(doi, "arXiv").Some? then Arxiv.FetchInfo(doi, search) else CrossrefInfo(doi, crossref)
  }

  /** The capped list and the note together give back every name, in order, provided no name
      holds a `;`: the note's text after its prefix splits on `; ` into exactly the names left out. */
  lemma NoteRecovers(names: seq<string>)
    requires |names| > MaxMultiSelect
    requires forall i | 0 <= i < |names| :: ';' !in names[i]
    ensures Note(names)[..|NotePrefix|] == NotePrefix
    ensures var kept := Capped(names);
            kept[..MaxMultiSelect - 1] + Split(Note(names)[|NotePrefix|..], "; ") + [kept[MaxMultiSelect - 1]] == names
  {
    var dropped := Dropped(names);
    DroppedHaveNoSeparator(names);
    SplitJoin(dropped, "; ");
    PrefixAndRest(NotePrefix, Join(dropped, "; "));
    CappedAndDropped(names);
  }

  lemma DroppedHaveNoSeparator(names: seq<string>)
    requires |names| > MaxMultiSelect
    requires forall i | 0 <= i < |names| :: ';' !in names[i]
    ensures forall i | 0 <= i < |Dropped(names)| :: "; "[0] !in Dropped(names)[i]
  {
    var dropped := Dropped(names);
    forall i | 0 <= i < |dropped| ensures "; "[0] !in dropped[i] {
      assert dropped[i] == names[MaxMultiSelect - 1 + i];
    }
  }

  lemma PrefixAndRest(p: string, t: string)
    ensures (p + t)[..|p|] == p && (p + t)[|p|..] == t
  {
  }

  /** The kept names, the dropped ones and the last name make up the whole list. */
  lemma CappedAndDropped(names: seq<string>)
    requires |names| > MaxMultiSelect
    ensures var kept := Capped(names);
            kept[..MaxMultiSelect - 1] + Dropped(names) + [kept[MaxMultiSelect - 1]] == names
  {
    assert names == names[..MaxMultiSelect - 1] + Dropped(names) + [names[|names| - 1]];
  }

  /** The last space-separated token of `x + " " + f` is `f` when `f` holds no space. */
  lemma LastTokenAfterSpace(x: string, f: string)
    requires ' ' !in f
    ensures LastToken(x + " " + f) == f
  {
    assert [' '] == " ";
    LastPieceAfterChar(x, ' ', f, Split(x + " " + f, " "));
  }

  /** So when the first author has a given and a family name and the family name holds no
      space, the record name starts from that family name. */
  lemma FirstFamilyName(a: Author)
    requires Truthy(a.given) && Truthy(a.family) && ' ' !in a.family.value
    ensures LastToken(DisplayName(a).value) == a.family.value
  {
    LastTokenAfterSpace(a.given.value, a.family.value);
  }

  function FieldKeys(fields: seq<Field>): (keys: seq<string>)
    ensures |keys| == |fields| && forall j | 0 <= j < |fields| :: keys[j] == fields[j].key
  {
    seq(|fields|, j requires 0 <= j < |fields| => fields[j].key)
  }

  /** A line whose key no later line repeats is what the dictionary holds under that key, when
      nothing is renamed. */
  lemma AssembleDistinct(fields: seq<Field>, i: nat)
    requires i < |fields| && fields[i].prop.Some?
    requires fields[i].key !in FieldKeys(fields)[i + 1..]
    ensures fields[i].key in Assemble(fields, map[])
    ensures Assemble(fields, map[])[fields[i].key] == fields[i].prop.value
  {
    var keys := FieldKeys(fields);
    forall j | i < j < |fields| ensures fields[j].key != fields[i].key {
      assert keys[i + 1..][j - i - 1] == fields[j].key;
    }
    AssembleValue(fields, map[], i);
  }

  /** The property keys of a page, in the order the lines are written. */
  const KeyOrder: seq<string> :=
    ["Name", "doi", "edition", "First", "author", "title", "year", "journal", "volume", "Issue", "pages",
     "publisher", "Subject", "id", "entrytype"]

  /** The keys of the fifteen lines, as converted. */
  lemma ConvertedKeys(es: seq<Entry>, info: Info, recordName: string, doi: string, authors: seq<string>, title: string,
                      year: int, journal: Option<string>, citekey: string, entryType: string)
    requires authors != []
    requires es == Entries(info, recordName, doi, authors, title, year, journal, citekey, entryType)
    requires Convert(es).Success?
    ensures FieldKeys(Convert(es).value) == KeyOrder
  {
    EntryKeys(es, info, recordName, doi, authors, title, year, journal, citekey, entryType);
    KeysCarried(es, Convert(es).value, KeyOrder);
  }

  lemma EntryKeys(es: seq<Entry>, info: Info, recordName: string, doi: string, authors: seq<string>, title: string,
                  year: int, journal: Option<string>, citekey: string, entryType: string)
    requires authors != []
    requires es == Entries(info, recordName, doi, authors, title, year, journal, citekey, entryType)
    ensures |es| == |KeyOrder| && forall j | 0 <= j < |es| :: es[j].key == KeyOrder[j]
  {
  }

  /** Conversion keeps every line's key. */
  lemma KeysCarried(es: seq<Entry>, fields: seq<Field>, keys: seq<string>)
    requires Convert(es) == Success(fields)
    requires |es| == |keys| && forall j | 0 <= j < |es| :: es[j].key == keys[j]
    ensures FieldKeys(fields) == keys
  {
  }

  /** With no renaming, a successful call yields the record name as the title, the year as a
      number, the citation key as the `id` and the entry type as a select. */
  lemma PropertiesContent(c: Config, info: Info)
    requires Transliterates(c.unidecode)
    requires Properties(c, info, map[]).Success?
    ensures var m := Properties(c, info, map[]).value;
            var first := AuthorList(info.author.value).value[0];
            var year := info.published.value[0][0];
            var lastname := LastToken(first);
            && "Name" in m && m["Name"] == Title(lastname + IntToString(year))
            && "year" in m && m["year"] == Number(year)
            && "id" in m && m["id"] == RichText(Citekey.CiteKey(c, lastname, info.title.value[0], year))
            && "entrytype" in m && m["entrytype"] == Select(RemoveCommaFromString(EntryTypeOf(c, info.kind.value)))
  {
    var authors := AuthorList(info.author.value).value;
    assert Properties(c, info, map[]) == PropertiesFrom(c, info, map[], authors);
    var l := Lookups(info, authors).value;
    var es := PageEntries(c, info, authors, l);
    assert Properties(c, info, map[]).value == Assemble(Convert(es).value, map[]);
    EntriesContent(es, info, RecordName(l), l.doi, authors, l.title, l.year, l.journal, PageCitekey(c, l), EntryTypeOf(c, l.kind));
  }

  lemma EntriesContent(es: seq<Entry>, info: Info, recordName: string, doi: string, authors: seq<string>, title: string,
                       year: int, journal: Option<string>, citekey: string, entryType: string)
    requires authors != []
    requires es == Entries(info, recordName, doi, authors, title, year, journal, citekey, entryType)
    requires Convert(es).Success?
    ensures var m := Assemble(Convert(es).value, map[]);
            && "Name" in m && m["Name"] == Title(recordName)
            && "year" in m && m["year"] == Number(year)
            && "id" in m && m["id"] == RichText(citekey)
            && "entrytype" in m && m["entrytype"] == Select(RemoveCommaFromString(entryType))
  {
    var fields := Convert(es).value;
    ConvertedKeys(es, info, recordName, doi, authors, title, year, journal, citekey, entryType);
    LaterKeys();
    assert 14 < |es| && es[0] == Entry("Name", Str(recordName), "title") && es[6] == Entry("year", Int(year), "number")
           && es[13] == Entry("id", Str(citekey), "rich_text") && es[14] == Entry("entrytype", Str(entryType), "select");
    ConvertedProps(es, fields, recordName, year, citekey, entryType);
    AssembleAt(fields, 0, Title(recordName));
    AssembleAt(fields, 6, Number(year));
    AssembleAt(fields, 13, RichText(citekey));
    AssembleAt(fields, 14, Select(RemoveCommaFromString(entryType)));
  }

  /** What `to_notionprop` makes of the record name, the year, the citation key and the entry
      type. */
  lemma ConvertedProps(es: seq<Entry>, fields: seq<Field>, recordName: string, year: int, citekey: string, entryType: string)
    requires 14 < |es| && es[0] == Entry("Name", Str(recordName), "title") && es[6] == Entry("year", Int(year), "number")
    requires es[13] == Entry("id", Str(citekey), "rich_text") && es[14] == Entry("entrytype", Str(entryType), "select")
    requires |fields| == |es| && forall i | 0 <= i < |es| :: ToNotionProp(es[i].value, es[i].mode) == Success(fields[i].prop)
    ensures fields[0].prop == Some(Title(recordName)) && fields[6].prop == Some(Number(year))
    ensures fields[13].prop == Some(RichText(citekey)) && fields[14].prop == Some(Select(RemoveCommaFromString(entryType)))
  {
  }

  /** `Name`, `year`, `id` and `entrytype` are not written again by a later line. */
  lemma LaterKeys()
    ensures "Name" !in KeyOrder[1..] && "year" !in KeyOrder[7..] && "id" !in KeyOrder[14..]
    ensures KeyOrder[0] == "Name" && KeyOrder[6] == "year" && KeyOrder[13] == "id" && KeyOrder[14] == "entrytype"
  {
    NameNotLater();
    YearNotLater();
  }

  lemma NameNotLater()
    ensures "Name" !in KeyOrder[1..]
  {
  }

  lemma YearNotLater()
    ensures "year" !in KeyOrder[7..]
  {
  }

  lemma AssembleAt(fields: seq<Field>, i: nat, p: Prop)
    requires FieldKeys(fields) == KeyOrder && i < |KeyOrder| && KeyOrder[i] !in KeyOrder[i + 1..]
    requires fields[i].prop == Some(p)
    ensures KeyOrder[i] in Assemble(fields, map[]) && Assemble(fields, map[])[KeyOrder[i]] == p
  {
    AssembleDistinct(fields, i);
  }

  /** A DOI that mentions `arXiv` without the `arXiv.` the id is cut at goes to arXiv all the
      same, and fails there with `IndexError`. */
  lemma ArxivWithoutDot(doi: string, search: string -> seq<Arxiv.Paper>, crossref: string -> Option<Info>)
    requires Find(doi, "arXiv").Some? && '.' !in doi
    ensures FetchDoi(doi, search, crossref) == Failure(IndexError("list index out of range"))
  {
    Arxiv.NoArxivMarker(doi, search);
  }

  class NotionPropMaker {
    /** Remarks gathered while making properties, for the caller to show. */
    var notes: seq<string>

    constructor()
      ensures notes == []
    {
      notes := [];
    }

    /** `_make_author_list(authors)`: the loop over the authors, then the cap, appending a note
        when names were left out. An author without a name raises before any note. */
    method MakeAuthorList(authors: seq<Author>) returns (r: Result<seq<string>>)
      modifies this
      ensures r == AuthorList(authors)
      ensures notes == old(notes) + AuthorNotes(authors)
    {
      var names: seq<string> := [];
      for i := 0 to |authors|
        invariant DisplayNames(authors[..i]) == Success(names)
      {
        assert authors[..i + 1][..i] == authors[..i];
        var name := DisplayName(authors[i]);
        if name.Failure? {
          assert !DisplayName(authors[..i + 1][i]).Success?;
          assert DisplayNames(authors).Failure?;
          return name.PropagateFailure();
        }
        names := names + [name.value];
      }
      assert authors[..|authors|] == authors;
      if |names| > MaxMultiSelect {
        notes := notes + [Note(names)];
        names := names[..MaxMultiSelect - 1] + [names[|names| - 1]];
      }
      r := Success(names);
    }

    /** `_make_properties(info, propnames)`. */
    method MakeProperties(c: Config, info: Info, propnames: map<string, string>) returns (r: Result<map<string, Prop>>)
      requires Transliterates(c.unidecode)
      modifies this
      ensures r == Properties(c, info, propnames)
      ensures notes == old(notes) + NotesOf(info)
    {
      var field :- Required(info.author, "author");
      var authors :- MakeAuthorList(field);
      r := PropertiesFrom(c, info, propnames, authors);
    }

    /** `from_bib(bibtex_str, propnames)`. */
    method FromBib(c: Config, bibtex: string, propnames: map<string, string>) returns (r: Result<map<string, Prop>>)
      requires Transliterates(c.unidecode)
      modifies this
      ensures r == FromInfo(c, Bibtex.BibInfo(bibtex), propnames)
      ensures notes == old(notes) + NotesAfter(Bibtex.BibInfo(bibtex))
    {
      var info :- Bibtex.BibInfo(bibtex);
      r := MakeProperties(c, info, propnames);
    }

    /** `from_doi_jalc(doi, propnames)`, given the outcome of the JaLC request. */
    method FromDoiJalc(c: Config, doi: string, response: Jalc.Response, propnames: map<string, string>)
      returns (r: Result<map<string, Prop>>)
      requires Transliterates(c.unidecode)
      modifies this
      ensures r == FromInfo(c, Jalc.FetchInfo(doi, response), propnames)
      ensures notes == old(notes) + NotesAfter(Jalc.FetchInfo(doi, response))
    {
      var info :- Jalc.FetchInfo(doi, response);
      r := MakeProperties(c, info, propnames);
    }

    /** `from_doi(doi, propnames)`, given what arXiv and Crossref return. */
    method FromDoi(c: Config, doi: string, search: string -> seq<Arxiv.Paper>, crossref: string -> Option<Info>,
                   propnames: map<string, string>) returns (r: Result<map<string, Prop>>)
      requires Transliterates(c.unidecode)
      modifies this
      ensures r == FromInfo(c, FetchDoi(doi, search, crossref), propnames)
      ensures notes == old(notes) + NotesAfter(FetchDoi(doi, search, crossref))
    {
      var info :- FetchDoi(doi, search, crossref);
      r := MakeProperties(c, info, propnames);
    }
  }
}

/** The JaLC side of `_fetch_info_from_doi_jalc`: the response of the JaLC REST API turned into a
    Crossref-style record. The HTTP request itself is an input here. */
module Jalc {
  import opened Outcomes
  import opened PyStrings
  import opened Records

  /** An entry of `title_list` or `publisher_list`: its language and its text (`title` or
      `publisher_name`), which JSON may leave `null`. */
  datatype LangText = LangText(lang: string, text: Option<string>)

  /** An entry of `journal_title_name_list`. */
  datatype JournalTitle = JournalTitle(lang: string, kind: string, text: Option<string>)

  /** An entry of a creator's `names`: JaLC's `first_name` is the family name and `last_name`
      the given name. */
  datatype PersonName = PersonName(lang: string, firstName: Option<string>, lastName: Option<string>)

  /** An entry of `creator_list`. */
  datatype Creator = Creator(names: seq<PersonName>)

  /** The non-empty `data` object of the response. A list the object lacks is the empty list, a
      value it lacks is `None`. */
  datatype Meta = Meta(
    titleList: seq<LangText>,
    creatorList: seq<Creator>,
    date: Option<string>,
    journalTitles: seq<JournalTitle>,
    publisherList: seq<LangText>,
    firstPage: Option<string>,
    lastPage: Option<string>,
    articleType: Option<string>,
    volume: Option<string>,
    issue: Option<string>)

  /** The outcome of the HTTP request and of decoding its body. `Body(None)` is a body whose
      `data` is missing, `null` or the empty object. */
  datatype Response = HttpError | ConnectionError | InvalidJson | Body(data: Option<Meta>)

  /** `next((x for x in xs if p(x)), None)`: the first element that satisfies `p`. */
  function FirstWhere<T>(xs: seq<T>, p: T -> bool): (r: Option<T>)
    ensures r.None? ==> forall i | 0 <= i < |xs| :: !p(xs[i])
    ensures r.Some? ==> exists i | 0 <= i < |xs| :: xs[i] == r.value && p(xs[i]) && forall j | 0 <= j < i :: !p(xs[j])
  {
    if xs == [] then None
    else if p(xs[0]) then Some(xs[0])
    else
      var r := FirstWhere(xs[1..], p);
      assert r.Some? ==> exists i | 1 <= i < |xs| :: xs[i] == r.value && p(xs[i]) && forall j | 0 <= j < i :: !p(xs[j]) by {
        if r.Some? {
          var i :| 0 <= i < |xs[1..]| && xs[1..][i] == r.value && p(xs[1..][i]) && forall j | 0 <= j < i :: !p(xs[1..][j]);
          assert forall j | 1 <= j < i + 1 :: xs[j] == xs[1..][j - 1];
        }
      }
      r
  }

  /** The text of the first entry in language `lang`, or `None` when there is none or it is
      `null`. */
  function TextIn(xs: seq<LangText>, lang: string): Option<string> {
    match FirstWhere(xs, (t: LangText) => t.lang == lang)
    case None => None
    case Some(t) => t.text
  }

  /** Title and publisher: the Japanese text, and the English one when that is `None`. */
  function PreferJa(xs: seq<LangText>): (r: Option<string>)
    ensures TextIn(xs, "ja").Some? ==> r == TextIn(xs, "ja")
    ensures TextIn(xs, "ja").None? ==> r == TextIn(xs, "en")
  {
    var ja := TextIn(xs, "ja");
    if ja.Some? then ja else TextIn(xs, "en")
  }

  /** The container: the first full Japanese journal title, else the first full English one. */
  function JournalIn(xs: seq<JournalTitle>, lang: string): Option<string> {
    match FirstWhere(xs, (j: JournalTitle) => j.lang == lang && j.kind == "full")
    case None => None
    case Some(j) => j.text
  }

  function PreferJaJournal(xs: seq<JournalTitle>): (r: Option<string>)
    ensures JournalIn(xs, "ja").Some? ==> r == JournalIn(xs, "ja")
    ensures JournalIn(xs, "ja").None? ==> r == JournalIn(xs, "en")
  {
    var ja := JournalIn(xs, "ja");
    if ja.Some? then ja else JournalIn(xs, "en")
  }

  /** The name object of a creator: its first Japanese name, else its first English one. */
  function CreatorName(p: Creator): (r: Option<PersonName>)
    ensures r.Some? ==> r.value in p.names && (r.value.lang == "ja" || r.value.lang == "en")
  {
    var ja := FirstWhere(p.names, (n: PersonName) => n.lang == "ja");
    if ja.Some? then ja else FirstWhere(p.names, (n: PersonName) => n.lang == "en")
  }

  /** The record's author for one creator, with JaLC's names swapped into place; a creator
      with neither a Japanese nor an English name is skipped. */
  function CreatorAuthor(p: Creator): (r: Option<Author>)
    ensures r.Some? <==> CreatorName(p).Some?
    ensures r.Some? ==> r.value.family == CreatorName(p).value.firstName
                        && r.value.given == CreatorName(p).value.lastName && r.value.name.None?
  {
    match CreatorName(p)
    case None => None
    case Some(n) => Some(Author(n.lastName, n.firstName, None))
  }

  /** The authors of the creators that have a usable name, in order. */
  function JalcAuthors(creators: seq<Creator>): (r: seq<Author>)
    ensures |r| <= |creators|
    decreases |creators|
  {
    if creators == [] then []
    else
      var n := |creators| - 1;
      var a := CreatorAuthor(creators[n]);
      JalcAuthors(creators[..n]) + (if a.Some? then [a.value] else [])
  }

  /** `next(...)` stops at the first match: an element that satisfies the test, with none
      before it satisfying it, is what `FirstWhere` returns. */
  lemma FirstWhereAt<T>(xs: seq<T>, p: T -> bool, i: nat)
    requires i < |xs| && p(xs[i]) && forall j | 0 <= j < i :: !p(xs[j])
    ensures FirstWhere(xs, p) == Some(xs[i])
  {
    var r := FirstWhere(xs, p);
    assert r.Some?;
    var k :| 0 <= k < |xs| && xs[k] == r.value && p(xs[k]) && forall j | 0 <= j < k :: !p(xs[j]);
    assert k == i;
  }

  /** A creator's name object is its first Japanese name; with no Japanese name, its first
      English one; with neither, the creator has none. */
  lemma CreatorNameChoice(p: Creator)
    ensures forall i | 0 <= i < |p.names| && p.names[i].lang == "ja"
                       && (forall j | 0 <= j < i :: p.names[j].lang != "ja") ::
              CreatorName(p) == Some(p.names[i])
    ensures forall i | 0 <= i < |p.names| && p.names[i].lang == "en"
                       && (forall j | 0 <= j < |p.names| :: p.names[j].lang != "ja")
                       && (forall j | 0 <= j < i :: p.names[j].lang != "en") ::
              CreatorName(p) == Some(p.names[i])
    ensures CreatorName(p).None? <==> forall i | 0 <= i < |p.names| :: p.names[i].lang != "ja" && p.names[i].lang != "en"
  {
    var isJa := (n: PersonName) => n.lang == "ja";
    var isEn := (n: PersonName) => n.lang == "en";
    forall i | 0 <= i < |p.names| && p.names[i].lang == "ja" && (forall j | 0 <= j < i :: p.names[j].lang != "ja")
      ensures CreatorName(p) == Some(p.names[i])
    {
      FirstWhereAt(p.names, isJa, i);
    }
    forall i | 0 <= i < |p.names| && p.names[i].lang == "en"
               && (forall j | 0 <= j < |p.names| :: p.names[j].lang != "ja")
               && (forall j | 0 <= j < i :: p.names[j].lang != "en")
      ensures CreatorName(p) == Some(p.names[i])
    {
      FirstWhereAt(p.names, isEn, i);
    }
  }

  /** The container title: the first full Japanese title when it carries a text, otherwise the
      first full English title; abbreviated titles are never chosen. */
  lemma PreferJaJournalChoice(xs: seq<JournalTitle>)
    ensures forall i | 0 <= i < |xs| && xs[i].lang == "ja" && xs[i].kind == "full" && xs[i].text.Some?
                       && (forall j | 0 <= j < i :: !(xs[j].lang == "ja" && xs[j].kind == "full")) ::
              PreferJaJournal(xs) == xs[i].text
    ensures forall i | 0 <= i < |xs| && xs[i].lang == "en" && xs[i].kind == "full"
                       && (forall j | 0 <= j < |xs| :: !(xs[j].lang == "ja" && xs[j].kind == "full"))
                       && (forall j | 0 <= j < i :: !(xs[j].lang == "en" && xs[j].kind == "full")) ::
              PreferJaJournal(xs) == xs[i].text
    ensures PreferJaJournal(xs).Some? ==>
              exists i | 0 <= i < |xs| :: xs[i].text == PreferJaJournal(xs) && xs[i].kind == "full"
                                          && (xs[i].lang == "ja" || xs[i].lang == "en")
  {
    var isJa := (j: JournalTitle) => j.lang == "ja" && j.kind == "full";
    var isEn := (j: JournalTitle) => j.lang == "en" && j.kind == "full";
    forall i | 0 <= i < |xs| && xs[i].lang == "ja" && xs[i].kind == "full" && xs[i].text.Some?
               && (forall j | 0 <= j < i :: !(xs[j].lang == "ja" && xs[j].kind == "full"))
      ensures PreferJaJournal(xs) == xs[i].text
    {
      FirstWhereAt(xs, isJa, i);
    }
    forall i | 0 <= i < |xs| && xs[i].lang == "en" && xs[i].kind == "full"
               && (forall j | 0 <= j < |xs| :: !(xs[j].lang == "ja" && xs[j].kind == "full"))
               && (forall j | 0 <= j < i :: !(xs[j].lang == "en" && xs[j].kind == "full"))
      ensures PreferJaJournal(xs) == xs[i].text
    {
      FirstWhereAt(xs, isEn, i);
    }
  }

  /** The authors of consecutive creator lists are the authors of each list, one after the
      other. With `JalcAuthorsOne`, the record holds exactly one author per named creator, in
      the creators' order. */
  lemma {:induction false} JalcAuthorsAppend(a: seq<Creator>, b: seq<Creator>)
    ensures JalcAuthors(a + b) == JalcAuthors(a) + JalcAuthors(b)
    decreases |b|
  {
    if b == [] {
      assert a + b == a;
    } else {
      var n := |b| - 1;
      JalcAuthorsAppend(a, b[..n]);
      AppendStep(a, b, b[..n], b[n], a + b);
    }
  }

  lemma AppendStep(a: seq<Creator>, b: seq<Creator>, init: seq<Creator>, last: Creator, ab: seq<Creator>)
    requires b != [] && init == b[..|b| - 1] && last == b[|b| - 1] && ab == a + b
    requires JalcAuthors(a + init) == JalcAuthors(a) + JalcAuthors(init)
    ensures JalcAuthors(ab) == JalcAuthors(a) + JalcAuthors(b)
  {
    InitOfAppend(a, b, init, ab);
    JalcAuthorsSnoc(ab, a + init, last);
    JalcAuthorsSnoc(b, init, last);
    var t := if CreatorAuthor(last).Some? then [CreatorAuthor(last).value] else [];
    Regroup(JalcAuthors(ab), JalcAuthors(a), JalcAuthors(init), t, JalcAuthors(b));
  }

  lemma Regroup<T>(whole: seq<T>, x: seq<T>, y: seq<T>, t: seq<T>, right: seq<T>)
    requires whole == (x + y) + t && right == y + t
    ensures whole == x + right
  {
  }

  lemma InitOfAppend<T>(a: seq<T>, b: seq<T>, init: seq<T>, ab: seq<T>)
    requires b != [] && init == b[..|b| - 1] && ab == a + b
    ensures ab != [] && ab[..|ab| - 1] == a + init
  {
  }

  /** A single creator gives its author, or nothing when it has no usable name. */
  lemma JalcAuthorsOne(c: Creator)
    ensures JalcAuthors([c]) == (if CreatorName(c).Some? then [CreatorAuthor(c).value] else [])
  {
    JalcAuthorsSnoc([c], [], c);
  }

  lemma JalcAuthorsSnoc(cs: seq<Creator>, init: seq<Creator>, last: Creator)
    requires cs != [] && init == cs[..|cs| - 1] && last == cs[|cs| - 1]
    ensures JalcAuthors(cs) == JalcAuthors(init) + (if CreatorAuthor(last).Some? then [CreatorAuthor(last).value] else [])
  {
  }

  /** When every creator has a usable name, author `i` is creator `i`'s. */
  lemma {:induction false} JalcAuthorsAllNamed(creators: seq<Creator>)
    requires forall i | 0 <= i < |creators| :: CreatorName(creators[i]).Some?
    ensures |JalcAuthors(creators)| == |creators|
    ensures forall i | 0 <= i < |creators| :: JalcAuthors(creators)[i] == CreatorAuthor(creators[i]).value
    decreases |creators|
  {
    if creators != [] {
      var n := |creators| - 1;
      var init := creators[..n];
      JalcAuthorsAllNamed(init);
      JalcAuthorsSnoc(creators, init, creators[n]);
      var r := JalcAuthors(creators);
      assert r == JalcAuthors(init) + [CreatorAuthor(creators[n]).value];
      forall i | 0 <= i < |creators|
        ensures r[i] == CreatorAuthor(creators[i]).value
      {
        if i < n {
          assert r[i] == JalcAuthors(init)[i] && init[i] == creators[i];
        }
      }
    }
  }

  /** The author loop as the source runs it. */
  method CollectAuthors(creators: seq<Creator>) returns (authors: seq<Author>)
    ensures authors == JalcAuthors(creators)
  {
    authors := [];
    for i := 0 to |creators|
      invariant authors == JalcAuthors(creators[..i])
    {
      assert creators[..i + 1][..i] == creators[..i];
      var a := CreatorAuthor(creators[i]);
      if a.Some? {
        authors := authors + [a.value];
      }
    }
    assert creators[..|creators|] == creators;
  }

  predicate IsLeapYear(y: int) {
    y % 4 == 0 && (y % 100 != 0 || y % 400 == 0)
  }

  function DaysInMonth(y: int, m: int): int
    requires 1 <= m <= 12
  {
    if m == 2 then (if IsLeapYear(y) then 29 else 28)
    else if m == 4 || m == 6 || m == 9 || m == 11 then 30
    else 31
  }

  function DigitValue(c: char): int {
    c as int - '0' as int
  }

  /** The month field of `%m` followed by the `-` of the format: `1[0-2]`, `0[1-9]` or `[1-9]`.
      Returns the month and the position after the `-`. */
  function MatchMonth(s: string, i: nat): Option<(int, nat)> {
    if i + 2 < |s| && s[i] == '1' && '0' <= s[i + 1] <= '2' && s[i + 2] == '-' then
      Some((10 + DigitValue(s[i + 1]), i + 3))
    else if i + 2 < |s| && s[i] == '0' && '1' <= s[i + 1] <= '9' && s[i + 2] == '-' then
      Some((DigitValue(s[i + 1]), i + 3))
    else if i + 1 < |s| && '1' <= s[i] <= '9' && s[i + 1] == '-' then
      Some((DigitValue(s[i]), i + 2))
    else None
  }

  /** The day field of `%d`: the first of `3[01]`, `[12]\d`, `0[1-9]`, `[1-9]` and ` [1-9]` that
      matches. Returns the day and the position after it. */
  function MatchDay(s: string, i: nat): Option<(int, nat)> {
    if i + 1 < |s| && s[i] == '3' && '0' <= s[i + 1] <= '1' then Some((30 + DigitValue(s[i + 1]), i + 2))
    else if i + 1 < |s| && '1' <= s[i] <= '2' && IsDigit(s[i + 1]) then
      Some((10 * DigitValue(s[i]) + DigitValue(s[i + 1]), i + 2))
    else if i + 1 < |s| && s[i] == '0' && '1' <= s[i + 1] <= '9' then Some((DigitValue(s[i + 1]), i + 2))
    else if i < |s| && '1' <= s[i] <= '9' then Some((DigitValue(s[i]), i + 1))
    else if i + 1 < |s| && s[i] == ' ' && '1' <= s[i + 1] <= '9' then Some((DigitValue(s[i + 1]), i + 2))
    else None
  }

  /** The year field of `%Y`: exactly four digits. */
  function Year4(s: string): (y: int)
    requires |s| >= 4 && IsDigit(s[0]) && IsDigit(s[1]) && IsDigit(s[2]) && IsDigit(s[3])
    ensures 0 <= y <= 9999
  {
    1000 * DigitValue(s[0]) + 100 * DigitValue(s[1]) + 10 * DigitValue(s[2]) + DigitValue(s[3])
  }

  /** `datetime.strptime(s, "%Y-%m-%d")` as year, month and day, or `None` for the `ValueError`:
      four digits, `-`, the month, `-`, the day, nothing after it, and a date that exists. */
  function ParseDate(s: string): (r: Option<seq<int>>)
    ensures r.Some? ==> |r.value| == 3 && 1 <= r.value[0] <= 9999 && 1 <= r.value[1] <= 12
                        && 1 <= r.value[2] <= DaysInMonth(r.value[0], r.value[1])
  {
    if |s| < 5 || !(IsDigit(s[0]) && IsDigit(s[1]) && IsDigit(s[2]) && IsDigit(s[3])) || s[4] != '-' then None
    else
      var y := Year4(s);
      match MatchMonth(s, 5)
      case None => None
      case Some((m, i)) =>
        match MatchDay(s, i)
        case None => None
        case Some((d, j)) =>
          if j == |s| && 1 <= y && 1 <= m <= 12 && 1 <= d <= DaysInMonth(y, m) then Some([y, m, d]) else None
  }

  /** The page range: `first–last` with an en dash, `first` alone, or nothing. */
  function PageRange(first: Option<string>, last: Option<string>): (r: Option<string>)
    ensures first.Some? && first.value != [] && last.Some? && last.value != [] ==>
              r == Some(first.value + "\U{2013}" + last.value)
    ensures first.Some? && first.value != [] && !(last.Some? && last.value != []) ==> r == first
    ensures !(first.Some? && first.value != []) ==> r.None?
  {
    if first.Some? && first.value != [] && last.Some? && last.value != [] then
      Some(first.value + "\U{2013}" + last.value)
    else if first.Some? && first.value != [] then first
    else None
  }

  /** JaLC's `article_type` in Crossref's vocabulary. */
  const ArticleTypes: map<string, string> := map[
    "pub" := "journal-article",
    "dataset" := "dataset",
    "book" := "book",
    "conference-paper" := "proceedings-article",
    "poster" := "posted-content"]

  function CrossrefType(raw: Option<string>): (t: string)
    ensures raw.Some? && raw.value in ArticleTypes ==> t == ArticleTypes[raw.value]
    ensures !(raw.Some? && raw.value in ArticleTypes) ==> t == "article"
  {
    if raw.Some? && raw.value in ArticleTypes then ArticleTypes[raw.value] else "article"
  }

  /** `[x] if x else []`. */
  function ListIfTruthy(x: Option<string>): seq<string> {
    if x.Some? && x.value != [] then [x.value] else []
  }

  /** The record built from a non-empty `data` object; the keys whose value is `None` are
      dropped. */
  function JalcInfo(doi: string, meta: Meta): (info: Info)
    ensures info.doi == Some(doi) && info.kind.Some? && info.title.Some? && info.author.Some?
    ensures info.containerTitle.Some? && info.source == Some("jalc")
    ensures info.editor.None? && info.editionNumber.None? && info.subject.None?
  {
    var date := if meta.date.Some? then ParseDate(meta.date.value) else None;
    Info(
      doi := Some(doi),
      kind := Some(CrossrefType(meta.articleType)),
      title := Some(ListIfTruthy(PreferJa(meta.titleList))),
      author := Some(JalcAuthors(meta.creatorList)),
      editor := None,
      published := if date.Some? then Some([date.value]) else None,
      containerTitle := Some(
        var container := PreferJaJournal(meta.journalTitles);
        if container.Some? && container.value != [] then [container] else []),
      publisher := PreferJa(meta.publisherList),
      volume := meta.volume,
      issue := meta.issue,
      page := PageRange(meta.firstPage, meta.lastPage),
      editionNumber := None,
      subject := None,
      source := Some("jalc"))
  }

  /** `_fetch_info_from_doi_jalc(doi)` given the outcome of the request: transport and decoding
      failures, and a response without metadata, raise `Exception`. */
  function FetchInfo(doi: string, response: Response): (r: Result<Info>)
    ensures r.Failure? <==> !(response.Body? && response.data.Some?)
    ensures r.Failure? ==> r.error.Exception?
  {
    match response
    case HttpError => Failure(Exception("JaLC API HTTP error for DOI '" + doi + "'"))
    case ConnectionError => Failure(Exception("JaLC API connection error"))
    case InvalidJson => Failure(Exception("JaLC API returned invalid JSON for DOI '" + doi + "'."))
    case Body(None) => Failure(Exception("No metadata found in JaLC response for DOI '" + doi + "'."))
    case Body(Some(meta)) => Success(JalcInfo(doi, meta))
  }

  /** The preference order of title and publisher: the first Japanese entry when it carries a
      text, otherwise the first English entry; the text chosen belongs to an entry in one of
      the two languages. */
  lemma PreferJaChoice(xs: seq<LangText>)
    ensures var r := PreferJa(xs);
            r.Some? ==> exists i | 0 <= i < |xs| :: xs[i].text == r && (xs[i].lang == "ja" || xs[i].lang == "en")
    ensures (forall i | 0 <= i < |xs| :: xs[i].lang != "ja") ==> PreferJa(xs) == TextIn(xs, "en")
    ensures forall i | 0 <= i < |xs| :: xs[i].lang == "ja" && xs[i].text.Some? && (forall j | 0 <= j < i :: xs[j].lang != "ja")
              ==> PreferJa(xs) == xs[i].text
  {
    var isJa := (t: LangText) => t.lang == "ja";
    var isEn := (t: LangText) => t.lang == "en";
    var ja := FirstWhere(xs, isJa);
    var en := FirstWhere(xs, isEn);
    forall i | 0 <= i < |xs| && xs[i].lang == "ja" && xs[i].text.Some? && (forall j | 0 <= j < i :: xs[j].lang != "ja")
      ensures PreferJa(xs) == xs[i].text
    {
      assert ja.Some? by {
        assert isJa(xs[i]);
      }
      var k :| 0 <= k < |xs| && xs[k] == ja.value && isJa(xs[k]) && forall j | 0 <= j < k :: !isJa(xs[j]);
      assert isJa(xs[k]) && isJa(xs[i]);
      assert k == i;
    }
  }

  /** A JaLC author's family name is the chosen name object's `first_name`, and the given name
      its `last_name`. */
  lemma JalcNameSwap(creators: seq<Creator>)
    ensures forall a | a in JalcAuthors(creators) ::
              a.name.None? && exists p, n | p in creators && n in p.names :: a.family == n.firstName && a.given == n.lastName
    decreases |creators|
  {
    if creators != [] {
      var k := |creators| - 1;
      JalcNameSwap(creators[..k]);
      forall a | a in JalcAuthors(creators)
        ensures a.name.None? && exists p, n | p in creators && n in p.names :: a.family == n.firstName && a.given == n.lastName
      {
        if a in JalcAuthors(creators[..k]) {
          var p, n :| p in creators[..k] && n in p.names && a.family == n.firstName && a.given == n.lastName;
          assert p in creators;
        } else {
          var p := creators[k];
          var n := CreatorName(p).value;
          assert n in p.names;
        }
      }
    }
  }

  lemma YearDigits(y: int)
    requires 1000 <= y <= 9999
    ensures |NatToString(y)| == 4
    ensures forall i | 0 <= i < 4 :: IsDigit(NatToString(y)[i])
    ensures Year4(NatToString(y)) == y
  {
    var q1 := y / 10;
    var q2 := q1 / 10;
    var q3 := q2 / 10;
    FourDigits(y, q1, q2, q3);
    DigitCharValue(q3);
    DigitCharValue(q2 % 10);
    DigitCharValue(q1 % 10);
    DigitCharValue(y % 10);
    assert Year4(NatToString(y)) == 1000 * q3 + 100 * (q2 % 10) + 10 * (q1 % 10) + y % 10;
  }

  /** A four-digit number is written as its thousands, hundreds, tens and units digits. */
  lemma FourDigits(y: int, q1: int, q2: int, q3: int)
    requires 1000 <= y <= 9999 && q1 == y / 10 && q2 == q1 / 10 && q3 == q2 / 10
    ensures 1 <= q3 < 10
    ensures NatToString(y) == [DigitChar(q3), DigitChar(q2 % 10), DigitChar(q1 % 10), DigitChar(y % 10)]
    ensures 1000 * q3 + 100 * (q2 % 10) + 10 * (q1 % 10) + y % 10 == y
  {
    NatToStringSnoc(y);
    NatToStringSnoc(q1);
    NatToStringSnoc(q2);
  }

  lemma NatToStringSnoc(n: nat)
    requires n >= 10
    ensures NatToString(n) == NatToString(n / 10) + [DigitChar(n % 10)]
  {
  }

  lemma DigitCharValue(d: nat)
    requires d < 10
    ensures IsDigit(DigitChar(d)) && DigitValue(DigitChar(d)) == d
  {
  }

  lemma MonthDigits(s: string, i: nat, m: int)
    requires 1 <= m <= 12 && i + 3 <= |s| && s[i..i + 2] == TwoDigits(m) && s[i + 2] == '-'
    ensures MatchMonth(s, i) == Some((m, i + 3))
  {
    assert s[i] == TwoDigits(m)[0] && s[i + 1] == TwoDigits(m)[1];
  }

  lemma DayDigits(s: string, i: nat, d: int)
    requires 1 <= d <= 31 && i + 2 == |s| && s[i..] == TwoDigits(d)
    ensures MatchDay(s, i) == Some((d, i + 2))
  {
    assert s[i] == TwoDigits(d)[0] && s[i + 1] == TwoDigits(d)[1];
  }

  /** Dates in ISO form read back exactly. */
  lemma ParseDateIso(y: int, m: int, d: int)
    requires 1000 <= y <= 9999 && 1 <= m <= 12 && 1 <= d <= DaysInMonth(y, m)
    ensures ParseDate(NatToString(y) + "-" + TwoDigits(m) + "-" + TwoDigits(d)) == Some([y, m, d])
  {
    var ys := NatToString(y);
    YearDigits(y);
    var s := ys + "-" + TwoDigits(m) + "-" + TwoDigits(d);
    assert s[..4] == ys;
    assert s[4] == '-';
    assert Year4(s) == Year4(ys);
    MonthDigits(s, 5, m);
    DayDigits(s, 8, d);
  }

  /** A number below 100 written with two digits. */
  function TwoDigits(n: int): (s: string)
    requires 0 <= n < 100
    ensures |s| == 2 && IsDigit(s[0]) && IsDigit(s[1])
    ensures DigitValue(s[0]) * 10 + DigitValue(s[1]) == n
  {
    [DigitChar(n / 10), DigitChar(n % 10)]
  }
}

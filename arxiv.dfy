/** `_fetch_info_from_arxiv`: an arXiv DOI turned into a Crossref-style record, with the search
    on arXiv's API given as an input. */
module Arxiv {
  import opened Outcomes
  import opened PyStrings
  import opened Records

  /** The fields of an `arxiv.Result` the record is built from: the authors' display names, the
      publication date and the title. */
  datatype Paper = Paper(authors: seq<string>, year: int, month: int, day: int, title: string)

  /** The DOI with every `//` collapsed to `/`, as it is used from then on. */
  function CleanDoi(doi: string): (d: string)
    ensures !Occurs("//", doi) ==> d == doi
    ensures |d| <= |doi|
    ensures Occurs("//", doi) ==> |d| < |doi|
  {
    ReplaceNoLonger(doi, "//", "/");
    assert Occurs("//", doi) ==> |Replace(doi, "//", "/")| < |doi| by {
      if Occurs("//", doi) {
        ReplaceShorter(doi, "//", "/");
      }
    }
    assert !Occurs("//", doi) ==> Replace(doi, "//", "/") == doi by {
      if !Occurs("//", doi) {
        ReplaceAbsent(doi, "//", "/");
      }
    }
    Replace(doi, "//", "/")
  }

  /** `doi.split('arXiv.')[1]`: the text after the first `arXiv.` and up to a second one;
      `IndexError` when there is no `arXiv.` at all. */
  function ArxivId(doi: string): (r: Result<string>)
    ensures r.Failure? <==> !Occurs("arXiv.", doi)
    ensures r.Failure? ==> r.error.IndexError?
  {
    var parts := Split(doi, "arXiv.");
    if |parts| >= 2 then Success(parts[1]) else Failure(IndexError("list index out of range"))
  }

  /** One author: the last space-separated piece of the name is the family name, the pieces
      before it, joined by single spaces, the given name. */
  function AuthorOf(name: string): (a: Author)
    ensures a.name.None? && a.given.Some? && a.family.Some?
    ensures ' ' !in a.family.value
  {
    var parts := Split(name, " ");
    SplitOnCharParts(name, " ", parts);
    assert ' ' !in parts[|parts| - 1];
    Author(Some(Join(parts[..|parts| - 1], " ")), Some(parts[|parts| - 1]), None)
  }

  /** The `author` list, one entry per author of the paper, in order. */
  function AuthorsOf(names: seq<string>): (r: seq<Author>)
    ensures |r| == |names| && forall i | 0 <= i < |names| :: r[i] == AuthorOf(names[i])
  {
    seq(|names|, i requires 0 <= i < |names| => AuthorOf(names[i]))
  }

  /** The author loop as the source runs it. */
  method CollectAuthors(names: seq<string>) returns (authors: seq<Author>)
    ensures authors == AuthorsOf(names)
  {
    authors := [];
    for i := 0 to |names|
      invariant |authors| == i && forall j | 0 <= j < i :: authors[j] == AuthorOf(names[j])
    {
      authors := authors + [AuthorOf(names[i])];
    }
  }

  /** The record of a paper. */
  function PaperInfo(doi: string, paper: Paper): (info: Info)
    ensures info.author == Some(AuthorsOf(paper.authors))
    ensures info.published == Some([[paper.year, paper.month, paper.day]])
    ensures info.kind == Some("journal-article") && info.containerTitle == Some([Some("arXiv")])
    ensures info.title == Some([paper.title]) && info.doi == Some(doi)
  {
    EmptyInfo.(
      author := Some(AuthorsOf(paper.authors)),
      published := Some([[paper.year, paper.month, paper.day]]),
      kind := Some("journal-article"),
      title := Some([paper.title]),
      containerTitle := Some([Some("arXiv")]),
      doi := Some(doi))
  }

  /** `_fetch_info_from_arxiv(doi)`: `search` stands for the results arXiv returns for an id;
      `next` on none of them raises `StopIteration`. */
  function FetchInfo(doi: string, search: string -> seq<Paper>): (r: Result<Info>)
    ensures r.Failure? <==> !Occurs("arXiv.", CleanDoi(doi)) || search(ArxivId(CleanDoi(doi)).value) == []
    ensures r.Failure? ==> r.error.IndexError? || r.error == StopIteration
    ensures r.Success? ==> r == Success(PaperInfo(CleanDoi(doi), search(ArxivId(CleanDoi(doi)).value)[0]))
  {
    var clean := CleanDoi(doi);
    var id :- ArxivId(clean);
    var results := search(id);
    if results == [] then Failure(StopIteration)
    else Success(PaperInfo(clean, results[0]))
  }

  /** A name with a space is its given name, a space and its family name, and the family name
      holds no space; a name without one is all family name. */
  lemma AuthorOfReadBack(name: string)
    ensures var a := AuthorOf(name);
            && a.given.Some? && a.family.Some? && a.name.None?
            && ' ' !in a.family.value
            && (' ' in name ==> a.given.value + " " + a.family.value == name)
            && (' ' !in name ==> a.given.value == [] && a.family.value == name)
  {
    var parts := Split(name, " ");
    SplitOnChar(name, " ");
    assert ' ' !in parts[|parts| - 1];
    if ' ' in name {
      SpacedName(name, parts);
    } else {
      SplitOnceIsWhole(name, parts);
    }
  }

  lemma SpacedName(name: string, parts: seq<string>)
    requires ' ' in name && parts == Split(name, " ")
    ensures |parts| >= 2
    ensures Join(parts[..|parts| - 1], " ") + " " + parts[|parts| - 1] == name
  {
    SplitAtSpace(name, parts);
    var n := |parts| - 1;
    JoinSplit(name, " ");
    JoinSnoc(parts[..n], parts[n], " ");
    InitLast(parts);
  }

  lemma InitLast(parts: seq<string>)
    requires parts != []
    ensures parts[..|parts| - 1] + [parts[|parts| - 1]] == parts
  {
  }

  /** A name with a space splits into at least two pieces. */
  lemma SplitAtSpace(name: string, parts: seq<string>)
    requires ' ' in name && parts == Split(name, " ")
    ensures |parts| >= 2
  {
    SplitOnChar(name, " ");
    JoinSplit(name, " ");
    assert Join(parts[..1], " ") == parts[0] && ' ' !in parts[0];
    assert parts[..1] != parts;
  }

  lemma SplitOnceIsWhole(name: string, parts: seq<string>)
    requires ' ' !in name && parts == Split(name, " ")
    ensures parts == [name]
  {
    AbsentByChar(" ", name, ' ');
  }

  /** On a DOI without `//`, whose first `arXiv.` follows `prefix` and whose id after it holds no
      further `arXiv.`, the id is read back exactly. */
  lemma ArxivIdOf(prefix: string, id: string)
    requires forall j | 0 <= j < |prefix| :: !OccursAt("arXiv.", prefix + "arXiv." + id, j)
    requires !Occurs("arXiv.", id)
    requires !Occurs("//", prefix + "arXiv." + id)
    ensures CleanDoi(prefix + "arXiv." + id) == prefix + "arXiv." + id
    ensures ArxivId(CleanDoi(prefix + "arXiv." + id)) == Success(id)
  {
    var doi := prefix + "arXiv." + id;
    ReplaceAbsent(doi, "//", "/");
    assert doi[|prefix|..] == "arXiv." + id;
    assert OccursAt("arXiv.", doi, |prefix|);
    FindFirst(doi, "arXiv.", |prefix|);
    assert doi[|prefix| + 6..] == id;
    SplitAbsent(id, "arXiv.", Split(id, "arXiv."));
  }

  /** A prefix without the letter `a` holds no start of `arXiv.`. */
  lemma PrefixWithoutMarker(prefix: string, id: string)
    requires 'a' !in prefix
    ensures forall j | 0 <= j < |prefix| :: !OccursAt("arXiv.", prefix + "arXiv." + id, j)
  {
    var doi := prefix + "arXiv." + id;
    forall j | 0 <= j < |prefix| ensures !OccursAt("arXiv.", doi, j) {
      assert doi[j] == prefix[j] && prefix[j] in prefix;
      assert doi[j..][0] == doi[j];
    }
  }

  /** A text where no `/` is directly followed by another holds no `//`. */
  lemma NoDoubleSlash(s: string)
    requires forall i | 0 <= i < |s| - 1 :: s[i] == '/' ==> s[i + 1] != '/'
    ensures !Occurs("//", s)
  {
    forall i | 0 <= i <= |s| - 2 ensures !OccursAt("//", s, i) {
      assert s[i..][0] == s[i] && s[i..][1] == s[i + 1];
    }
  }

  /** Two slashes with text between them never make `//`. */
  lemma SlashesApart(p1: string, p2: string, p3: string, s: string)
    requires '/' !in p1 && '/' !in p2 && '/' !in p3 && p2 != [] && s == p1 + "/" + p2 + "/" + p3
    ensures !Occurs("//", s)
  {
    var n1, n2 := |p1|, |p1| + 1 + |p2|;
    forall i | 0 <= i < |s| - 1 ensures s[i] == '/' ==> s[i + 1] != '/' {
      if i < n1 {
        assert s[i] == p1[i] && p1[i] in p1;
      } else if i == n1 {
        assert s[i + 1] == p2[0] && p2[0] in p2;
      } else if i < n2 {
        assert s[i] == p2[i - n1 - 1] && p2[i - n1 - 1] in p2;
      } else if i == n2 {
        assert s[i + 1] == p3[0] && p3[0] in p3;
      } else {
        assert s[i] == p3[i - n2 - 1] && p3[i - n2 - 1] in p3;
      }
    }
    NoDoubleSlash(s);
  }

  /** A DOI whose id contains a slash reads back, slash included. */
  lemma ArxivIdWithSlash(doi: string)
    requires doi == "10.48550/arXiv.math/0501001"
    ensures ArxivId(CleanDoi(doi)) == Success("math/0501001")
  {
    var prefix, id := SlashExampleParts(doi);
    PrefixWithoutMarker(prefix, id);
    AbsentByChar("arXiv.", id, 'X');
    ArxivIdOf(prefix, id);
  }

  lemma SlashExampleParts(doi: string) returns (prefix: string, id: string)
    requires doi == "10.48550/arXiv.math/0501001"
    ensures doi == prefix + "arXiv." + id && id == "math/0501001"
    ensures 'a' !in prefix && 'X' in "arXiv." && 'X' !in id && !Occurs("//", doi)
  {
    prefix, id := "10.48550/", "math/0501001";
    assert doi == prefix + "arXiv." + id;
    SlashExampleClean(doi);
  }

  lemma SlashExampleClean(doi: string)
    requires doi == "10.48550/arXiv.math/0501001"
    ensures !Occurs("//", doi)
  {
    SlashesApart("10.48550", "arXiv.math", "0501001", doi);
  }

  /** A DOI without `arXiv.` fails with `IndexError` before any search. */
  lemma NoArxivMarker(doi: string, search: string -> seq<Paper>)
    requires '.' !in doi
    ensures FetchInfo(doi, search) == Failure(IndexError("list index out of range"))
  {
    ReplaceChars(doi, "//", "/");
    AbsentByChar("arXiv.", CleanDoi(doi), '.');
  }
}

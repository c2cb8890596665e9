/** The Crossref-style bibliographic record that every source is mapped to, and the constants the
    property maker consults. */
module Records {
  import opened Outcomes
  import opened PyStrings

  /** One entry of the record's `author` (or `editor`) list. A key that is missing and a key that
      holds `None` read the same through `dict.get`, so both are `None` here. */
  datatype Author = Author(given: Option<string>, family: Option<string>, name: Option<string>)

  /** The record (`doi_style_info`). Each field is `None` when the key is absent from the
      dictionary; the mappers drop `None` values, so for them absent and `None` coincide.
      `published` holds the `date-parts` list; a `container-title` entry can be `None` when a
      BibTeX `journal` is empty and there is no `booktitle`. */
  datatype Info = Info(
    doi: Option<string>,
    kind: Option<string>,                         // "type"
    title: Option<seq<string>>,
    author: Option<seq<Author>>,
    editor: Option<seq<Author>>,
    published: Option<seq<seq<int>>>,            // {"date-parts": ...}
    containerTitle: Option<seq<Option<string>>>,
    publisher: Option<string>,
    volume: Option<string>,
    issue: Option<string>,
    page: Option<string>,
    editionNumber: Option<string>,
    subject: Option<seq<string>>,
    source: Option<string>)                       // "_source"

  /** A record with every key absent. */
  const EmptyInfo := Info(None, None, None, None, None, None, None, None, None, None, None, None, None, None)

  /** The constants the property maker reads from the package's `const` module, and the
      transliteration it borrows from `unidecode`. */
  datatype Config = Config(
    crossrefToBib: map<string, string>,   // CROSSREF_TO_BIB
    skipWords: seq<string>,               // SKIPWORDS
    unidecode: string -> string)

  /** What the model relies on from `unidecode`: its output is ASCII, and ASCII text is returned
      unchanged. */
  ghost predicate Transliterates(f: string -> string) {
    forall s: string :: IsAscii(f(s)) && (IsAscii(s) ==> f(s) == s)
  }

  /** Stop words are single words: non-empty and without a space. */
  predicate ValidSkipWords(words: seq<string>) {
    forall i | 0 <= i < |words| :: words[i] != [] && ' ' !in words[i]
  }
}

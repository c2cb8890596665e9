# papnt property maker, in Dafny

papnt keeps a bibliography in a Notion database. Its `notionprop` module turns one paper into
the property dictionary of a Notion page. The paper can be given in three ways:

- a DOI, resolved through Crossref or, for arXiv DOIs, through arXiv's search;
- a DOI resolved through the Japan Link Center (JaLC);
- a BibTeX entry.

This project models that module. Each input is mapped to one Crossref-style record (`Info`). The
record becomes up to fifteen Notion properties (an entry whose value is `None` is dropped):

- a record name (first author's last name and year);
- the DOI, the authors and the title;
- a citation key in the Better BibTeX style (last name, short title, year);
- the remaining bibliographic fields.

Along the way, the maker collects notes about authors that were dropped because Notion accepts
at most 100 options in a multi-select.

Modules:

- `Outcomes`: `Option`, `Result` and the Python exceptions an operation can raise (`PyError`).
  An operation that raises in the source returns `Failure` here, carrying the exception's class
  and, where it matters, its message.
- `PyStrings`: the Python string operations the module relies on, with their laws:
  - `str.find`, `split`, `join` and `replace`;
  - `strip`, `str.split()` and `int()`;
  - `upper` and `lower`.
- `Records`:
  - the record `Info` and its `Author` entries;
  - `Config`, which holds the package constants `CROSSREF_TO_BIB` and `SKIPWORDS` and the
    `unidecode` transliteration.
- `NotionValue`: `to_notionprop`, including the in-place comma removal on lists.
- `Citekey`: `_make_citekey`, including `simplify` and the fixed-point loop of `make_shorttitle`.
- `Jalc`: `_fetch_info_from_doi_jalc` on a JaLC response, including the `strptime` date check.
- `Bibtex`: `_fetch_info_from_bib`. It covers the header pattern, the field search, the author
  and month parsing, and the record.
- `Arxiv`: `_fetch_info_from_arxiv` on the results of a search.
- `PropMaker`:
  - `_make_author_list` and `_make_properties`;
  - the dispatch of `from_doi`;
  - the class `NotionPropMaker`, whose `notes` list the methods extend.

Where the code and its documentation differ, the model follows the code. For example, the month
parser of the BibTeX reader refers to `calendar`, a module that `papnt/notionprop.py` never
imports. So a month written with letters ends in `NameError` (`ParseMonth`,
`LetterMonthRefusesEntry`). `IntendedParseMonth` is the reading the code evidently aims at. It
stands beside `ParseMonth` and is tied to it by `ParseMonthAgrees` and `MarchReads`; it reads
every month name, abbreviated or in full (`MonthAbbreviationReads`, `MonthNameReads`).

## Model

Functions without a row are sub-expressions of the members listed, with no contract of their
own:
- `PropMaker.RecordName` (notionprop.py:337), `PropMaker.PageCitekey` (340-341) and
  `PropMaker.Dropped` (379);
- `Bibtex.Or` (278, 283), `Bibtex.Capitalize` (259, 262) and `Jalc.ListIfTruthy` (196, 199);
- the stages of `simplify`: `Citekey.DashesToSpaces`, `Citekey.DropPossessives`,
  `Citekey.DropPunctuation` and `Citekey.DropSkipWords` (303-312).

They are covered through `PropMaker.PropertiesContent`, `PropMaker.NoteRecovers`, `Bibtex.Doi`,
`Bibtex.Container`, `Bibtex.MonthAbbreviationReads`, `Jalc.JalcInfo` and `Citekey.SimplifyTitle`.

| member | source | states |
|---|---|---|
| NotionValue.RemoveCommaFromString | papnt/notionprop.py:17-20 | every comma becomes `_`, every other character stays, the length is kept and no comma is left |
| NotionValue.RemoveCommaInPlace | papnt/notionprop.py:25-30 | rewrites the list in place: each string element loses its commas, other elements are untouched |
| NotionValue.ToNotionProp | papnt/notionprop.py:14-60 | `None` gives no property in every mode; other content succeeds exactly when it has the type its mode asserts (a date: a non-empty list whose first element is a string or a list), and an unknown mode is `ValueError('Invalid mode')`; title and rich text carry the string, select and multi-select the comma-free names, number the integer, date the joined text of the first element |
| NotionValue.DateText | papnt/notionprop.py:55-58 | a string or a list is joined by `-`, `None` or an integer raises `TypeError`; an empty one gives the empty text and a one-element list the text of that element |
| NotionValue.MultiSelectInPlace | papnt/notionprop.py:44-48 | the multi-select payload names the caller's own list after it was rewritten, and equals the value-level result |
| NotionValue.RemoveCommaIdempotent | papnt/notionprop.py:22-31 | removing commas twice equals removing them once, and the result is comma-free |
| NotionValue.DateOfNumbers | papnt/notionprop.py:55-58 | date parts of natural numbers give their decimal texts joined by `-`, and splitting on `-` recovers the texts |
| NotionValue.DatePartsReadBack | papnt/notionprop.py:57 | each decimal text of a date part parses back to that part |
| NotionValue.DateExamples | papnt/notionprop.py:55-58 | `[[2020, 3, 5]]` gives the start `2020-3-5` and `[[2020]]` gives `2020` |
| NotionValue.CommaExample | papnt/notionprop.py:37-43 | a title keeps its comma and a select replaces it by `_` |
| Citekey.Up | papnt/notionprop.py:295-300 | only the first character (the second after a leading space) is upper-cased; the length is kept |
| Citekey.ConvertLastnameShape | papnt/notionprop.py:291-293 | the lastname key is ASCII with no space and no upper-case letter; on ASCII names it is the name lower-cased with `_` and spaces removed |
| Citekey.SkipKeys | papnt/notionprop.py:309-312 | three non-empty search keys per stop word (as is, upper-cased, capitalised) |
| Citekey.SkipKeysPadded | papnt/notionprop.py:309-312 | every stop-word key is a single word padded by one space on each side |
| Citekey.ReplaceAll | papnt/notionprop.py:303-307 | the replacement loop equals replacing each key in turn |
| Citekey.DropSkipWordsLoop | papnt/notionprop.py:309-312 | the stop-word loop equals the three replacements per word in order |
| Citekey.SimplifyTitle | papnt/notionprop.py:302-313 | the `simplify` steps in order give `Simplify` |
| Citekey.SimplifyFacts | papnt/notionprop.py:302-313 | `simplify` returns ASCII without punctuation and never adds non-space characters to ASCII text |
| Citekey.SecondPass | papnt/notionprop.py:302-313 | on padded ASCII text without punctuation and stop words, `simplify` only adds one space on each side |
| Citekey.Fixpoint | papnt/notionprop.py:316-320 | the loop's result is ASCII and has no punctuation |
| Citekey.StableAtExit | papnt/notionprop.py:316-320 | when a pass on ASCII text removes nothing, the next pass removes nothing either |
| Citekey.FixpointStable | papnt/notionprop.py:316-320 | after the loop one more `simplify` removes nothing, for ASCII titles or when the first pass changes the number of non-space characters |
| Citekey.LoopStopsEarly | papnt/notionprop.py:316-320 | a non-ASCII title for which the loop stops while a further pass would still shorten it |
| Citekey.NonEmpty | papnt/notionprop.py:321 | the filter keeps only non-empty pieces, each one of the split's pieces |
| Citekey.NonEmptyAppend | papnt/notionprop.py:321 | filtering a concatenation is the concatenation of the filtered parts |
| Citekey.TitleWords | papnt/notionprop.py:321-325 | the words are the first three non-empty space-separated pieces of the text (all of them when there are fewer), in order, each through `up` |
| Citekey.TitleWordsOfWords | papnt/notionprop.py:321-325 | for a text of non-empty, space-free words with single spaces between them and one space on each side, the words are the first three of them, each through `up` |
| Citekey.TitleWordsShape | papnt/notionprop.py:322-325 | each kept word is non-empty, starts with no lower-case letter and holds only title characters |
| Citekey.ConvertLastname | papnt/notionprop.py:291-293 | the lastname key holds no space |
| Citekey.Simplify | papnt/notionprop.py:302-313 | the simplified title holds no punctuation |
| Citekey.ShortTitle | papnt/notionprop.py:315-325 | the short title is made only of ASCII characters that are neither spaces nor punctuation |
| Citekey.ShortTitleShape | papnt/notionprop.py:315-325 | the short title is made of at most three non-empty words, each starting with no lower-case letter |
| Citekey.ShortTitleOfWords | papnt/notionprop.py:314-325 | when the simplified title is such a text, the short title is the concatenation of its first three words, each through `up` |
| Citekey.MakeShortTitle | papnt/notionprop.py:315-325 | the `while True` loop and the join compute `ShortTitle` |
| Citekey.CiteKey | papnt/notionprop.py:327-330 | the key is ASCII, holds no space and ends with the year's decimal text |
| Citekey.MakeCitekey | papnt/notionprop.py:289-332 | the method computes `CiteKey` |
| Jalc.FirstWhere | papnt/notionprop.py:134 | `next(...)` over a generator: the first element satisfying the test, or none when no element does |
| Jalc.PreferJa | papnt/notionprop.py:133-136 | the Japanese text when there is one, otherwise the English text |
| Jalc.PreferJaChoice | papnt/notionprop.py:133-136 | the chosen text comes from a Japanese or English entry; with no Japanese entry the English one is used; the first Japanese text wins |
| Jalc.PreferJaJournal | papnt/notionprop.py:159-162 | the Japanese journal title when there is one, else the English one |
| Jalc.PreferJaJournalChoice | papnt/notionprop.py:159-162 | when the first full Japanese title has a text, that text is chosen; without a full Japanese title, the first full English title; a chosen text comes from a full Japanese or English entry |
| Jalc.FirstWhereAt | papnt/notionprop.py:134 | an element satisfying the test with none before it is the one `next(...)` returns |
| Jalc.CreatorName | papnt/notionprop.py:140-144 | the chosen name is one of the creator's names, in Japanese or English |
| Jalc.CreatorNameChoice | papnt/notionprop.py:140-144 | the first Japanese name wins; without one, the first English name; none exactly when the creator has no Japanese or English name |
| Jalc.CreatorAuthor | papnt/notionprop.py:139-148 | an author exactly when a name was chosen, with JaLC's first name as the family name and last name as the given name, and no literal name |
| Jalc.JalcAuthors | papnt/notionprop.py:139-148 | at most one author per creator |
| Jalc.JalcAuthorsOne | papnt/notionprop.py:139-148 | one creator gives its author when a name was chosen, else nothing |
| Jalc.JalcAuthorsAppend | papnt/notionprop.py:139-148 | the authors of two creator lists in a row are the authors of the first followed by those of the second |
| Jalc.JalcAuthorsAllNamed | papnt/notionprop.py:139-148 | when every creator has a Japanese or English name, author i is creator i's, one for one |
| Jalc.CollectAuthors | papnt/notionprop.py:139-148 | the author loop computes `JalcAuthors` |
| Jalc.JalcNameSwap | papnt/notionprop.py:145-148 | every author comes from a creator's name, with JaLC's first name as the family name and last name as the given name |
| Jalc.ParseDate | papnt/notionprop.py:150-156 | an accepted date is a year in 1..9999, a month in 1..12 and a day within that month |
| Jalc.ParseDateIso | papnt/notionprop.py:150-156 | every valid date written `YYYY-MM-DD` with a year from 1000 to 9999 is read back as its year, month and day |
| Jalc.YearDigits | papnt/notionprop.py:153 | a four-digit year is written in four digits and read back |
| Jalc.MonthDigits | papnt/notionprop.py:153 | a two-digit month followed by `-` is read back |
| Jalc.DayDigits | papnt/notionprop.py:153 | a two-digit day at the end is read back |
| Jalc.PageRange | papnt/notionprop.py:171-177 | both pages joined by an en dash, else the first page, else no page |
| Jalc.CrossrefType | papnt/notionprop.py:180-189 | the mapped article type, or `article` for an unmapped or missing one |
| Jalc.JalcInfo | papnt/notionprop.py:192-207 | the record carries the DOI, a type, title, author and container lists, the `jalc` source and no editor, edition or subject |
| Jalc.FetchInfo | papnt/notionprop.py:112-130 | fails with `Exception` exactly when the request failed or the response has no metadata |
| Bibtex.WordRun | papnt/notionprop.py:211 | the longest prefix of word characters |
| Bibtex.SpaceRun | papnt/notionprop.py:211 | the run stops before a non-space character or at the end |
| Bibtex.SpaceRunSpaces | papnt/notionprop.py:211 | every character of the run is whitespace, so the run is the longest whitespace prefix |
| Bibtex.EntryTypeMatch | papnt/notionprop.py:211 | a match is a non-empty run of word characters right after a leading `@` |
| Bibtex.HeaderEntryType | papnt/notionprop.py:211-212 | a header `@type {key,` gives the lower-cased type |
| Bibtex.HeaderParts | papnt/notionprop.py:211 | the pattern matches such a header with the type as its group |
| Bibtex.BraceKeyParts | papnt/notionprop.py:211 | spaces, a brace and a non-empty comma-free key followed by a comma satisfy the part of the header pattern after the type word |
| Bibtex.HeaderOf | papnt/notionprop.py:211 | `@`, a run of word characters ended by a non-word character, and that part give the run as group 1 |
| Bibtex.WordRunOf | papnt/notionprop.py:211 | a word followed by a non-word character is matched whole |
| Bibtex.SpaceRunOf | papnt/notionprop.py:211 | spaces followed by a non-space are matched whole |
| Bibtex.FindComma | papnt/notionprop.py:211 | the first comma after a comma-free key is the one that ends it |
| Bibtex.NoHeader | papnt/notionprop.py:211-220 | text not starting with `@` is of type `misc` and Crossref type `journal-article` |
| Bibtex.CrossrefType | papnt/notionprop.py:213-220 | the mapped Crossref type, or `journal-article` for any other entry type |
| Bibtex.EntryType | papnt/notionprop.py:211-212 | never empty; `misc` without a header; otherwise the header's word, lower-cased, with no upper-case letter left |
| Bibtex.LowerIgnoringCase | papnt/notionprop.py:212 | lower-casing keeps a word the same up to case and leaves no upper-case letter |
| Bibtex.CloseAt | papnt/notionprop.py:229 | the position found holds a `}` or `"` |
| Bibtex.CloseAtFirst | papnt/notionprop.py:229 | no `}` or `"` comes before it, and none is found only when there is none, so the lazy group ends at the first |
| Bibtex.ValueAt | papnt/notionprop.py:229 | the lazy group holds no `}` or `"` |
| Bibtex.MatchFieldAt | papnt/notionprop.py:229 | a match at a position starts with the field name up to case, and its group holds no `}` or `"` |
| Bibtex.SearchField | papnt/notionprop.py:229-230 | the value `re.search` finds holds no `}` or `"` (which position it comes from is stated by `Bibtex.SearchFieldLeftmost`) |
| Bibtex.SearchFieldLeftmost | papnt/notionprop.py:229-230 | `re.search` gives the match at the leftmost position where the pattern matches, or none when it matches nowhere |
| Bibtex.SearchFrom | papnt/notionprop.py:229-230 | the leftmost position from which the field pattern matches, or none when it matches nowhere |
| Bibtex.FieldsFound | papnt/notionprop.py:223-232 | only the field names looked up become keys |
| Bibtex.FieldsFoundSpec | papnt/notionprop.py:223-232 | for distinct names, a name is a key exactly when its search succeeds, and its value is the stripped group |
| Bibtex.FieldNamesDistinct | papnt/notionprop.py:224-228 | the thirteen field names are pairwise different |
| Bibtex.ExtractFields | papnt/notionprop.py:223-232 | the field loop computes `Fields` |
| Bibtex.Fields | papnt/notionprop.py:223-232 | the dictionary's keys are among the thirteen field names the source looks up |
| Bibtex.FieldsSpec | papnt/notionprop.py:223-232 | the keys are among the thirteen names; a field is present exactly when its pattern matches, and then holds the stripped group |
| Bibtex.TitleInsideBooktitle | papnt/notionprop.py:224-230 | wherever `booktitle` matches, `title` matches four characters later with the same value |
| Bibtex.NameSuffix | papnt/notionprop.py:229-230 | a field name matched without case at a position has each of its tails matched where the tail starts |
| Bibtex.BooktitleShadowsTitle | papnt/notionprop.py:224-232 | a `booktitle` before any `title` becomes the title |
| Bibtex.NameOf | papnt/notionprop.py:238-244 | a piece without words raises `IndexError` |
| Bibtex.NameOfReadBack | papnt/notionprop.py:238-244 | the last word is the family name; the others, joined by spaces, are the given name, which is empty for a single word |
| Bibtex.NamesOf | papnt/notionprop.py:235-245 | one author per piece in order, or `IndexError` exactly when some piece has no word |
| Bibtex.ParseAuthors | papnt/notionprop.py:235-245 | one author per `and`-separated piece, each that piece's name; `IndexError` exactly when some piece has no word |
| Bibtex.CollectNames | papnt/notionprop.py:237-245 | the loop over the pieces appends each name and stops at the first piece without a word, computing `NamesOf` |
| Bibtex.ParseAuthorsLoop | papnt/notionprop.py:235-245 | the author loop computes `ParseAuthors` |
| Bibtex.SandraSplits | papnt/notionprop.py:237-244 | splitting on `and` cuts `Sandra Smith` into the authors `S` and `ra Smith` |
| Bibtex.SandraPieces | papnt/notionprop.py:237-244 | the pieces `S` and `ra Smith` give those two authors |
| Bibtex.SingleWordPiece | papnt/notionprop.py:243 | a one-word piece is an empty given name and that word as family name |
| Bibtex.TwoWordPiece | papnt/notionprop.py:239-241 | a two-word piece is given name then family name |
| Bibtex.IndexFrom1 | papnt/notionprop.py:259-262 | `list.index` on the month tables: the first position holding the name |
| Bibtex.MonthByName | papnt/notionprop.py:258-262 | a month found by name is in 1..12 |
| Bibtex.Year | papnt/notionprop.py:248 | a year exactly when `year` is present and all digits, never negative |
| Bibtex.YearReadsBack | papnt/notionprop.py:248 | the decimal text of a year is read back as that year |
| Bibtex.MonthText | papnt/notionprop.py:249 | empty without `month`; otherwise stripped and with no upper-case letter |
| Bibtex.ParseMonth | papnt/notionprop.py:252-264 | an empty month gives no month; a non-empty one is its integer value, or `NameError('calendar')` exactly when it is not an integer |
| Bibtex.IntendedParseMonth | papnt/notionprop.py:252-264 | an empty month gives no month (month names: `Bibtex.MonthAbbreviationReads`, `Bibtex.MonthNameReads`) |
| Bibtex.LetterMonthIsNameError | papnt/notionprop.py:252-264 | a month containing a letter is not an integer and raises `NameError` |
| Bibtex.LetterMonthRefusesEntry | papnt/notionprop.py:249-266 | such a month makes the whole entry fail with `NameError` |
| Bibtex.NumericMonth | papnt/notionprop.py:255-256 | a decimal month is read as its number, in both readings |
| Bibtex.ParseMonthAgrees | papnt/notionprop.py:252-264 | wherever the month parser succeeds, it agrees with the intended reading |
| Bibtex.MonthAbbreviationReads | papnt/notionprop.py:251-260 | a month whose first three letters, capitalised, are the abbreviation of month i is month i as intended, for every i in 1..12, and raises `NameError` as written |
| Bibtex.MonthNameReads | papnt/notionprop.py:251-264 | a month that capitalises to the full name of month i is month i as intended, and raises `NameError` as written |
| Bibtex.MarchReads | papnt/notionprop.py:258-262 | `march` raises `NameError` as written and is month 3 as intended |
| Bibtex.DateParts | papnt/notionprop.py:266-269 | no part without a non-zero year; the month is added only with a non-zero year and month |
| Bibtex.Doi | papnt/notionprop.py:283 | a non-empty `doi`, else `url`, else the empty string |
| Bibtex.Get | papnt/notionprop.py:279-282 | `dict.get`: the value exactly when the key is present |
| Bibtex.Container | papnt/notionprop.py:278 | one entry when `journal` or `booktitle` is present, none otherwise; an empty journal falls back to `booktitle`, else `None` |
| Bibtex.InfoFromFields | papnt/notionprop.py:247-287 | succeeds exactly when the month and both author lists parse; then carries the DOI, title, container, date parts, authors and editors (empty lists when absent) and the plain fields; fails with `NameError` exactly when the month parser does, else `IndexError` |
| Bibtex.BibInfo | papnt/notionprop.py:209-287 | the record is `InfoFromFields` of the fields found in the entry, with the entry's type and source `bibtex`; it fails only with `NameError`, exactly when the month parser does, or with `IndexError` |
| Arxiv.ArxivId | papnt/notionprop.py:85 | `IndexError` exactly when the DOI holds no `arXiv.` |
| Arxiv.CleanDoi | papnt/notionprop.py:84 | a DOI without `//` is unchanged; otherwise the cleaned DOI is strictly shorter |
| Arxiv.ArxivIdOf | papnt/notionprop.py:84-85 | any text after the first `arXiv.` is read back exactly when it holds no second `arXiv.` and the DOI holds no `//`; slashes in the id are kept |
| Arxiv.PrefixWithoutMarker | papnt/notionprop.py:85 | a prefix without `a` holds no start of `arXiv.` |
| Arxiv.ArxivIdWithSlash | papnt/notionprop.py:84-85 | `10.48550/arXiv.math/0501001` gives the id `math/0501001` |
| Arxiv.NoArxivMarker | papnt/notionprop.py:84-85 | a DOI without `.` fails with `IndexError` before any search |
| Arxiv.AuthorsOf | papnt/notionprop.py:88-92 | one author per name, in order |
| Arxiv.CollectAuthors | papnt/notionprop.py:88-92 | the author loop computes `AuthorsOf` |
| Arxiv.AuthorOf | papnt/notionprop.py:91-92 | the author has a given and a family name and no literal name; the family name holds no space |
| Arxiv.AuthorOfReadBack | papnt/notionprop.py:91-92 | the family name is the last space-free piece; given name, space and family name give back the name |
| Arxiv.PaperInfo | papnt/notionprop.py:94-101 | authors, date parts, type, title, container `arXiv` and DOI of the record |
| Arxiv.FetchInfo | papnt/notionprop.py:83-101 | fails exactly when there is no `arXiv.` or the search finds nothing (`StopIteration`), else the record of the first result |
| PropMaker.DisplayName | papnt/notionprop.py:368-377 | `given family` when both are non-empty; the family name with `_` for spaces when there is no given name; else `name`; else `RuntimeError` |
| PropMaker.ReplaceSpacesKeepsLength | papnt/notionprop.py:373 | replacing spaces by `_` keeps the length |
| PropMaker.DisplayNames | papnt/notionprop.py:366-377 | one display name per author in order, or `RuntimeError` exactly when some author has none |
| PropMaker.Capped | papnt/notionprop.py:378-382 | up to 100 names are kept; beyond that the first 99 and the last |
| PropMaker.AuthorList | papnt/notionprop.py:364-383 | succeeds exactly when every author has a name; at most 100 names, keeping the first and the last |
| PropMaker.AuthorNotes | papnt/notionprop.py:378-382 | one note exactly when there are more than 100 named authors |
| PropMaker.Note | papnt/notionprop.py:379-382 | the note starts with its fixed prefix |
| PropMaker.NoteRecovers | papnt/notionprop.py:379-382 | the kept names and the note's `; `-separated list give back every name |
| PropMaker.LastTokenAfterSpace | papnt/notionprop.py:336 | the last space-separated token of `x f` is `f` |
| PropMaker.LastToken | papnt/notionprop.py:336 | the last token holds no space; a text without a space is its own last token |
| PropMaker.FirstFamilyName | papnt/notionprop.py:336 | the record name's last name is the first author's family name |
| PropMaker.Required | papnt/notionprop.py:335-337 | a missing key raises `KeyError` with that key |
| PropMaker.EntryTypeOf | papnt/notionprop.py:339 | the entry type is never empty (`misc` by default) |
| PropMaker.Lookups | papnt/notionprop.py:335-343 | the lookups fail with `KeyError` or `IndexError`, exactly when a needed key or element is missing; otherwise they return the last name, year, type, title, DOI and journal |
| PropMaker.Entries | papnt/notionprop.py:344-360 | fifteen properties, each value of the type its mode asserts |
| PropMaker.Convert | papnt/notionprop.py:344-360 | each property converted in order under its key; well-typed values never fail |
| PropMaker.PageEntries | papnt/notionprop.py:338-360 | every property of a page converts without error |
| PropMaker.ConvertedKeys | papnt/notionprop.py:344-360 | the property keys, in the source's order |
| PropMaker.Rename | papnt/notionprop.py:361 | a key without a renaming, or renamed to the empty string, stays; a new key that differs from the key is the key's own renaming; an empty new key only comes from an empty key |
| PropMaker.Assemble | papnt/notionprop.py:361-362 | the page has no more properties than there are lines |
| PropMaker.AssembleKeys | papnt/notionprop.py:361-362 | the keys are exactly the renamed keys of the non-`None` properties |
| PropMaker.AssembleValue | papnt/notionprop.py:361-362 | a property whose renamed key no later property takes keeps its value |
| PropMaker.AssembleDistinct | papnt/notionprop.py:361-362 | without renaming, a property whose key does not recur keeps its value |
| PropMaker.PropertiesFrom | papnt/notionprop.py:335-362 | failures are `KeyError` or `IndexError`; no authors is `IndexError` |
| PropMaker.Properties | papnt/notionprop.py:334-362 | failures are `KeyError`, `IndexError` or the author `RuntimeError`; no `author` key is `KeyError('author')` and an empty list `IndexError` |
| PropMaker.PropertiesContent | papnt/notionprop.py:336-360 | the page carries `Name` = last name + year, `year`, the citation key as `id` and the entry type |
| PropMaker.EntriesContent | papnt/notionprop.py:344-360 | the assembled page holds `Name`, `year`, `id` and `entrytype` with their values |
| PropMaker.CrossrefInfo | papnt/notionprop.py:103-110 | fails exactly when Crossref has no work for the cleaned DOI, else returns that work |
| PropMaker.FetchDoi | papnt/notionprop.py:67-71 | a DOI containing `arXiv` goes to arXiv, any other to Crossref |
| PropMaker.ArxivWithoutDot | papnt/notionprop.py:67-72 | a DOI with `arXiv` but no `.` fails with `IndexError` |
| PropMaker.NotionPropMaker.constructor | papnt/notionprop.py:64-65 | a new maker has no notes |
| PropMaker.NotionPropMaker.MakeAuthorList | papnt/notionprop.py:364-383 | returns `AuthorList` and appends `AuthorNotes` to the notes |
| PropMaker.NotionPropMaker.MakeProperties | papnt/notionprop.py:334-362 | returns `Properties` and appends that call's author note |
| PropMaker.NotionPropMaker.FromBib | papnt/notionprop.py:78-81 | the properties of the BibTeX record, with the notes extended accordingly |
| PropMaker.NotionPropMaker.FromDoiJalc | papnt/notionprop.py:74-76 | the properties of the JaLC record, with the notes extended accordingly |
| PropMaker.NotionPropMaker.FromDoi | papnt/notionprop.py:67-72 | the properties of the arXiv or Crossref record, with the notes extended accordingly |

## Left out

- Network access is not modelled: the HTTP request to JaLC, arXiv's search and Crossref's `works.doi` become inputs:
  - the JaLC request becomes a `Response` value (a failed request or body, or the decoded data);
  - arXiv's search becomes a function from an id to its results;
  - Crossref's lookup becomes a function from a DOI to an optional record.
  The second `works.doi` call is assumed to return what the first did.
- Crossref's JSON payload is taken as an already typed `Info`. Keys the properties do not read are not modelled, and neither are values of unexpected types (such as an integer `volume`).
- `unidecode` is a parameter of `Config`, known only to return ASCII and to leave ASCII unchanged (`Transliterates`).
- `papnt/const.py` is not part of this model. `CROSSREF_TO_BIB` and `SKIPWORDS` are parameters of `Config`. Stop words are assumed to be single words (`ValidSkipWords`).
- Letter case and character classes are ASCII only:
  - `lower`, `upper` and `capitalize`;
  - `re.IGNORECASE`;
  - `\w` and `str.isdigit`.
  Non-ASCII letters and digits are left as they are. `\s` and `str.split()` use Python's full whitespace set.
- `int()` is modelled on stripped text: an optional sign, then ASCII digits with single underscores between them. Non-ASCII digits are not modelled.
- The `number` mode of `to_notionprop` is modelled for integers only. Floats never reach it from the property maker.
- `str` of a list element that is a string containing a quote: `repr` escaping is not modelled.
- `print` in `from_bib` is output only and is left out.
- JaLC metadata values are taken as the strings, lists and optional fields the code reads. JSON `null` in `date` or in a name's `lang` is not modelled. `strptime` is modelled on ASCII digits in the `%Y-%m-%d` form.
- Python dictionaries become `map`s. The insertion order of the property dictionary is lost.
- `propnames` maps keys to strings. A key that is missing from it, or renamed to the empty string, stays as it is (`PropMaker.Rename`); renamings that are not strings are not modelled.
- Aliasing of the record's `subject` list is modelled only in `NotionValue.MultiSelectInPlace`. There, `remove_comma` rewrites the caller's list in place. `PropMaker` works on values, so the record it was given is not shown as changed afterwards.
- Citekey.FixpointStable: stated only for ASCII titles or titles whose first pass changes their number of non-space characters. `Citekey.LoopStopsEarly` shows a non-ASCII title for which the loop stops too early.
- Bibtex.BibInfo: keeps the `NameError` of a letter-written month, as the code raises it. The intended month table reading is `Bibtex.IntendedParseMonth`, which the record does not use.

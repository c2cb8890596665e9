/** `_make_citekey`: the BibTeX key `<lastname><ShortTitle><year>`. */
module Citekey {
  import opened Outcomes
  import opened PyStrings
  import opened Records

  /** How many title words the key keeps (`n_title`). */
  const NTitle := 3

  /** The hyphen `/`, the Unicode hyphen U+2010 and the em dash U+2014; not the minus. */
  const Dashes: seq<string> := ["/", "\U{2010}", "\U{2014}"]

  /** The possessive and contraction endings that are deleted. */
  const Possessives: seq<string> := ["'s", "'t", "'S", "'T"]

  /** Python's `string.punctuation`. */
  const Punctuation: string := "!\"#$%&'()*+,-./:;<=>?@[\\]^_`{|}~"

  /** `up`: upper-case the first character, or the second when the first is a space. */
  function Up(s: string): (u: string)
    ensures |u| == |s|
    ensures forall i | 0 <= i < |s| ::
              u[i] == (if i == (if |s| >= 2 && s[0] == ' ' then 1 else 0) then UpperChar(s[i]) else s[i])
  {
    if |s| < 2 then Upper(s)
    else if s[0] == ' ' then " " + [UpperChar(s[1])] + s[2..]
    else [UpperChar(s[0])] + s[1..]
  }

  /** `convert_lastname`: drop `_`, transliterate, lower-case, drop spaces. */
  function ConvertLastname(c: Config, lastname: string): (k: string)
    ensures ' ' !in k
  {
    var lowered := Lower(c.unidecode(Replace(lastname, "_", "")));
    ReplaceDeletes(lowered, ' ');
    assert [' '] == " ";
    Replace(lowered, " ", "")
  }

  /** An independent description of the same key part for ASCII names: the name lower-cased
      with every `_` and space deleted. */
  function LastnameKey(lastname: string): string {
    DeleteChars(Lower(lastname), "_ ")
  }

  /** Deleting one character with `replace` is `DeleteChars` with that character. */
  lemma {:induction false} ReplaceDeletes(s: string, k: char)
    ensures Replace(s, [k], "") == DeleteChars(s, [k])
    decreases |s|
  {
    if s != [] {
      ReplaceDeletes(s[1..], k);
      if [k] <= s {
        assert s[1..] == s[|[k]|..];
      }
    }
  }

  /** Lower-casing commutes with deleting characters that are not ASCII letters. */
  lemma {:induction false} LowerDeleteCommute(s: string, chars: string)
    requires forall i | 0 <= i < |chars| :: !IsAsciiLetter(chars[i])
    ensures Lower(DeleteChars(s, chars)) == DeleteChars(Lower(s), chars)
    decreases |s|
  {
    if s != [] {
      LowerDeleteCommute(s[1..], chars);
      var head: string := if s[0] in chars then [] else [s[0]];
      var rest := DeleteChars(s[1..], chars);
      LowerAppend(head, rest);
      LowerCharIn(s[0], chars);
      var ls := Lower(s);
      assert ls[0] == LowerChar(s[0]) && ls[1..] == Lower(s[1..]);
      assert Lower(head) == if s[0] in chars then [] else [LowerChar(s[0])];
    }
  }

  lemma LowerAppend(a: string, b: string)
    ensures Lower(a + b) == Lower(a) + Lower(b)
  {
  }

  /** Lower-casing a character neither adds it to nor removes it from a set of non-letters. */
  lemma LowerCharIn(c: char, chars: string)
    requires forall i | 0 <= i < |chars| :: !IsAsciiLetter(chars[i])
    ensures (LowerChar(c) in chars) == (c in chars)
  {
    if 'A' <= c <= 'Z' {
      assert IsAsciiLetter(c) && IsAsciiLetter(LowerChar(c));
    }
  }

  /** Deleting one set of characters, then another, is deleting both at once. */
  lemma {:induction false} DeleteTwice(s: string, a: string, b: string)
    ensures DeleteChars(DeleteChars(s, a), b) == DeleteChars(s, a + b)
    decreases |s|
  {
    if s != [] {
      DeleteTwice(s[1..], a, b);
      var once := DeleteChars(s[1..], a);
      var head: string := if s[0] in a then [] else [s[0]];
      DeleteCharsAppend(head, once, b);
    }
  }

  /** The lastname part of the key is lower-case ASCII without spaces; for an ASCII name it is
      the name lower-cased with `_` and spaces deleted. */
  lemma ConvertLastnameShape(c: Config, lastname: string)
    requires Transliterates(c.unidecode)
    ensures var k := ConvertLastname(c, lastname);
            && IsAscii(k)
            && ' ' !in k
            && (forall i | 0 <= i < |k| :: !('A' <= k[i] <= 'Z'))
            && (IsAscii(lastname) ==> k == LastnameKey(lastname))
  {
    ConvertedChars(c, lastname);
    if IsAscii(lastname) {
      AsciiLastname(c, lastname);
    }
  }

  lemma ConvertedChars(c: Config, lastname: string)
    requires Transliterates(c.unidecode)
    ensures var k := ConvertLastname(c, lastname);
            forall i | 0 <= i < |k| :: IsAsciiChar(k[i]) && k[i] != ' ' && !('A' <= k[i] <= 'Z')
  {
    var noUnderscore := Replace(lastname, "_", "");
    var lowered := Lower(c.unidecode(noUnderscore));
    ReplaceDeletes(lowered, ' ');
    var k := ConvertLastname(c, lastname);
    assert k == DeleteChars(lowered, " ");
    forall i | 0 <= i < |k| ensures IsAsciiChar(k[i]) && k[i] != ' ' && !('A' <= k[i] <= 'Z') {
      assert k[i] in lowered;
      var j :| 0 <= j < |lowered| && lowered[j] == k[i];
      assert IsAsciiChar(c.unidecode(noUnderscore)[j]);
    }
  }

  lemma AsciiLastname(c: Config, lastname: string)
    requires Transliterates(c.unidecode) && IsAscii(lastname)
    ensures ConvertLastname(c, lastname) == LastnameKey(lastname)
  {
    var noUnderscore := Replace(lastname, "_", "");
    ReplaceDeletes(lastname, '_');
    var lowered := Lower(c.unidecode(noUnderscore));
    ReplaceDeletes(lowered, ' ');
    assert IsAscii(noUnderscore) by {
      forall i | 0 <= i < |noUnderscore| ensures IsAsciiChar(noUnderscore[i]) {
        assert noUnderscore[i] in lastname;
      }
    }
    assert c.unidecode(noUnderscore) == noUnderscore;
    LowerDeleteCommute(lastname, "_");
    DeleteTwice(Lower(lastname), "_", " ");
    assert "_" + " " == "_ ";
  }

  /** The three stop-word forms `simplify` removes, in its order: the padded word, its
      upper-case form and its `up` form. */
  function SkipForms(w: string): seq<string> {
    var key := " " + w + " ";
    [key, Upper(key), Up(key)]
  }

  /** The replacement keys of the stop-word loop, for all stop words in order. */
  function SkipKeys(words: seq<string>): (keys: seq<string>)
    ensures |keys| == 3 * |words|
    ensures forall i | 0 <= i < |keys| :: keys[i] != []
    decreases |words|
  {
    if words == [] then [] else SkipKeys(words[..|words| - 1]) + SkipForms(words[|words| - 1])
  }

  /** The first stage of `simplify`: dashes become spaces. */
  function DashesToSpaces(t: string): string {
    ReplaceEach(t, Dashes, " ")
  }

  /** The second stage: transliterate, then pad with a space on each side. */
  function Pad(c: Config, t: string): string {
    " " + c.unidecode(t) + " "
  }

  /** The third stage: possessive and contraction endings are deleted. */
  function DropPossessives(t: string): string {
    ReplaceEach(t, Possessives, "")
  }

  /** The fourth stage: ASCII punctuation is deleted. */
  function DropPunctuation(t: string): string {
    DeleteChars(t, Punctuation)
  }

  /** The last stage: every form of every stop word becomes a single space. */
  function DropSkipWords(words: seq<string>, t: string): string {
    ReplaceEach(t, SkipKeys(words), " ")
  }

  /** `simplify(title)`: whatever the transliteration, no punctuation is left. */
  function Simplify(c: Config, title: string): (t: string)
    ensures forall i | 0 <= i < |t| :: t[i] !in Punctuation
  {
    var s3 := DropPossessives(Pad(c, DashesToSpaces(title)));
    PunctuationFacts(s3);
    SkipWordsFacts(c.skipWords, DropPunctuation(s3));
    DropSkipWords(c.skipWords, DropPunctuation(s3))
  }

  lemma {:induction false} ReplaceEachSnoc(s: string, keys: seq<string>, k: string, r: string)
    requires forall i | 0 <= i < |keys| :: keys[i] != []
    requires k != []
    ensures ReplaceEach(s, keys + [k], r) == Replace(ReplaceEach(s, keys, r), k, r)
  {
    assert (keys + [k])[..|keys|] == keys;
  }

  /** `for key in keys: t = t.replace(key, r)`. */
  method ReplaceAll(s: string, keys: seq<string>, r: string) returns (t: string)
    requires forall i | 0 <= i < |keys| :: keys[i] != []
    ensures t == ReplaceEach(s, keys, r)
  {
    t := s;
    for i := 0 to |keys|
      invariant t == ReplaceEach(s, keys[..i], r)
    {
      ReplaceEachSnoc(s, keys[..i], keys[i], r);
      assert keys[..i] + [keys[i]] == keys[..i + 1];
      t := Replace(t, keys[i], r);
    }
    assert keys[..|keys|] == keys;
  }

  /** The stop-word loop of `simplify`: three replacements per word. */
  method DropSkipWordsLoop(words: seq<string>, s: string) returns (t: string)
    ensures t == DropSkipWords(words, s)
  {
    t := s;
    for i := 0 to |words|
      invariant t == ReplaceEach(s, SkipKeys(words[..i]), " ")
    {
      var key := " " + words[i] + " ";
      SkipWordStep(s, words, i);
      t := Replace(t, key, " ");
      t := Replace(t, Upper(key), " ");
      t := Replace(t, Up(key), " ");
    }
    assert words[..|words|] == words;
  }

  /** One more stop word adds its three replacements, in order. */
  lemma SkipWordStep(s: string, words: seq<string>, i: nat)
    requires i < |words|
    ensures var key := " " + words[i] + " ";
            ReplaceEach(s, SkipKeys(words[..i + 1]), " ")
              == Replace(Replace(Replace(ReplaceEach(s, SkipKeys(words[..i]), " "), key, " "), Upper(key), " "), Up(key), " ")
  {
    var key := " " + words[i] + " ";
    var done := SkipKeys(words[..i]);
    assert words[..i + 1][..i] == words[..i];
    assert SkipKeys(words[..i + 1]) == done + [key] + [Upper(key)] + [Up(key)];
    ReplaceEachSnoc(s, done, key, " ");
    ReplaceEachSnoc(s, done + [key], Upper(key), " ");
    ReplaceEachSnoc(s, done + [key] + [Upper(key)], Up(key), " ");
  }

  /** `simplify` as the source runs it: each stage a loop that rebinds the title. */
  method SimplifyTitle(c: Config, title: string) returns (t: string)
    ensures t == Simplify(c, title)
  {
    t := ReplaceAll(title, Dashes, " ");
    t := " " + c.unidecode(t) + " ";
    t := ReplaceAll(t, Possessives, "");
    t := DeleteChars(t, Punctuation);
    t := DropSkipWordsLoop(c.skipWords, t);
  }

  lemma NonSpaceLenPad(s: string)
    ensures NonSpaceLen(" " + s + " ") == NonSpaceLen(s)
  {
    NonSpaceLenAppend(" ", s);
    NonSpaceLenAppend(" " + s, " ");
  }

  lemma NonSpaceLenPositive(s: string, i: nat)
    requires i < |s| && s[i] != ' '
    ensures NonSpaceLen(s) >= 1
  {
    assert s == s[..i] + s[i..];
    NonSpaceLenAppend(s[..i], s[i..]);
  }

  lemma DashesFacts(t: string)
    ensures IsAscii(t) ==> IsAscii(DashesToSpaces(t))
    ensures NonSpaceLen(DashesToSpaces(t)) <= NonSpaceLen(t)
    ensures NonSpaceLen(DashesToSpaces(t)) == NonSpaceLen(t) ==> DashesToSpaces(t) == t
  {
    assert forall i | 0 <= i < |Dashes| :: NonSpaceLen(Dashes[i]) == 1;
    ReplaceEachShrinks(t, Dashes, " ");
    if IsAscii(t) {
      ReplaceEachAscii(t, Dashes, " ");
    }
  }

  lemma PadFacts(c: Config, t: string)
    requires Transliterates(c.unidecode)
    ensures IsAscii(Pad(c, t))
    ensures IsAscii(t) ==> Pad(c, t) == " " + t + " " && NonSpaceLen(Pad(c, t)) == NonSpaceLen(t)
  {
    assert IsAscii(c.unidecode(t));
    NonSpaceLenPad(t);
  }

  lemma PossessivesFacts(t: string)
    ensures IsAscii(t) ==> IsAscii(DropPossessives(t))
    ensures NonSpaceLen(DropPossessives(t)) <= NonSpaceLen(t)
    ensures NonSpaceLen(DropPossessives(t)) == NonSpaceLen(t) ==> DropPossessives(t) == t
  {
    assert forall i | 0 <= i < |Possessives| :: NonSpaceLen(Possessives[i]) == 2;
    ReplaceEachShrinks(t, Possessives, "");
    if IsAscii(t) {
      ReplaceEachAscii(t, Possessives, "");
    }
  }

  lemma PunctuationFacts(t: string)
    ensures IsAscii(t) ==> IsAscii(DropPunctuation(t))
    ensures forall i | 0 <= i < |DropPunctuation(t)| :: DropPunctuation(t)[i] !in Punctuation
    ensures NonSpaceLen(DropPunctuation(t)) <= NonSpaceLen(t)
    ensures NonSpaceLen(DropPunctuation(t)) == NonSpaceLen(t) ==>
              DropPunctuation(t) == t && forall i | 0 <= i < |t| :: t[i] !in Punctuation
  {
    var u := DropPunctuation(t);
    forall i | 0 <= i < |u| ensures u[i] in t && u[i] !in Punctuation {
      assert u[i] in u;
    }
    if IsAscii(t) {
      forall i | 0 <= i < |u| ensures IsAsciiChar(u[i]) {
        var j :| 0 <= j < |t| && t[j] == u[i];
      }
    }
    DeleteCharsShrinks(t, Punctuation);
  }

  lemma SkipWordsFacts(words: seq<string>, t: string)
    ensures IsAscii(t) ==> IsAscii(DropSkipWords(words, t))
    ensures (forall i | 0 <= i < |t| :: t[i] !in Punctuation) ==>
              forall i | 0 <= i < |DropSkipWords(words, t)| :: DropSkipWords(words, t)[i] !in Punctuation
    ensures NonSpaceLen(DropSkipWords(words, t)) <= NonSpaceLen(t)
  {
    var keys := SkipKeys(words);
    var u := DropSkipWords(words, t);
    ReplaceEachChars(t, keys, " ");
    forall i | 0 <= i < |u| ensures u[i] == ' ' || exists j | 0 <= j < |t| :: t[j] == u[i] {
      assert u[i] in u;
    }
    assert ' ' !in Punctuation;
    ReplaceEachNoGrow(t, keys, " ");
  }

  /** Whatever the title, `simplify` returns ASCII text without punctuation; on ASCII text it
      never adds non-space characters. */
  lemma SimplifyFacts(c: Config, title: string)
    requires Transliterates(c.unidecode)
    ensures IsAscii(Simplify(c, title))
    ensures forall i | 0 <= i < |Simplify(c, title)| :: Simplify(c, title)[i] !in Punctuation
    ensures IsAscii(title) ==> NonSpaceLen(Simplify(c, title)) <= NonSpaceLen(title)
  {
    var s1 := DashesToSpaces(title);
    var s2 := Pad(c, s1);
    var s3 := DropPossessives(s2);
    var s4 := DropPunctuation(s3);
    var s5 := DropSkipWords(c.skipWords, s4);
    DashesFacts(title);
    PadFacts(c, s1);
    PossessivesFacts(s2);
    PunctuationFacts(s3);
    SkipWordsFacts(c.skipWords, s4);
  }

  /** The `while True` loop of `make_shorttitle`: simplify until a pass leaves the non-space
      length unchanged, and return the text that last pass produced. */
  function Fixpoint(c: Config, title: string): (t: string)
    requires Transliterates(c.unidecode)
    ensures IsAscii(t)
    ensures forall i | 0 <= i < |t| :: t[i] !in Punctuation
    decreases (if IsAscii(title) then 0 else 1), NonSpaceLen(title)
  {
    var next := Simplify(c, title);
    SimplifyFacts(c, title);
    if NonSpaceLen(title) == NonSpaceLen(next) then next else Fixpoint(c, next)
  }

  /** Up to `NTitle` capitalised non-empty space-separated words of the simplified title. */
  function TitleWords(t: string): (words: seq<string>)
    ensures |words| <= NTitle
    ensures var tokens := NonEmpty(Split(t, " "));
            |words| == (if |tokens| < NTitle then |tokens| else NTitle)
            && forall i | 0 <= i < |words| :: words[i] == Up(tokens[i])
  {
    var parts := Split(t, " ");
    var tokens := NonEmpty(parts);
    var capped := if |tokens| < NTitle then tokens else tokens[..NTitle];
    seq(|capped|, i requires 0 <= i < |capped| => Up(capped[i]))
  }

  /** `[t for t in parts if t]`. */
  function NonEmpty(parts: seq<string>): (r: seq<string>)
    ensures forall i | 0 <= i < |r| :: r[i] != [] && r[i] in parts
  {
    if parts == [] then []
    else (if parts[0] == [] then [] else [parts[0]]) + NonEmpty(parts[1..])
  }

  /** Filtering a concatenation filters each part. */
  lemma {:induction false} NonEmptyAppend(a: seq<string>, b: seq<string>)
    ensures NonEmpty(a + b) == NonEmpty(a) + NonEmpty(b)
    decreases |a|
  {
    if a == [] {
      assert a + b == b;
    } else {
      assert (a + b)[0] == a[0] && (a + b)[1..] == a[1..] + b;
      NonEmptyAppend(a[1..], b);
    }
  }

  /** A single piece is kept exactly when it is not empty. */
  lemma NonEmptyOne(p: string)
    ensures NonEmpty([p]) == if p == [] then [] else [p]
  {
    assert [p][1..] == [];
  }

  /** A list of non-empty words passes the filter unchanged. */
  lemma {:induction false} NonEmptyKeeps(ws: seq<string>)
    requires forall i | 0 <= i < |ws| :: ws[i] != []
    ensures NonEmpty(ws) == ws
    decreases |ws|
  {
    if ws != [] {
      NonEmptyKeeps(ws[1..]);
    }
  }

  /** The first `NTitle` words of `ws`, each through `up`. */
  function FirstUp(ws: seq<string>): (r: seq<string>)
    ensures |r| == if |ws| < NTitle then |ws| else NTitle
    ensures forall i | 0 <= i < |r| :: r[i] == Up(ws[i])
  {
    var n := if |ws| < NTitle then |ws| else NTitle;
    seq(n, i requires 0 <= i < n => Up(ws[i]))
  }

  /** The words of a text made of non-empty, space-free words with single spaces between them
      and one space on each side (the shape a simplified title takes): the first `NTitle` of
      them, each through `up`, in order. */
  lemma TitleWordsOfWords(ws: seq<string>)
    requires forall i | 0 <= i < |ws| :: ws[i] != [] && ' ' !in ws[i]
    ensures TitleWords(" " + Join(ws, " ") + " ") == FirstUp(ws)
  {
    PaddedTokens(ws, " " + Join(ws, " ") + " ");
  }

  /** When the simplified title is such a text, the short title is its first `NTitle` words,
      each through `up`, joined without a separator. */
  lemma ShortTitleOfWords(c: Config, title: string, ws: seq<string>)
    requires Transliterates(c.unidecode)
    requires forall i | 0 <= i < |ws| :: ws[i] != [] && ' ' !in ws[i]
    requires Fixpoint(c, title) == " " + Join(ws, " ") + " "
    ensures ShortTitle(c, title) == Concat(FirstUp(ws))
  {
    TitleWordsOfWords(ws);
  }

  /** The non-empty pieces of such a text are its words. */
  lemma PaddedTokens(ws: seq<string>, t: string)
    requires forall i | 0 <= i < |ws| :: ws[i] != [] && ' ' !in ws[i]
    requires t == " " + Join(ws, " ") + " "
    ensures NonEmpty(Split(t, " ")) == ws
  {
    var parts := if ws == [] then ["", "", ""] else [""] + ws + [""];
    if ws == [] {
      PaddedJoinEmpty(t);
    } else {
      PaddedJoin(ws, t, parts);
    }
    assert forall i | 0 <= i < |parts| :: ' ' !in parts[i];
    SplitJoin(parts, " ");
    PaddedFilter(ws, parts);
  }

  lemma PaddedJoinEmpty(t: string)
    requires t == " " + Join([], " ") + " "
    ensures Join(["", "", ""], " ") == t
  {
    var parts := ["", "", ""];
    assert Join(parts[2..], " ") == "";
    assert Join(parts[1..], " ") == " ";
  }

  lemma PaddedJoin(ws: seq<string>, t: string, parts: seq<string>)
    requires ws != [] && t == " " + Join(ws, " ") + " " && parts == [""] + ws + [""]
    ensures Join(parts, " ") == t
  {
    JoinCons("", ws + [""], " ");
    assert [""] + (ws + [""]) == parts;
    JoinSnoc(ws, "", " ");
  }

  lemma PaddedFilter(ws: seq<string>, parts: seq<string>)
    requires forall i | 0 <= i < |ws| :: ws[i] != []
    requires parts == if ws == [] then ["", "", ""] else [""] + ws + [""]
    ensures NonEmpty(parts) == ws
  {
    NonEmptyOne("");
    NonEmptyKeeps(ws);
    NonEmptyAppend([""] + ws, [""]);
    NonEmptyAppend([""], ws);
    assert ["", "", ""] == [""] + [""] + [""];
    NonEmptyAppend([""] + [""], [""]);
    NonEmptyAppend([""], [""]);
  }

  /** `make_shorttitle(title)`: only letters and digits are left. */
  function ShortTitle(c: Config, title: string): (short: string)
    requires Transliterates(c.unidecode)
    ensures forall i | 0 <= i < |short| :: TitleChar(short[i])
  {
    var words := TitleWords(Fixpoint(c, title));
    TitleWordsShape(Fixpoint(c, title));
    WordsOfTitleChars(words);
    Concat(words)
  }

  /** The `make_shorttitle` loop as the source runs it, proved to compute `ShortTitle`. */
  method MakeShortTitle(c: Config, title: string) returns (short: string)
    requires Transliterates(c.unidecode)
    ensures short == ShortTitle(c, title)
  {
    var t := title;
    while true
      invariant Fixpoint(c, t) == Fixpoint(c, title)
      decreases (if IsAscii(t) then 0 else 1), NonSpaceLen(t)
    {
      var lenBefore := |Replace(t, " ", "")|;
      var before := t;
      t := SimplifyTitle(c, t);
      SimplifyFacts(c, before);
      NonSpaceLenIsReplaceLen(before);
      NonSpaceLenIsReplaceLen(t);
      if lenBefore == |Replace(t, " ", "")| {
        assert t == Fixpoint(c, title);
        break;
      }
    }
    short := Concat(TitleWords(t));
  }

  /** `_make_citekey(lastname, title, year)`: the whole key is ASCII without spaces and ends
      with the year. */
  function CiteKey(c: Config, lastname: string, title: string, year: int): (key: string)
    requires Transliterates(c.unidecode)
    ensures IsAscii(key) && ' ' !in key
    ensures |IntToString(year)| <= |key| && key[|key| - |IntToString(year)|..] == IntToString(year)
  {
    var name := ConvertLastname(c, lastname);
    var short := ShortTitle(c, title);
    var y := IntToString(year);
    ConvertLastnameShape(c, lastname);
    TitleCharsClean(short);
    YearClean(year);
    CleanAppend(name, short);
    CleanAppend(name + short, y);
    SuffixOf(name + short, y);
    name + short + y
  }

  /** A padded stop-word form: a space, then a word without spaces, then a space. */
  predicate PaddedWord(k: string) {
    |k| >= 3 && k[0] == ' ' && k[|k| - 1] == ' ' && k[1] != ' ' && k[|k| - 2] != ' '
  }

  lemma SkipFormsPadded(w: string)
    requires w != [] && ' ' !in w
    ensures forall i | 0 <= i < 3 :: PaddedWord(SkipForms(w)[i])
  {
    var key := " " + w + " ";
    assert key[1] == w[0] && key[|key| - 2] == w[|w| - 1];
    assert w[|w| - 1] in w;
    UpperCharFacts(key[1]);
    UpperCharFacts(key[|key| - 2]);
  }

  lemma {:induction false} SkipKeysPadded(words: seq<string>)
    requires ValidSkipWords(words)
    ensures forall i | 0 <= i < |SkipKeys(words)| :: PaddedWord(SkipKeys(words)[i])
    decreases |words|
  {
    if words != [] {
      var n := |words| - 1;
      SkipKeysPadded(words[..n]);
      SkipFormsPadded(words[n]);
      var keys := SkipKeys(words);
      assert keys == SkipKeys(words[..n]) + SkipForms(words[n]);
      forall i | 0 <= i < |keys| ensures PaddedWord(keys[i]) {
        if i >= |SkipKeys(words[..n])| {
          assert keys[i] == SkipForms(words[n])[i - |SkipKeys(words[..n])|];
        }
      }
    }
  }

  /** Padding text that starts and ends with a space by one more space on each side creates no
      new occurrence of a padded word. */
  lemma PadAbsent(k: string, x: string)
    requires PaddedWord(k)
    requires x != [] && x[0] == ' ' && x[|x| - 1] == ' '
    requires !Occurs(k, x)
    ensures !Occurs(k, " " + x + " ")
  {
    var s := " " + x + " ";
    forall i | 0 <= i <= |s| - |k| ensures !OccursAt(k, s, i) {
      if i == 0 {
        assert s[i..][1] != k[1];
      } else if i + |k| == |s| {
        assert s[i..][|k| - 2] != k[|k| - 2];
      } else {
        assert !OccursAt(k, x, i - 1);
        assert s[i..][..|k|] == x[i - 1..][..|k|];
      }
    }
  }

  /** `x.translate(...)` of text with none of the characters is the text itself. */
  lemma {:induction false} DeleteCharsNone(s: string, chars: string)
    requires forall i | 0 <= i < |s| :: s[i] !in chars
    ensures DeleteChars(s, chars) == s
    decreases |s|
  {
    if s != [] {
      DeleteCharsNone(s[1..], chars);
    }
  }

  /** A simplify pass over padded ASCII text that holds no punctuation and no stop-word form
      only pads it once more. */
  lemma SecondPass(c: Config, x: string)
    requires Transliterates(c.unidecode) && ValidSkipWords(c.skipWords)
    requires IsAscii(x) && x != [] && x[0] == ' ' && x[|x| - 1] == ' '
    requires forall i | 0 <= i < |x| :: x[i] !in Punctuation
    requires forall i | 0 <= i < |SkipKeys(c.skipWords)| :: !Occurs(SkipKeys(c.skipWords)[i], x)
    ensures Simplify(c, x) == " " + x + " "
  {
    var keys := SkipKeys(c.skipWords);
    var padded := " " + x + " ";
    forall i | 0 <= i < |Dashes| ensures !Occurs(Dashes[i], x) {
      var d := Dashes[i][0];
      assert d in Dashes[i];
      forall j | 0 <= j < |x| ensures x[j] != d {
        assert IsAsciiChar(x[j]) && x[j] !in Punctuation;
      }
      AbsentByChar(Dashes[i], x, d);
    }
    ReplaceEachAbsent(x, Dashes, " ");
    assert Pad(c, x) == padded;
    forall j | 0 <= j < |padded| ensures padded[j] !in Punctuation {
      if 0 < j < |padded| - 1 {
        assert padded[j] == x[j - 1];
      }
    }
    forall i | 0 <= i < |Possessives| ensures !Occurs(Possessives[i], padded) {
      assert '\'' in Possessives[i];
      AbsentByChar(Possessives[i], padded, '\'');
    }
    ReplaceEachAbsent(padded, Possessives, "");
    DeleteCharsNone(padded, Punctuation);
    SkipKeysPadded(c.skipWords);
    forall i | 0 <= i < |keys| ensures !Occurs(keys[i], padded) {
      PadAbsent(keys[i], x);
    }
    ReplaceEachAbsent(padded, keys, " ");
  }

  /** Every stop-word key has more non-space characters than the single space replacing it. */
  lemma SkipKeysLonger(words: seq<string>)
    requires ValidSkipWords(words)
    ensures forall i | 0 <= i < |SkipKeys(words)| :: NonSpaceLen(" ") < NonSpaceLen(SkipKeys(words)[i])
  {
    var keys := SkipKeys(words);
    SkipKeysPadded(words);
    forall i | 0 <= i < |keys| ensures NonSpaceLen(" ") < NonSpaceLen(keys[i]) {
      NonSpaceLenPositive(keys[i], 1);
    }
  }

  /** A pass over ASCII text that removes nothing has changed nothing but the padding, and found
      no stop-word form. */
  lemma QuietPass(c: Config, before: string)
    requires Transliterates(c.unidecode) && ValidSkipWords(c.skipWords)
    requires IsAscii(before) && NonSpaceLen(Simplify(c, before)) == NonSpaceLen(before)
    ensures Simplify(c, before) == " " + before + " "
    ensures forall i | 0 <= i < |SkipKeys(c.skipWords)| :: !Occurs(SkipKeys(c.skipWords)[i], Simplify(c, before))
  {
    var s1 := DashesToSpaces(before);
    var s2 := Pad(c, s1);
    var s3 := DropPossessives(s2);
    var s4 := DropPunctuation(s3);
    DashesFacts(before);
    PadFacts(c, s1);
    PossessivesFacts(s2);
    PunctuationFacts(s3);
    SkipKeysLonger(c.skipWords);
    var after := DropSkipWords(c.skipWords, s4);
    assert after == Simplify(c, before);
    ReplaceEachShrinks(s4, SkipKeys(c.skipWords), " ");
    // Each stage removed nothing, so each left its input as it was.
    assert NonSpaceLen(after) <= NonSpaceLen(s4) <= NonSpaceLen(s3) <= NonSpaceLen(s2);
    assert NonSpaceLen(s2) == NonSpaceLen(s1) <= NonSpaceLen(before);
    assert NonSpaceLen(after) == NonSpaceLen(s4);
    assert s1 == before && s3 == s2 && s4 == s3;
  }

  /** When a pass over an ASCII title removes nothing, the next pass only pads the text with a
      space on each side: the loop has reached a true fixed point. */
  lemma StableAtExit(c: Config, before: string)
    requires Transliterates(c.unidecode) && ValidSkipWords(c.skipWords)
    requires IsAscii(before) && NonSpaceLen(Simplify(c, before)) == NonSpaceLen(before)
    ensures Simplify(c, Simplify(c, before)) == " " + Simplify(c, before) + " "
  {
    var after := Simplify(c, before);
    QuietPass(c, before);
    SimplifyFacts(c, before);
    assert after[0] == ' ' && after[|after| - 1] == ' ';
    SecondPass(c, after);
  }

  /** After the loop, one more `simplify` removes nothing: the loop's result is stable. This
      holds when the title is ASCII, or when the loop ran more than one pass (every pass after
      the first works on ASCII text). */
  lemma {:induction false} FixpointStable(c: Config, title: string)
    requires Transliterates(c.unidecode) && ValidSkipWords(c.skipWords)
    requires IsAscii(title) || NonSpaceLen(Simplify(c, title)) != NonSpaceLen(title)
    ensures Simplify(c, Fixpoint(c, title)) == " " + Fixpoint(c, title) + " "
    ensures NonSpaceLen(Simplify(c, Fixpoint(c, title))) == NonSpaceLen(Fixpoint(c, title))
    decreases (if IsAscii(title) then 0 else 1), NonSpaceLen(title)
  {
    var next := Simplify(c, title);
    SimplifyFacts(c, title);
    if NonSpaceLen(title) == NonSpaceLen(next) {
      StableAtExit(c, title);
    } else {
      FixpointStable(c, next);
    }
    NonSpaceLenPad(Fixpoint(c, title));
  }

  /** A character that may appear in a short title: ASCII, not a space, not punctuation. */
  predicate TitleChar(ch: char) {
    IsAsciiChar(ch) && ch != ' ' && ch !in Punctuation
  }

  lemma UpWord(w: string)
    requires w != [] && forall i | 0 <= i < |w| :: TitleChar(w[i])
    ensures Up(w) != [] && !('a' <= Up(w)[0] <= 'z')
    ensures forall i | 0 <= i < |Up(w)| :: TitleChar(Up(w)[i])
  {
    assert w[0] != ' ';
    UpperTitleChar(w[0]);
    var u := Up(w);
    forall i | 0 <= i < |u| ensures TitleChar(u[i]) {
      if i > 0 {
        assert u[i] == w[i];
      }
    }
  }

  /** Upper-casing keeps a title character one. */
  lemma UpperTitleChar(ch: char)
    requires TitleChar(ch)
    ensures TitleChar(UpperChar(ch))
  {
    if 'a' <= ch <= 'z' {
      CapitalNotPunctuation(UpperChar(ch));
    }
  }

  lemma CapitalNotPunctuation(ch: char)
    requires 'A' <= ch <= 'Z'
    ensures ch !in Punctuation
  {
  }

  /** The words of the short title: at most `NTitle`, each non-empty, starting with a character
      that is not a lower-case letter, and made of title characters only. */
  lemma TitleWordsShape(t: string)
    requires IsAscii(t) && forall i | 0 <= i < |t| :: t[i] !in Punctuation
    ensures var words := TitleWords(t);
            forall i | 0 <= i < |words| ::
              && words[i] != [] && !('a' <= words[i][0] <= 'z')
              && forall k | 0 <= k < |words[i]| :: TitleChar(words[i][k])
  {
    var parts := Split(t, " ");
    SplitOnChar(t, " ");
    var tokens := NonEmpty(parts);
    var capped := if |tokens| < NTitle then tokens else tokens[..NTitle];
    var words := TitleWords(t);
    forall i | 0 <= i < |words|
      ensures words[i] != [] && !('a' <= words[i][0] <= 'z')
      ensures forall k | 0 <= k < |words[i]| :: TitleChar(words[i][k])
    {
      var w := capped[i];
      assert w == tokens[i];
      assert w != [] && w in parts;
      var idx :| 0 <= idx < |parts| && parts[idx] == w;
      forall k | 0 <= k < |w| ensures TitleChar(w[k]) {
        assert w[k] in parts[idx];
        assert w[k] in t;
        var j :| 0 <= j < |t| && t[j] == w[k];
        assert IsAsciiChar(t[j]) && t[j] !in Punctuation;
        assert w[k] != ' ';
      }
      UpWord(w);
    }
  }

  /** The short title is made of at most `NTitle` non-empty words, each starting with a
      character that is not a lower-case letter. */
  lemma ShortTitleShape(c: Config, title: string)
    requires Transliterates(c.unidecode)
    ensures var words := TitleWords(Fixpoint(c, title));
            && |words| <= NTitle
            && forall i | 0 <= i < |words| :: words[i] != [] && !('a' <= words[i][0] <= 'z')
  {
    TitleWordsShape(Fixpoint(c, title));
  }

  /** Words made of title characters join into a text made of title characters. */
  lemma WordsOfTitleChars(words: seq<string>)
    requires forall i, k | 0 <= i < |words| && 0 <= k < |words[i]| :: TitleChar(words[i][k])
    ensures forall i | 0 <= i < |Concat(words)| :: TitleChar(Concat(words)[i])
  {
    var st := Concat(words);
    ConcatChars(words);
    forall i | 0 <= i < |st| ensures TitleChar(st[i]) {
      assert st[i] in st;
      var j :| 0 <= j < |words| && st[i] in words[j];
      var k :| 0 <= k < |words[j]| && words[j][k] == st[i];
    }
  }

  /** Two ASCII texts without a space join into one. */
  lemma CleanAppend(a: string, b: string)
    requires IsAscii(a) && ' ' !in a && IsAscii(b) && ' ' !in b
    ensures IsAscii(a + b) && ' ' !in a + b
  {
    forall i | 0 <= i < |a + b| ensures IsAsciiChar((a + b)[i]) {
      if i < |a| {
        assert (a + b)[i] == a[i];
      } else {
        assert (a + b)[i] == b[i - |a|];
      }
    }
  }

  lemma SuffixOf(a: string, b: string)
    ensures |b| <= |a + b| && (a + b)[|a + b| - |b|..] == b
  {
  }

  lemma TitleCharsClean(s: string)
    requires forall i | 0 <= i < |s| :: TitleChar(s[i])
    ensures IsAscii(s) && ' ' !in s
  {
  }

  /** The year as `str` prints it is ASCII without a space. */
  lemma YearClean(year: int)
    ensures IsAscii(IntToString(year)) && ' ' !in IntToString(year)
  {
    var n: nat := if year < 0 then -year else year;
    NatToStringRoundTrip(n);
    var y := IntToString(year);
    if year < 0 {
      assert y == "-" + NatToString(n);
      forall i | 0 <= i < |y| ensures IsDigit(y[i]) || y[i] == '-' {
        if i > 0 {
          assert y[i] == NatToString(n)[i - 1];
        }
      }
    }
  }

  /** `_make_citekey` as the source runs it, through the `make_shorttitle` loop. */
  method MakeCitekey(c: Config, lastname: string, title: string, year: int) returns (key: string)
    requires Transliterates(c.unidecode)
    ensures key == CiteKey(c, lastname, title, year)
  {
    var short := MakeShortTitle(c, title);
    key := ConvertLastname(c, lastname) + short + IntToString(year);
  }

  /** A transliteration in the manner of `unidecode`: ASCII is kept, `ß` is spelt `ss`, and any
      other character is dropped. */
  function SampleTransliteration(s: string): string {
    if s == [] then []
    else
      (if IsAsciiChar(s[0]) then [s[0]] else if s[0] == '\U{DF}' then "ss" else [])
      + SampleTransliteration(s[1..])
  }

  lemma {:induction false} SampleTransliterationFacts(s: string)
    ensures IsAscii(SampleTransliteration(s))
    ensures IsAscii(s) ==> SampleTransliteration(s) == s
    decreases |s|
  {
    if s != [] {
      SampleTransliterationFacts(s[1..]);
      if IsAscii(s) {
        assert IsAscii(s[1..]) by {
          forall i | 0 <= i < |s[1..]| ensures IsAsciiChar(s[1..][i]) {
            assert s[1..][i] == s[i + 1];
          }
        }
      }
    }
  }

  lemma SampleTransliterates()
    ensures Transliterates(SampleTransliteration)
  {
    forall s: string ensures IsAscii(SampleTransliteration(s)) && (IsAscii(s) ==> SampleTransliteration(s) == s) {
      SampleTransliterationFacts(s);
    }
  }

  /** A configuration with the single stop word `a` and `SampleTransliteration`. */
  const SampleConfig := Config(map[], ["a"], SampleTransliteration)

  lemma SampleKeys()
    ensures SkipKeys(SampleConfig.skipWords) == [" a ", " A ", " A "]
  {
    assert " " + "a" + " " == " a ";
    assert Upper(" a ") == " A ";
    assert Up(" a ") == " A ";
    assert ["a"][..0] == [];
  }

  /** Text without `/`, `'` and the two Unicode dashes passes the first and third stages
      unchanged. */
  lemma PlainStages(x: string)
    requires '/' !in x && '\'' !in x && '\U{2010}' !in x && '\U{2014}' !in x
    ensures DashesToSpaces(x) == x && DropPossessives(x) == x
  {
    forall i | 0 <= i < |Dashes| ensures !Occurs(Dashes[i], x) {
      AbsentByChar(Dashes[i], x, Dashes[i][0]);
    }
    ReplaceEachAbsent(x, Dashes, " ");
    forall i | 0 <= i < |Possessives| ensures !Occurs(Possessives[i], x) {
      AbsentByChar(Possessives[i], x, '\'');
    }
    ReplaceEachAbsent(x, Possessives, "");
  }

  /** The characters of the sample titles: the space, lower-case ASCII letters and `ß`. */
  predicate PlainChar(ch: char) {
    ch == ' ' || 'a' <= ch <= 'z' || ch == '\U{DF}'
  }

  lemma PlainCharFacts(ch: char)
    requires PlainChar(ch)
    ensures ch !in Punctuation && ch != '/' && ch != '\'' && ch != '\U{2010}' && ch != '\U{2014}'
  {
    if 'a' <= ch <= 'z' {
      SmallNotPunctuation(ch);
    } else {
      OtherPlainNotPunctuation(ch);
    }
  }

  lemma SmallNotPunctuation(ch: char)
    requires 'a' <= ch <= 'z'
    ensures ch !in Punctuation
  {
  }

  lemma OtherPlainNotPunctuation(ch: char)
    requires ch == ' ' || ch == '\U{DF}'
    ensures ch !in Punctuation
  {
  }

  /** Text made of plain characters passes the first, third and fourth stages unchanged. */
  lemma PlainText(x: string)
    requires forall i | 0 <= i < |x| :: PlainChar(x[i])
    ensures DashesToSpaces(x) == x && DropPossessives(x) == x && DropPunctuation(x) == x
  {
    forall i | 0 <= i < |x|
      ensures x[i] !in Punctuation && x[i] != '/' && x[i] != '\'' && x[i] != '\U{2010}' && x[i] != '\U{2014}'
    {
      PlainCharFacts(x[i]);
    }
    PlainStages(x);
    DeleteCharsNone(x, Punctuation);
  }

  /** The sample texts are made of plain characters. */
  lemma PlainSample(x: string)
    requires x == "\U{DF} a a" || x == " ss a a " || x == " ss a " || x == "  ss a  "
    ensures DashesToSpaces(x) == x && DropPossessives(x) == x && DropPunctuation(x) == x
  {
    PlainText(x);
  }

  lemma SamplePad()
    ensures Pad(SampleConfig, "\U{DF} a a") == " ss a a "
  {
    assert SampleTransliteration("a") == "a";
    assert SampleTransliteration(" a") == " a";
    assert SampleTransliteration("a a") == "a a";
    assert SampleTransliteration(" a a") == " a a";
    assert SampleTransliteration("\U{DF} a a") == "ss a a";
  }

  lemma SampleStopWords()
    ensures DropSkipWords(SampleConfig.skipWords, " ss a a ") == " ss a "
  {
    SampleKeys();
    SampleFirstKey();
    SampleNoUpper();
    ReplaceEachSnoc(" ss a a ", [], " a ", " ");
    ReplaceEachSnoc(" ss a a ", [" a "], " A ", " ");
    ReplaceEachSnoc(" ss a a ", [" a ", " A "], " A ", " ");
    assert [] + [" a "] == [" a "];
    assert [" a "] + [" A "] == [" a ", " A "];
    assert [" a ", " A "] + [" A "] == [" a ", " A ", " A "];
  }

  lemma SampleNoUpper()
    ensures Replace(" ss a ", " A ", " ") == " ss a "
  {
    AbsentByChar(" A ", " ss a ", 'A');
    ReplaceAbsent(" ss a ", " A ", " ");
  }

  /** Only the first of the two overlapping ` a ` is replaced. */
  lemma SampleFirstKey()
    ensures Replace(" ss a a ", " a ", " ") == " ss a "
  {
    SampleOverlap();
    ReplaceNoMatch("s a a ", " a ", " ", 0);
    assert "s a a "[1..] == " a a ";
    ReplaceNoMatch("ss a a ", " a ", " ", 0);
    assert "ss a a "[1..] == "s a a ";
    ReplaceNoMatch(" ss a a ", " a ", " ", 1);
    assert " ss a a "[1..] == "ss a a ";
  }

  lemma SampleOverlap()
    ensures Replace(" a a ", " a ", " ") == " a "
  {
    assert Replace(" ", " a ", " ") == " ";
    assert Replace("a ", " a ", " ") == "a ";
  }

  lemma SampleEarlyStages(title: string)
    requires title == "\U{DF} a a"
    ensures DropPossessives(Pad(SampleConfig, DashesToSpaces(title))) == " ss a a "
  {
    PlainSample(title);
    SamplePad();
    PlainSample(" ss a a ");
  }

  lemma SampleLateStages(s: string)
    requires s == " ss a a "
    ensures DropSkipWords(SampleConfig.skipWords, DropPunctuation(s)) == " ss a "
  {
    PlainSample(s);
    SampleStopWords();
  }

  lemma SampleFirstPass(title: string)
    requires title == "\U{DF} a a"
    ensures Simplify(SampleConfig, title) == " ss a "
  {
    SampleEarlyStages(title);
    SampleLateStages(DropPossessives(Pad(SampleConfig, DashesToSpaces(title))));
  }

  lemma SamplePadAgain(x: string)
    requires x == " ss a "
    ensures Pad(SampleConfig, DashesToSpaces(x)) == "  ss a  "
  {
    PlainSample(x);
    SampleAscii(x);
    SampleTransliterates();
    PadFacts(SampleConfig, x);
    SampleRepad(x);
  }

  lemma SampleRepad(x: string)
    requires x == " ss a "
    ensures " " + x + " " == "  ss a  "
  {
  }

  lemma SampleAscii(x: string)
    requires x == " ss a "
    ensures IsAscii(x)
  {
  }

  lemma SampleSecondEarly(x: string)
    requires x == " ss a "
    ensures DropPunctuation(DropPossessives(Pad(SampleConfig, DashesToSpaces(x)))) == "  ss a  "
  {
    SamplePadAgain(x);
    SampleNoPunctuation(Pad(SampleConfig, DashesToSpaces(x)));
  }

  lemma SampleNoPunctuation(p: string)
    requires p == "  ss a  "
    ensures DropPunctuation(DropPossessives(p)) == p
  {
    PlainSample(p);
  }

  lemma SampleSecondLate(p: string)
    requires p == "  ss a  "
    ensures NonSpaceLen(DropSkipWords(SampleConfig.skipWords, p)) < 3
  {
    var keys := SkipKeys(SampleConfig.skipWords);
    SampleKeys();
    assert OccursAt(" a ", p, 4);
    SampleSkipWordsValid();
    SkipKeysLonger(SampleConfig.skipWords);
    ReplaceEachShrinks(p, keys, " ");
    assert NonSpaceLen("  ss a  ") == 3;
  }

  lemma SampleSecondPass(x: string)
    requires x == " ss a "
    ensures NonSpaceLen(Simplify(SampleConfig, x)) < NonSpaceLen(x)
  {
    SampleSecondEarly(x);
    SampleSecondLate(DropPunctuation(DropPossessives(Pad(SampleConfig, DashesToSpaces(x)))));
    assert NonSpaceLen(" ss a ") == 3;
  }

  /** Why `FixpointStable` needs its precondition: with the stop word `a`, the title `ß a a`
      grows by one letter when `ß` is spelt `ss` and shrinks by one when the first ` a ` is
      removed, so the loop stops after one pass with ` ss a `, which a further pass would still
      shorten. */
  lemma LoopStopsEarly()
    ensures Transliterates(SampleConfig.unidecode) && ValidSkipWords(SampleConfig.skipWords)
    ensures Fixpoint(SampleConfig, "\U{DF} a a") == " ss a "
    ensures NonSpaceLen(Simplify(SampleConfig, Fixpoint(SampleConfig, "\U{DF} a a")))
              < NonSpaceLen(Fixpoint(SampleConfig, "\U{DF} a a"))
  {
    SampleTransliterates();
    SampleSkipWordsValid();
    SampleFixpoint("\U{DF} a a");
    SampleSecondPass(" ss a ");
  }

  lemma SampleSkipWordsValid()
    ensures ValidSkipWords(SampleConfig.skipWords)
  {
  }

  lemma SampleFixpoint(title: string)
    requires title == "\U{DF} a a"
    ensures Transliterates(SampleConfig.unidecode)
    ensures Fixpoint(SampleConfig, title) == " ss a "
  {
    SampleTransliterates();
    SampleFirstPass(title);
    SampleLengths(title, Simplify(SampleConfig, title));
  }

  lemma SampleLengths(x: string, y: string)
    requires x == "\U{DF} a a" && y == " ss a "
    ensures NonSpaceLen(x) == 3 == NonSpaceLen(y)
  {
    assert NonSpaceLen("\U{DF} a a") == 3 == NonSpaceLen(" ss a ");
  }
}

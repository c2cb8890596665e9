/** The Python `str` operations the core relies on, written out over `seq<char>`. */
module PyStrings {
  import opened Outcomes

  /** The characters Python's `str.isspace()` accepts; `str.split()`, `str.strip()` and the
      regular-expression class `\s` use the same set. */
  predicate IsSpace(c: char) {
    || c == ' '
    || ('\t' <= c <= '\r')
    || ('\U{1C}' <= c <= '\U{1F}')
    || c == '\U{85}' || c == '\U{A0}' || c == '\U{1680}'
    || ('\U{2000}' <= c <= '\U{200A}')
    || c == '\U{2028}' || c == '\U{2029}' || c == '\U{202F}' || c == '\U{205F}' || c == '\U{3000}'
  }

  predicate IsAsciiChar(c: char) {
    c < '\U{80}'
  }

  predicate IsAscii(s: string) {
    forall i | 0 <= i < |s| :: IsAsciiChar(s[i])
  }

  predicate IsDigit(c: char) {
    '0' <= c <= '9'
  }

  predicate IsAsciiLetter(c: char) {
    ('a' <= c <= 'z') || ('A' <= c <= 'Z')
  }

  /** The regular-expression class `\w`, on ASCII characters. */
  predicate IsWordChar(c: char) {
    IsAsciiLetter(c) || IsDigit(c) || c == '_'
  }

  /** `c.upper()` for an ASCII character; other characters are left as they are. */
  function UpperChar(c: char): char {
    if 'a' <= c <= 'z' then (c as int - 32) as char else c
  }

  /** `c.lower()` for an ASCII character; other characters are left as they are. */
  function LowerChar(c: char): char {
    if 'A' <= c <= 'Z' then (c as int + 32) as char else c
  }

  function Upper(s: string): string {
    seq(|s|, i requires 0 <= i < |s| => UpperChar(s[i]))
  }

  function Lower(s: string): string {
    seq(|s|, i requires 0 <= i < |s| => LowerChar(s[i]))
  }

  lemma UpperCharFacts(c: char)
    ensures (UpperChar(c) == ' ') == (c == ' ')
    ensures IsAsciiChar(c) ==> IsAsciiChar(UpperChar(c))
  {
  }

  /** `len(s.replace(' ', ''))`: how many characters of `s` are not the space. */
  function NonSpaceLen(s: string): nat {
    if s == [] then 0 else (if s[0] == ' ' then 0 else 1) + NonSpaceLen(s[1..])
  }

  lemma {:induction false} NonSpaceLenAppend(a: string, b: string)
    ensures NonSpaceLen(a + b) == NonSpaceLen(a) + NonSpaceLen(b)
  {
    if a == [] {
      assert a + b == b;
    } else {
      assert (a + b)[1..] == a[1..] + b;
      NonSpaceLenAppend(a[1..], b);
    }
  }

  /** `s.replace(k, r)` for a non-empty `k`: the non-overlapping occurrences of `k`, found from
      left to right, are each replaced by `r`. */
  function Replace(s: string, k: string, r: string): string
    requires k != []
    decreases |s|
  {
    if k <= s then r + Replace(s[|k|..], k, r)
    else if s == [] then []
    else [s[0]] + Replace(s[1..], k, r)
  }

  /** Where the pattern does not start (its `j`-th character differs), the first character is
      copied as it is. */
  lemma ReplaceNoMatch(s: string, k: string, r: string, j: nat)
    requires k != [] && j < |s| && j < |k| && s[j] != k[j]
    ensures Replace(s, k, r) == [s[0]] + Replace(s[1..], k, r)
  {
    assert !(k <= s);
  }

  /** `NonSpaceLen` is what the source computes with `s.replace(' ', '')`. */
  lemma {:induction false} NonSpaceLenIsReplaceLen(s: string)
    ensures NonSpaceLen(s) == |Replace(s, " ", "")|
  {
    if s != [] {
      NonSpaceLenIsReplaceLen(s[1..]);
    }
  }

  ghost predicate OccursAt(k: string, s: string, i: int) {
    0 <= i <= |s| - |k| && k <= s[i..]
  }

  /** `k in s`. */
  ghost predicate Occurs(k: string, s: string) {
    exists i :: OccursAt(k, s, i)
  }

  lemma OccursInTail(k: string, s: string, j: int)
    requires s != [] && OccursAt(k, s[1..], j)
    ensures OccursAt(k, s, j + 1)
  {
    assert s[1..][j..] == s[j + 1..];
  }

  lemma OccursAtShift(k: string, s: string, j: int)
    requires 0 < j && OccursAt(k, s, j)
    ensures OccursAt(k, s[1..], j - 1)
  {
    assert s[j..] == s[1..][j - 1..];
  }

  /** A pattern one of whose characters `s` lacks does not occur in `s`. */
  lemma AbsentByChar(k: string, s: string, c: char)
    requires c in k && c !in s
    ensures !Occurs(k, s)
  {
    var j :| 0 <= j < |k| && k[j] == c;
    forall i | 0 <= i <= |s| - |k| ensures !OccursAt(k, s, i) {
      assert s[i + j] in s;
      assert s[i..][j] != k[j];
    }
  }

  /** Replacing a pattern that does not occur changes nothing. */
  lemma {:induction false} ReplaceAbsent(s: string, k: string, r: string)
    requires k != [] && !Occurs(k, s)
    ensures Replace(s, k, r) == s
  {
    if k <= s {
      assert OccursAt(k, s, 0);
    } else if s != [] {
      AbsentFromTail(k, s);
      ReplaceAbsent(s[1..], k, r);
      assert s == [s[0]] + s[1..];
    }
  }

  /** Replacing by something no longer than the pattern never lengthens the text. */
  lemma {:induction false} ReplaceNoLonger(s: string, k: string, r: string)
    requires k != [] && |r| <= |k|
    ensures |Replace(s, k, r)| <= |s|
    decreases |s|
  {
    if k <= s {
      ReplaceNoLonger(s[|k|..], k, r);
    } else if s != [] {
      ReplaceNoLonger(s[1..], k, r);
    }
  }

  /** Replacing by something strictly shorter shortens any text the pattern occurs in. */
  lemma {:induction false} ReplaceShorter(s: string, k: string, r: string)
    requires k != [] && |r| < |k| && Occurs(k, s)
    ensures |Replace(s, k, r)| < |s|
    decreases |s|
  {
    if k <= s {
      ReplaceNoLonger(s[|k|..], k, r);
    } else {
      var j :| OccursAt(k, s, j);
      assert j != 0 by { assert s[0..] == s; }
      assert s[1..][j - 1..] == s[j..];
      assert OccursAt(k, s[1..], j - 1);
      ReplaceShorter(s[1..], k, r);
    }
  }

  lemma AbsentFromTail(k: string, s: string)
    requires s != [] && !Occurs(k, s)
    ensures !Occurs(k, s[1..])
  {
    if Occurs(k, s[1..]) {
      var j :| OccursAt(k, s[1..], j);
      OccursInTail(k, s, j);
    }
  }

  /** Replacing a pattern by a replacement with fewer non-space characters never adds
      non-space characters, and removes some as soon as the pattern occurs. */
  lemma {:induction false} ReplaceShrinks(s: string, k: string, r: string)
    requires k != [] && NonSpaceLen(r) < NonSpaceLen(k)
    ensures NonSpaceLen(Replace(s, k, r)) <= NonSpaceLen(s)
    ensures Occurs(k, s) ==> NonSpaceLen(Replace(s, k, r)) < NonSpaceLen(s)
  {
    if k <= s {
      ReplaceShrinks(s[|k|..], k, r);
      NonSpaceLenAppend(r, Replace(s[|k|..], k, r));
      assert s == k + s[|k|..];
      NonSpaceLenAppend(k, s[|k|..]);
    } else if s != [] {
      ReplaceShrinks(s[1..], k, r);
      NonSpaceLenAppend([s[0]], Replace(s[1..], k, r));
      if Occurs(k, s) {
        var j :| OccursAt(k, s, j);
        assert j != 0;
        OccursAtShift(k, s, j);
      }
    }
  }

  /** Every character of `s.replace(k, r)` comes from `s` or from `r`. */
  /** Replacing by something with no more non-space characters never adds any. */
  lemma {:induction false} ReplaceNoGrow(s: string, k: string, r: string)
    requires k != [] && NonSpaceLen(r) <= NonSpaceLen(k)
    ensures NonSpaceLen(Replace(s, k, r)) <= NonSpaceLen(s)
    decreases |s|
  {
    if k <= s {
      ReplaceNoGrow(s[|k|..], k, r);
      NonSpaceLenAppend(r, Replace(s[|k|..], k, r));
      assert s == k + s[|k|..];
      NonSpaceLenAppend(k, s[|k|..]);
    } else if s != [] {
      ReplaceNoGrow(s[1..], k, r);
      NonSpaceLenAppend([s[0]], Replace(s[1..], k, r));
    }
  }

  lemma {:induction false} ReplaceChars(s: string, k: string, r: string)
    requires k != []
    ensures forall c :: c in Replace(s, k, r) ==> c in s || c in r
  {
    if k <= s {
      ReplaceChars(s[|k|..], k, r);
      assert forall c :: c in s[|k|..] ==> c in s;
    } else if s != [] {
      ReplaceChars(s[1..], k, r);
      assert forall c :: c in s[1..] ==> c in s;
    }
  }

  /** Replacing a one-character pattern by a one-character replacement acts character by
      character: the length is kept and only the pattern character changes. */
  lemma {:induction false} ReplaceCharPointwise(s: string, k: char, r: char)
    ensures |Replace(s, [k], [r])| == |s|
    ensures forall i | 0 <= i < |s| :: Replace(s, [k], [r])[i] == (if s[i] == k then r else s[i])
  {
    if s != [] {
      ReplaceCharPointwise(s[1..], k, r);
      assert [k] <= s <==> s[0] == k;
    }
  }

  /** `for key in keys: s = s.replace(key, r)`. */
  function ReplaceEach(s: string, keys: seq<string>, r: string): string
    requires forall i | 0 <= i < |keys| :: keys[i] != []
    decreases |keys|
  {
    if keys == [] then s else Replace(ReplaceEach(s, keys[..|keys| - 1], r), keys[|keys| - 1], r)
  }

  /** A round of replacements that removes no non-space character changed nothing, because
      none of the keys occurred. */
  lemma {:induction false} ReplaceEachShrinks(s: string, keys: seq<string>, r: string)
    requires forall i | 0 <= i < |keys| :: keys[i] != [] && NonSpaceLen(r) < NonSpaceLen(keys[i])
    ensures NonSpaceLen(ReplaceEach(s, keys, r)) <= NonSpaceLen(s)
    ensures NonSpaceLen(ReplaceEach(s, keys, r)) == NonSpaceLen(s) ==>
              ReplaceEach(s, keys, r) == s && forall i | 0 <= i < |keys| :: !Occurs(keys[i], s)
    decreases |keys|
  {
    if keys != [] {
      var n := |keys| - 1;
      var p := ReplaceEach(s, keys[..n], r);
      ReplaceEachShrinks(s, keys[..n], r);
      ReplaceShrinks(p, keys[n], r);
      if NonSpaceLen(ReplaceEach(s, keys, r)) == NonSpaceLen(s) {
        ReplaceAbsent(p, keys[n], r);
        assert forall i | 0 <= i < n :: keys[..n][i] == keys[i];
      }
    }
  }

  lemma {:induction false} ReplaceEachNoGrow(s: string, keys: seq<string>, r: string)
    requires forall i | 0 <= i < |keys| :: keys[i] != [] && NonSpaceLen(r) <= NonSpaceLen(keys[i])
    ensures NonSpaceLen(ReplaceEach(s, keys, r)) <= NonSpaceLen(s)
    decreases |keys|
  {
    if keys != [] {
      var n := |keys| - 1;
      ReplaceEachNoGrow(s, keys[..n], r);
      ReplaceNoGrow(ReplaceEach(s, keys[..n], r), keys[n], r);
    }
  }

  lemma {:induction false} ReplaceEachAbsent(s: string, keys: seq<string>, r: string)
    requires forall i | 0 <= i < |keys| :: keys[i] != [] && !Occurs(keys[i], s)
    ensures ReplaceEach(s, keys, r) == s
    decreases |keys|
  {
    if keys != [] {
      var n := |keys| - 1;
      ReplaceEachAbsent(s, keys[..n], r);
      ReplaceAbsent(s, keys[n], r);
    }
  }

  lemma {:induction false} ReplaceEachChars(s: string, keys: seq<string>, r: string)
    requires forall i | 0 <= i < |keys| :: keys[i] != []
    ensures forall c :: c in ReplaceEach(s, keys, r) ==> c in s || c in r
    decreases |keys|
  {
    if keys != [] {
      var n := |keys| - 1;
      ReplaceEachChars(s, keys[..n], r);
      ReplaceChars(ReplaceEach(s, keys[..n], r), keys[n], r);
    }
  }

  lemma ReplaceEachAscii(s: string, keys: seq<string>, r: string)
    requires forall i | 0 <= i < |keys| :: keys[i] != []
    requires IsAscii(s) && IsAscii(r)
    ensures IsAscii(ReplaceEach(s, keys, r))
  {
    ReplaceEachChars(s, keys, r);
    var t := ReplaceEach(s, keys, r);
    forall i | 0 <= i < |t| ensures IsAsciiChar(t[i]) {
      assert t[i] in t;
    }
  }

  /** `s.translate(str.maketrans('', '', chars))`: every character listed in `chars` deleted. */
  function DeleteChars(s: string, chars: string): (t: string)
    ensures forall c | c in t :: c in s && c !in chars
    ensures forall c | c in s && c !in chars :: c in t
  {
    if s == [] then []
    else
      var rest := DeleteChars(s[1..], chars);
      assert forall c | c in s :: c == s[0] || c in s[1..];
      (if s[0] in chars then [] else [s[0]]) + rest
  }

  lemma {:induction false} DeleteCharsAppend(a: string, b: string, chars: string)
    ensures DeleteChars(a + b, chars) == DeleteChars(a, chars) + DeleteChars(b, chars)
    decreases |a|
  {
    if a == [] {
      assert a + b == b;
    } else {
      assert (a + b)[1..] == a[1..] + b;
      DeleteCharsAppend(a[1..], b, chars);
    }
  }

  /** Deleting characters other than the space never adds to the non-space length, and leaves
      it unchanged only when none of them was there. */
  lemma {:induction false} DeleteCharsShrinks(s: string, chars: string)
    requires ' ' !in chars
    ensures NonSpaceLen(DeleteChars(s, chars)) <= NonSpaceLen(s)
    ensures NonSpaceLen(DeleteChars(s, chars)) == NonSpaceLen(s) ==>
              DeleteChars(s, chars) == s && forall i | 0 <= i < |s| :: s[i] !in chars
    decreases |s|
  {
    if s != [] {
      DeleteCharsShrinks(s[1..], chars);
      var rest := DeleteChars(s[1..], chars);
      var head: string := if s[0] in chars then [] else [s[0]];
      NonSpaceLenAppend(head, rest);
      if NonSpaceLen(DeleteChars(s, chars)) == NonSpaceLen(s) {
        assert s[0] !in chars;
        assert s == [s[0]] + s[1..];
        forall i | 0 <= i < |s| ensures s[i] !in chars {
          if i > 0 {
            assert s[i] == s[1..][i - 1];
          }
        }
      }
    }
  }

  /** `s.find(k)` for a non-empty `k`: the index of the leftmost occurrence, if there is one. */
  function Find(s: string, k: string): (i: Option<nat>)
    requires k != []
    ensures i.Some? ==> OccursAt(k, s, i.value) && forall j | 0 <= j < i.value :: !OccursAt(k, s, j)
    ensures i.None? ==> !Occurs(k, s)
    decreases |s|
  {
    if k <= s then Some(0)
    else if s == [] then None
    else
      var rest := Find(s[1..], k);
      assert forall j | 0 < j :: OccursAt(k, s, j) ==> OccursAt(k, s[1..], j - 1) by {
        forall j | 0 < j && OccursAt(k, s, j) ensures OccursAt(k, s[1..], j - 1) {
          OccursAtShift(k, s, j);
        }
      }
      match rest
      case None => None
      case Some(i) => OccursInTail(k, s, i); Some(i + 1)
  }

  /** `s.split(sep)` for a non-empty separator: the pieces between the non-overlapping
      occurrences of `sep`, empty pieces included. */
  function Split(s: string, sep: string): (parts: seq<string>)
    requires sep != []
    ensures |parts| >= 1
    decreases |s|
  {
    match Find(s, sep)
    case None => [s]
    case Some(i) => [s[..i]] + Split(s[i + |sep|..], sep)
  }

  /** `sep.join(parts)`. */
  function Join(parts: seq<string>, sep: string): string {
    if parts == [] then []
    else if |parts| == 1 then parts[0]
    else parts[0] + sep + Join(parts[1..], sep)
  }

  /** `''.join(parts)`. */
  function Concat(parts: seq<string>): string {
    if parts == [] then [] else parts[0] + Concat(parts[1..])
  }

  /** The pieces of a split on a one-character separator do not hold that character, and hold
      nothing that was not in the string. */
  lemma SplitOnChar(s: string, sep: string)
    requires |sep| == 1
    ensures forall i | 0 <= i < |Split(s, sep)| :: sep[0] !in Split(s, sep)[i]
    ensures forall i, ch | 0 <= i < |Split(s, sep)| && ch in Split(s, sep)[i] :: ch in s
  {
    SplitOnCharParts(s, sep, Split(s, sep));
  }

  lemma {:induction false} SplitOnCharParts(s: string, sep: string, parts: seq<string>)
    requires |sep| == 1 && parts == Split(s, sep)
    ensures forall i | 0 <= i < |parts| :: sep[0] !in parts[i]
    ensures forall i, ch | 0 <= i < |parts| && ch in parts[i] :: ch in s
    decreases |s|
  {
    if Find(s, sep).Some? {
      var i := Find(s, sep).value;
      var rest := s[i + 1..];
      var tail := Split(rest, sep);
      SplitHead(s, sep);
      SplitOnCharParts(rest, sep, tail);
      NoSeparatorBefore(s, sep, i);
      PiecesOfCons(s, sep[0], i, parts, tail);
    } else {
      NoSeparatorBefore(s, sep, |s|);
      SplitAbsent(s, sep, parts);
    }
  }

  /** Before the first occurrence of a one-character separator, that character does not occur. */
  lemma NoSeparatorBefore(s: string, sep: string, i: nat)
    requires |sep| == 1 && i <= |s|
    requires forall j | 0 <= j < i :: !OccursAt(sep, s, j)
    ensures sep[0] !in s[..i]
  {
    forall j | 0 <= j < i ensures s[j] != sep[0] {
      assert !OccursAt(sep, s, j);
      assert s[j..][0] == s[j];
    }
  }

  lemma PiecesOfCons(s: string, c: char, i: nat, parts: seq<string>, tail: seq<string>)
    requires i < |s| && parts == [s[..i]] + tail && c !in s[..i]
    requires forall k | 0 <= k < |tail| :: c !in tail[k]
    requires forall k, ch | 0 <= k < |tail| && ch in tail[k] :: ch in s[i + 1..]
    ensures forall k | 0 <= k < |parts| :: c !in parts[k]
    ensures forall k, ch | 0 <= k < |parts| && ch in parts[k] :: ch in s
  {
    forall k | 0 <= k < |parts| ensures c !in parts[k] {
      if k > 0 {
        assert parts[k] == tail[k - 1];
      }
    }
    forall k, ch | 0 <= k < |parts| && ch in parts[k] ensures ch in s {
      if k == 0 {
        var j :| 0 <= j < i && s[..i][j] == ch;
        assert s[j] == ch;
      } else {
        assert parts[k] == tail[k - 1];
        assert ch in s[i + 1..];
        var j :| 0 <= j < |s[i + 1..]| && s[i + 1..][j] == ch;
        assert s[i + 1 + j] == ch;
      }
    }
  }

  /** Every character of `''.join(parts)` comes from one of the parts. */
  lemma {:induction false} ConcatChars(parts: seq<string>)
    ensures forall ch | ch in Concat(parts) :: exists i | 0 <= i < |parts| :: ch in parts[i]
    decreases |parts|
  {
    if parts != [] {
      ConcatChars(parts[1..]);
      forall ch | ch in Concat(parts) ensures exists i | 0 <= i < |parts| :: ch in parts[i] {
        if ch !in parts[0] {
          assert ch in Concat(parts[1..]);
          var i :| 0 <= i < |parts[1..]| && ch in parts[1..][i];
          assert ch in parts[i + 1];
        }
      }
    }
  }

  /** Joining the pieces of a split gives the original string back. */
  lemma {:induction false} JoinSplit(s: string, sep: string)
    requires sep != []
    ensures Join(Split(s, sep), sep) == s
    decreases |s|
  {
    if Find(s, sep).Some? {
      var i := Find(s, sep).value;
      var rest := s[i + |sep|..];
      SplitHead(s, sep);
      JoinSplit(rest, sep);
      JoinCons(s[..i], Split(rest, sep), sep);
      AroundOccurrence(s, sep, i);
    }
  }

  /** Where the separator is found, the first piece ends and the rest is split again. */
  lemma {:induction false} SplitHead(s: string, sep: string)
    requires sep != [] && Find(s, sep).Some?
    ensures var i := Find(s, sep).value;
            Split(s, sep) == [s[..i]] + Split(s[i + |sep|..], sep)
  {
  }

  /** The last piece is the last piece of what follows the first separator. */
  lemma LastPieceAfterFirst(s: string, sep: string, a: seq<string>, b: seq<string>)
    requires sep != [] && Find(s, sep).Some?
    requires a == Split(s, sep) && b == Split(s[Find(s, sep).value + |sep|..], sep)
    ensures a[|a| - 1] == b[|b| - 1]
  {
    SplitHead(s, sep);
    LastOfCons(a, s[..Find(s, sep).value], b);
  }

  lemma LastOfCons<T>(a: seq<T>, head: T, b: seq<T>)
    requires a == [head] + b && b != []
    ensures a[|a| - 1] == b[|b| - 1]
  {
  }

  /** Split on a single character, text ending in that character and then a piece without it
      has that piece last. */
  lemma {:induction false} LastPieceAfterChar(x: string, c: char, f: string, a: seq<string>)
    requires c !in f && a == Split(x + [c] + f, [c])
    ensures a[|a| - 1] == f
    decreases |x|
  {
    var s := x + [c] + f;
    FirstBeforeSeparator(x, c, f);
    var i := Find(s, [c]).value;
    var rest := s[i + 1..];
    var b := Split(rest, [c]);
    LastPieceAfterFirst(s, [c], a, b);
    if i == |x| {
      assert rest == f;
      AbsentByChar([c], f, c);
      SplitAbsent(f, [c], b);
    } else {
      RestAfter(x, [c], f, i);
      LastPieceAfterChar(x[i + 1..], c, f, b);
    }
  }

  lemma FirstBeforeSeparator(x: string, c: char, f: string)
    ensures Find(x + [c] + f, [c]).Some? && Find(x + [c] + f, [c]).value <= |x|
  {
    var s := x + [c] + f;
    assert OccursAt([c], s, |x|) by {
      assert s[|x|..] == [c] + f;
    }
  }

  lemma RestAfter(x: string, m: string, f: string, i: nat)
    requires i < |x| && |m| == 1
    ensures (x + m + f)[i + 1..] == x[i + 1..] + m + f
  {
  }

  lemma SplitAbsent(s: string, sep: string, parts: seq<string>)
    requires sep != [] && !Occurs(sep, s) && parts == Split(s, sep)
    ensures parts == [s]
  {
  }

  lemma JoinCons(a: string, tail: seq<string>, sep: string)
    requires tail != []
    ensures Join([a] + tail, sep) == a + sep + Join(tail, sep)
  {
    assert ([a] + tail)[1..] == tail;
  }

  /** A string is what comes before an occurrence, the occurrence, and what comes after. */
  lemma AroundOccurrence(s: string, k: string, i: nat)
    requires k != [] && OccursAt(k, s, i)
    ensures s == s[..i] + k + s[i + |k|..]
  {
    assert s[i..][..|k|] == k;
    assert s == s[..i] + s[i..][..|k|] + s[i + |k|..];
  }

  /** Splitting a join gives the pieces back, provided no piece holds the separator's first
      character. */
  lemma {:induction false} SplitJoin(parts: seq<string>, sep: string)
    requires sep != [] && |parts| >= 1
    requires forall i | 0 <= i < |parts| :: sep[0] !in parts[i]
    ensures Split(Join(parts, sep), sep) == parts
    decreases |parts|
  {
    var s := Join(parts, sep);
    if |parts| == 1 {
      AbsentByChar(sep, s, sep[0]);
    } else {
      SplitStep(parts[0], Join(parts[1..], sep), sep);
      SplitJoin(parts[1..], sep);
      assert parts == [parts[0]] + parts[1..];
    }
  }

  /** A first piece free of the separator's first character is split off at the separator
      after it. */
  lemma SplitStep(p: string, rest: string, sep: string)
    requires sep != [] && sep[0] !in p
    ensures Split(p + sep + rest, sep) == [p] + Split(rest, sep)
  {
    var s := p + sep + rest;
    FindAfterPiece(p, rest, sep);
    assert s[..|p|] == p;
    assert s[|p| + |sep|..] == rest;
  }

  lemma FindAfterPiece(p: string, rest: string, sep: string)
    requires sep != [] && sep[0] !in p
    ensures Find(p + sep + rest, sep) == Some(|p|)
  {
    var s := p + sep + rest;
    assert OccursAt(sep, s, |p|) by {
      assert s[|p|..] == sep + rest;
    }
    forall j | 0 <= j < |p| ensures !OccursAt(sep, s, j) {
      assert s[j] == p[j] && p[j] in p;
      assert s[j..][0] != sep[0];
    }
    FindFirst(s, sep, |p|);
  }

  /** The first position where the pattern occurs is what `find` returns. */
  lemma FindFirst(s: string, k: string, i: nat)
    requires k != [] && OccursAt(k, s, i) && forall j | 0 <= j < i :: !OccursAt(k, s, j)
    ensures Find(s, k) == Some(i)
  {
    assert Occurs(k, s);
  }

  lemma {:induction false} JoinSnoc(parts: seq<string>, last: string, sep: string)
    requires parts != []
    ensures Join(parts + [last], sep) == Join(parts, sep) + sep + last
    decreases |parts|
  {
    if |parts| > 1 {
      assert (parts + [last])[1..] == parts[1..] + [last];
      JoinSnoc(parts[1..], last, sep);
    }
  }

  /** The number of leading non-whitespace characters of `s`. */
  function WordLen(s: string): (n: nat)
    ensures n <= |s|
    ensures s != [] && !IsSpace(s[0]) ==> n >= 1
  {
    if s == [] || IsSpace(s[0]) then 0 else 1 + WordLen(s[1..])
  }

  /** `s.split()`: the maximal runs of non-whitespace characters, in order. */
  function Words(s: string): seq<string>
    decreases |s|
  {
    if s == [] then []
    else if IsSpace(s[0]) then Words(s[1..])
    else [s[..WordLen(s)]] + Words(s[WordLen(s)..])
  }

  lemma {:induction false} WordLenNoSpace(s: string)
    ensures forall i | 0 <= i < WordLen(s) :: !IsSpace(s[i])
  {
    if s != [] && !IsSpace(s[0]) {
      WordLenNoSpace(s[1..]);
    }
  }

  /** The words of `s.split()` are non-empty and hold no whitespace. */
  lemma {:induction false} WordsShape(s: string)
    ensures forall i | 0 <= i < |Words(s)| :: Words(s)[i] != [] && forall j | 0 <= j < |Words(s)[i]| :: !IsSpace(Words(s)[i][j])
    decreases |s|
  {
    if s != [] {
      if IsSpace(s[0]) {
        WordsShape(s[1..]);
      } else {
        WordLenNoSpace(s);
        WordsShape(s[WordLen(s)..]);
      }
    }
  }

  /** A run of non-whitespace characters followed by whitespace or nothing is one word. */
  lemma {:induction false} WordsOfWord(w: string, rest: string)
    requires w != [] && forall i | 0 <= i < |w| :: !IsSpace(w[i])
    requires rest == [] || IsSpace(rest[0])
    ensures WordLen(w + rest) == |w|
    ensures Words(w + rest) == [w] + Words(rest)
    decreases |w|
  {
    var s := w + rest;
    if |w| == 1 {
      assert s[1..] == rest;
    } else {
      assert s[1..] == w[1..] + rest;
      WordsOfWord(w[1..], rest);
    }
    assert s[..|w|] == w && s[|w|..] == rest;
  }

  /** Two words with one space between them are split into exactly those two. */
  lemma WordsOfTwo(a: string, b: string)
    requires a != [] && forall i | 0 <= i < |a| :: !IsSpace(a[i])
    requires b != [] && forall i | 0 <= i < |b| :: !IsSpace(b[i])
    ensures Words(a + " " + b) == [a, b]
  {
    var tail := " " + b;
    assert a + " " + b == a + tail;
    WordsOfWord(a, tail);
    WordsOfSpace(tail);
    assert tail[1..] == b + [];
    WordsOfWord(b, []);
  }

  /** No whitespace in `w`, checked a character at a time. */
  predicate SpaceFree(w: string) {
    w == [] || (!IsSpace(w[0]) && SpaceFree(w[1..]))
  }

  lemma {:induction false} SpaceFreeChars(w: string)
    requires SpaceFree(w)
    ensures forall i | 0 <= i < |w| :: !IsSpace(w[i])
  {
    if w != [] {
      SpaceFreeChars(w[1..]);
      assert forall i | 1 <= i < |w| :: w[i] == w[1..][i - 1];
    }
  }

  lemma WordsOfSpace(s: string)
    requires s != [] && IsSpace(s[0])
    ensures Words(s) == Words(s[1..])
  {
  }

  function StripLeft(s: string): (t: string)
    ensures t == [] || !IsSpace(t[0])
  {
    if s != [] && IsSpace(s[0]) then StripLeft(s[1..]) else s
  }

  function StripRight(s: string): (t: string)
    ensures t == [] || !IsSpace(t[|t| - 1])
    ensures t <= s
  {
    if s != [] && IsSpace(s[|s| - 1]) then StripRight(s[..|s| - 1]) else s
  }

  /** `s.strip()`: no whitespace is left at either end. */
  function Strip(s: string): (t: string)
    ensures t != [] ==> !IsSpace(t[0]) && !IsSpace(t[|t| - 1])
  {
    var x := StripLeft(s);
    var t := StripRight(x);
    assert t != [] ==> t[0] == x[0];
    t
  }

  /** A text that starts and ends with a non-space is its own `strip()`. */
  lemma StripKeeps(s: string)
    requires s != [] ==> !IsSpace(s[0]) && !IsSpace(s[|s| - 1])
    ensures Strip(s) == s
  {
  }

  function DigitChar(d: nat): char
    requires d < 10
  {
    ('0' as int + d) as char
  }

  /** `str(n)` for a natural number. */
  function NatToString(n: nat): string
    decreases n
  {
    if n < 10 then [DigitChar(n)] else NatToString(n / 10) + [DigitChar(n % 10)]
  }

  /** `str(i)` for an integer. */
  function IntToString(i: int): string {
    if i < 0 then "-" + NatToString(-i) else NatToString(i)
  }

  /** `s.isdigit()`, on ASCII digits. */
  predicate IsDigits(s: string) {
    s != [] && forall i | 0 <= i < |s| :: IsDigit(s[i])
  }

  /** `int(s)` for a string of ASCII digits. */
  function DigitsValue(s: string): nat
    requires forall i | 0 <= i < |s| :: IsDigit(s[i])
    decreases |s|
  {
    if s == [] then 0
    else
      assert IsDigit(s[|s| - 1]);
      DigitsValue(s[..|s| - 1]) * 10 + (s[|s| - 1] as int - '0' as int)
  }

  /** `str` and `int` are inverse on natural numbers. */
  lemma {:induction false} NatToStringRoundTrip(n: nat)
    ensures IsDigits(NatToString(n))
    ensures DigitsValue(NatToString(n)) == n
    decreases n
  {
    if n >= 10 {
      NatToStringRoundTrip(n / 10);
      var s := NatToString(n);
      assert s[..|s| - 1] == NatToString(n / 10);
    }
  }

  /** The characters `int()` accepts between digits, without the sign: ASCII digits with
      single underscores between them. */
  predicate IsGroupedDigits(s: string) {
    && s != []
    && IsDigit(s[0])
    && IsDigit(s[|s| - 1])
    && forall i | 0 <= i < |s| :: IsDigit(s[i]) || (s[i] == '_' && 0 < i < |s| - 1 && IsDigit(s[i + 1]))
  }

  function RemoveUnderscores(s: string): (t: string)
    ensures forall i | 0 <= i < |t| :: t[i] in s && t[i] != '_'
  {
    if s == [] then [] else (if s[0] == '_' then [] else [s[0]]) + RemoveUnderscores(s[1..])
  }

  /** `int(s)` for a base-10 string that is already stripped: an optional sign, then digits
      with single underscores allowed between them. */
  function ParseInt(s: string): Option<int> {
    var signed := s != [] && (s[0] == '+' || s[0] == '-');
    var body := if signed then s[1..] else s;
    if !IsGroupedDigits(body) then None
    else
      var digits := RemoveUnderscores(body);
      assert forall i | 0 <= i < |digits| :: IsDigit(digits[i]) by {
        forall i | 0 <= i < |digits| ensures IsDigit(digits[i]) {
          var j :| 0 <= j < |body| && body[j] == digits[i];
        }
      }
      var n: int := DigitsValue(digits);
      Some(if signed && s[0] == '-' then -n else n)
  }

  /** An unsigned digit string reads back as its value, with or without a leading minus. */
  lemma ParseDigits(d: string)
    requires IsDigits(d)
    ensures ParseInt(d) == Some(DigitsValue(d) as int)
    ensures ParseInt("-" + d) == Some(-(DigitsValue(d) as int))
  {
    NoUnderscoreInDigits(d);
    ParseUnsigned(d);
    ParseNegative(d);
  }

  lemma ParseUnsigned(d: string)
    requires IsDigits(d) && RemoveUnderscores(d) == d
    ensures ParseInt(d) == Some(DigitsValue(d) as int)
  {
    assert IsGroupedDigits(d);
    assert d[0] != '+' && d[0] != '-' by { assert IsDigit(d[0]); }
  }

  lemma ParseNegative(d: string)
    requires IsDigits(d) && RemoveUnderscores(d) == d
    ensures ParseInt("-" + d) == Some(-(DigitsValue(d) as int))
  {
    assert IsGroupedDigits(d);
    var m := "-" + d;
    assert m[0] == '-' && m[1..] == d;
  }

  /** What `str` prints, `int` reads back. */
  lemma ParseIntOfString(i: int)
    ensures ParseInt(IntToString(i)) == Some(i)
  {
    var n: nat := if i < 0 then -i else i;
    NatToStringRoundTrip(n);
    ParseDigits(NatToString(n));
  }

  lemma {:induction false} NoUnderscoreInDigits(s: string)
    requires IsDigits(s) || s == []
    ensures RemoveUnderscores(s) == s
  {
    if s != [] {
      assert IsDigits(s[1..]) || s[1..] == [];
      NoUnderscoreInDigits(s[1..]);
    }
  }
}

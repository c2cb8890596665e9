/** `to_notionprop`: wrapping one Python value into the shape of one Notion property. */
module NotionValue {
  import opened Outcomes
  import opened PyStrings

  /** The Python values that reach `to_notionprop`: `None`, strings, integers and lists. */
  datatype Value = Null | Str(s: string) | Int(i: int) | List(items: seq<Value>)

  /** The Notion property payloads, one per mode:
      `{'title': [{'text': {'content': text}}]}`, `{'select': {'name': name}}`,
      `{'multi_select': [{'name': n} for n in names]}`, `{'rich_text': [{'text': {'content': text}}]}`,
      `{'number': number}` and `{'date': {'start': start}}`. */
  datatype Prop =
    | Title(text: string)
    | Select(name: string)
    | MultiSelect(names: seq<Value>)
    | RichText(text: string)
    | Number(number: int)
    | Date(start: string)

  /** `remove_comma_from_string`: Notion refuses commas in option names, so each becomes `_`. */
  function RemoveCommaFromString(s: string): (t: string)
    ensures |t| == |s|
    ensures forall i | 0 <= i < |s| :: t[i] == (if s[i] == ',' then '_' else s[i])
    ensures ',' !in t
  {
    if ',' !in s then s
    else
      ReplaceCharPointwise(s, ',', '_');
      Replace(s, ",", "_")
  }

  /** What `remove_comma` does to one list element: strings lose their commas, anything else
      is skipped. */
  function RemoveCommaValue(v: Value): Value {
    if v.Str? then Str(RemoveCommaFromString(v.s)) else v
  }

  /** The list `remove_comma` leaves behind after rewriting it element by element. */
  function RemoveCommaItems(items: seq<Value>): (r: seq<Value>)
    ensures |r| == |items|
  {
    seq(|items|, i requires 0 <= i < |items| => RemoveCommaValue(items[i]))
  }

  /** No string element of a list holds a comma. */
  predicate CommaFree(items: seq<Value>) {
    forall i | 0 <= i < |items| :: items[i].Str? ==> ',' !in items[i].s
  }

  /** `remove_comma` on a list: every string element is rewritten in place, every other element
      is left where it is. */
  method RemoveCommaInPlace(a: array<Value>)
    modifies a
    ensures a[..] == RemoveCommaItems(old(a[..]))
  {
    for i := 0 to a.Length
      invariant forall j | 0 <= j < i :: a[j] == RemoveCommaValue(old(a[j]))
      invariant forall j | i <= j < a.Length :: a[j] == old(a[j])
    {
      if a[i].Str? {
        a[i] := Str(RemoveCommaFromString(a[i].s));
      }
    }
  }

  /** Python's `repr` of a value, as it appears inside the `str` of a list (quotes are not
      escaped). */
  function Repr(v: Value): string
    decreases v, 1
  {
    if v.Str? then "'" + v.s + "'" else PyStr(v)
  }

  /** Python's `str` of a value. */
  function PyStr(v: Value): string
    decreases v, 0
  {
    match v
    case Null => "None"
    case Str(s) => s
    case Int(i) => IntToString(i)
    case List(items) =>
      "[" + Join(seq(|items|, k requires 0 <= k < |items| => Repr(items[k])), ", ") + "]"
  }

  /** `'-'.join([str(x) for x in first])`: iterating a string yields its characters, iterating
      `None` or an integer is a `TypeError`. */
  function DateText(first: Value): (r: Result<string>)
    ensures r.Success? <==> first.Str? || first.List?
    ensures r.Failure? ==> r.error.TypeError?
    ensures first == Str([]) || first == List([]) ==> r == Success([])
    ensures first.List? && |first.items| == 1 ==> r == Success(PyStr(first.items[0]))
  {
    match first
    case Null => Failure(TypeError("'NoneType' object is not iterable"))
    case Int(_) => Failure(TypeError("'int' object is not iterable"))
    case Str(s) => Success(Join(seq(|s|, k requires 0 <= k < |s| => [s[k]]), "-"))
    case List(items) => Success(Join(seq(|items|, k requires 0 <= k < |items| => PyStr(items[k])), "-"))
  }

  /** The six modes `to_notionprop` knows. */
  const Modes: set<string> := {"title", "select", "multi_select", "rich_text", "number", "date"}

  /** The Python type each mode asserts, plus what the `date` branch needs to build its text: a
      non-empty list whose first element can be iterated. */
  predicate Fits(content: Value, mode: string) {
    || (mode in {"title", "select", "rich_text"} && content.Str?)
    || (mode == "multi_select" && content.List?)
    || (mode == "number" && content.Int?)
    || (mode == "date" && content.List? && content.items != []
        && (content.items[0].Str? || content.items[0].List?))
  }

  /** `to_notionprop(content, mode)`. `None` content gives `None` whatever the mode; a value of
      the wrong type fails its `assert isinstance`; an unknown mode raises `ValueError`. */
  function ToNotionProp(content: Value, mode: string): (r: Result<Option<Prop>>)
    ensures content.Null? ==> r == Success(None)
    ensures !content.Null? ==> (r.Success? <==> Fits(content, mode))
    ensures !content.Null? && mode !in Modes ==> r == Failure(ValueError("Invalid mode"))
    ensures !content.Null? && r.Success? ==> r.value.Some?
    ensures content.Str? && mode == "title" ==> r == Success(Some(Title(content.s)))
    ensures content.Str? && mode == "rich_text" ==> r == Success(Some(RichText(content.s)))
    ensures content.Str? && mode == "select" ==> r == Success(Some(Select(RemoveCommaFromString(content.s))))
    ensures content.List? && mode == "multi_select" ==>
              r == Success(Some(MultiSelect(RemoveCommaItems(content.items))))
    ensures content.Int? && mode == "number" ==> r == Success(Some(Number(content.i)))
    ensures r.Success? && mode == "date" && content.List? ==>
              r.value == Some(Date(DateText(content.items[0]).value))
    ensures r.Failure? ==> r.error.AssertionError? || r.error.IndexError? || r.error.TypeError?
                           || r.error == ValueError("Invalid mode")
    ensures r.Success? && r.value.Some? && r.value.value.Select? ==> ',' !in r.value.value.name
    ensures r.Success? && r.value.Some? && r.value.value.MultiSelect? ==> CommaFree(r.value.value.names)
  {
    if content.Null? then Success(None)
    else if mode == "title" then
      if content.Str? then Success(Some(Title(content.s))) else Failure(AssertionError("title"))
    else if mode == "select" then
      if content.Str? then Success(Some(Select(RemoveCommaFromString(content.s))))
      else Failure(AssertionError("select"))
    else if mode == "multi_select" then
      if content.List? then Success(Some(MultiSelect(RemoveCommaItems(content.items))))
      else Failure(AssertionError("multi_select"))
    else if mode == "rich_text" then
      if content.Str? then Success(Some(RichText(content.s))) else Failure(AssertionError("rich_text"))
    else if mode == "number" then
      if content.Int? then Success(Some(Number(content.i))) else Failure(AssertionError("number"))
    else if mode == "date" then
      if !content.List? then Failure(AssertionError("date"))
      else if content.items == [] then Failure(IndexError("list index out of range"))
      else
        var start :- DateText(content.items[0]);
        Success(Some(Date(start)))
    else Failure(ValueError("Invalid mode"))
  }

  /** The `multi_select` branch as the source runs it on a list object: the caller's list is
      rewritten in place and the property names that very list. */
  method MultiSelectInPlace(content: array<Value>) returns (p: Prop)
    modifies content
    ensures ToNotionProp(List(old(content[..])), "multi_select") == Success(Some(p))
    ensures p == MultiSelect(content[..])
  {
    RemoveCommaInPlace(content);
    p := MultiSelect(content[..]);
  }

  /** Removing commas twice is removing them once: a categorical value Notion accepted is passed
      through unchanged. */
  lemma {:induction false} RemoveCommaIdempotent(items: seq<Value>)
    ensures RemoveCommaItems(RemoveCommaItems(items)) == RemoveCommaItems(items)
    ensures CommaFree(RemoveCommaItems(items))
  {
    var once := RemoveCommaItems(items);
    forall i | 0 <= i < |items| ensures RemoveCommaValue(once[i]) == once[i] {
      if once[i].Str? {
        var t := once[i].s;
        assert ',' !in t;
        assert RemoveCommaFromString(t) == t;
      }
    }
  }

  /** A list of non-negative integers becomes the date text `y-m-d` (no zero padding), and the
      text splits back on `-` into the decimal forms of those integers. */
  lemma DateOfNumbers(parts: seq<nat>)
    requires |parts| >= 1
    ensures var ints := seq(|parts|, k requires 0 <= k < |parts| => Int(parts[k]));
            var texts := seq(|parts|, k requires 0 <= k < |parts| => NatToString(parts[k]));
            && ToNotionProp(List([List(ints)]), "date") == Success(Some(Date(Join(texts, "-"))))
            && Split(Join(texts, "-"), "-") == texts
  {
    var ints := seq(|parts|, k requires 0 <= k < |parts| => Int(parts[k]));
    var texts := seq(|parts|, k requires 0 <= k < |parts| => NatToString(parts[k]));
    assert seq(|ints|, k requires 0 <= k < |ints| => PyStr(ints[k])) == texts;
    forall i | 0 <= i < |texts| ensures '-' !in texts[i] {
      NatToStringRoundTrip(parts[i]);
    }
    SplitJoin(texts, "-");
  }

  /** Each piece of such a date text reads back, through `int`, as the number it came from. */
  lemma DatePartsReadBack(parts: seq<nat>, i: nat)
    requires i < |parts|
    ensures ParseInt(NatToString(parts[i])) == Some(parts[i] as int)
  {
    ParseIntOfString(parts[i]);
  }

  /** `[[2020, 3, 5]]` is the date `2020-3-5`; `[[2020]]` is `2020`. */
  lemma DateExamples()
    ensures ToNotionProp(List([List([Int(2020), Int(3), Int(5)])]), "date") == Success(Some(Date("2020-3-5")))
    ensures ToNotionProp(List([List([Int(2020)])]), "date") == Success(Some(Date("2020")))
  {
    Year2020();
    DateTextOfTriple([Int(2020), Int(3), Int(5)]);
  }

  lemma Year2020()
    ensures NatToString(2020) == "2020"
  {
    assert NatToString(2) == "2";
    assert NatToString(20) == "20";
    assert NatToString(202) == "202";
  }

  lemma DateTextOfTriple(parts: seq<Value>)
    requires parts == [Int(2020), Int(3), Int(5)] && NatToString(2020) == "2020"
    ensures DateText(List(parts)) == Success("2020-3-5")
  {
    assert NatToString(3) == "3";
    assert NatToString(5) == "5";
    var texts := ["2020", "3", "5"];
    assert seq(3, k requires 0 <= k < 3 => PyStr(parts[k])) == texts;
    assert Join(texts, "-") == "2020-3-5" by {
      assert Join(texts[2..], "-") == "5";
      assert Join(texts[1..], "-") == "3-5";
    }
  }

  /** A title with a comma keeps it, the same text as a select loses it. */
  lemma CommaExample()
    ensures ToNotionProp(Str("Smith, J."), "title") == Success(Some(Title("Smith, J.")))
    ensures ToNotionProp(Str("Smith, J."), "select") == Success(Some(Select("Smith_ J.")))
  {
    CommaTitle("Smith, J.");
    CommaSelect("Smith, J.");
  }

  lemma CommaTitle(x: string)
    requires x == "Smith, J."
    ensures ToNotionProp(Str(x), "title") == Success(Some(Title(x)))
  {
  }

  lemma CommaSelect(x: string)
    requires x == "Smith, J."
    ensures ToNotionProp(Str(x), "select") == Success(Some(Select("Smith_ J.")))
  {
    var t := RemoveCommaFromString(x);
    assert t[5] == '_';
    assert t == "Smith_ J.";
  }
}

/**
 The `records_data` path of the message filer (`FilerUtils.RecordsFinder` and
 its `PathElement`s).

 A path such as `foo>request_data[0]>sites` is split on `>`; a segment ending
 in `]` is an indexed array step `name[index]`, the last plain segment names
 an array and every other plain segment names an object. Resolving the path
 against a message walks the objects and returns the array the last array
 step selected; a step that meets a Java null or a value of the wrong type
 raises an exception (`Throws`).
 */
module RecordsPath {
  import opened Outcomes
  import opened Text
  import opened Json

  datatype PathElement =
    | Object(name: string)
    | Array(name: string)
    | Indexed(name: string, index: int)

  /** `new PathElement(path_string, last_element)`. A segment ending in `]`
      must hold `[`, before its first `]`, with an `int` literal between;
      otherwise `substring` or `Integer.parseInt` throws. */
  function ParseElement(seg: string, last: bool): (r: Res<PathElement>)
    ensures !EndsWith(seg, "]") ==> r == Ok(if last then Array(seg) else Object(seg))
    ensures EndsWith(seg, "]") && r.Ok? ==>
              var open := Find(seg, '[', 0);
              0 <= open && r.value.Indexed? && r.value.name == seg[..open] &&
              INT_MIN <= r.value.index <= INT_MAX
    ensures EndsWith(seg, "]") && Find(seg, '[', 0) < 0 ==> r.Throws?
  {
    if EndsWith(seg, "]") then
      var open := Find(seg, '[', 0);
      var close := Find(seg, ']', 0);
      if open < 0 || close < open + 1 then Throws
      else
        match ParseInt(seg[open + 1..close])
        case None => Throws
        case Some(n) => Ok(Indexed(seg[..open], n))
    else if last then Ok(Array(seg))
    else Ok(Object(seg))
  }

  /** The elements of the segments `segs[i..]`, of a path of `|segs|`
      segments; the first segment that does not parse throws. */
  function ParseFrom(segs: seq<string>, i: nat): (r: Res<seq<PathElement>>)
    requires i <= |segs|
    ensures r.Ok? ==> |r.value| == |segs| - i
    ensures r.Ok? ==> forall k :: i <= k < |segs| ==>
                        ParseElement(segs[k], k == |segs| - 1) == Ok(r.value[k - i])
    decreases |segs| - i
  {
    if i == |segs| then Ok([])
    else
      var e :- ParseElement(segs[i], i == |segs| - 1);
      var rest :- ParseFrom(segs, i + 1);
      Ok([e] + rest)
  }

  /** Compilation throws exactly when some segment does not parse. */
  lemma {:induction false} ParseFromThrows(segs: seq<string>, i: nat)
    requires i <= |segs|
    ensures ParseFrom(segs, i).Throws? <==>
              exists k :: i <= k < |segs| && ParseElement(segs[k], k == |segs| - 1).Throws?
    decreases |segs| - i
  {
    if i < |segs| {
      ParseFromThrows(segs, i + 1);
    }
  }

  /** The constructor of `RecordsFinder`: one element per `>`-separated
      segment, as `String.split` gives them. */
  function Compile(recordsData: string): (r: Res<seq<PathElement>>) {
    ParseFrom(JavaSplit(recordsData, '>'), 0)
  }

  // ---------------------------------------------------------------------
  // Resolution
  // ---------------------------------------------------------------------

  /** `current_object` and `current_array` of `get`; `None` is Java null. */
  datatype Cursor = Cursor(obj: Option<JObject>, arr: Option<seq<Json>>)

  /** One pass of the loop of `get`. Every step dereferences the current
      object, so a null one throws. */
  function Step(c: Cursor, e: PathElement): (r: Res<Cursor>)
    ensures c.obj.None? ==> r.Throws?
    ensures r.Ok? && e.Object? ==> r.value.arr == c.arr
  {
    match c.obj
    case None => Throws
    case Some(o) =>
      match e
      case Object(name) =>
        var next :- GetObject(o, name);
        Ok(Cursor(next, c.arr))
      case Array(name) =>
        var a :- GetArray(o, name);
        Ok(Cursor(c.obj, a))
      case Indexed(name, index) =>
        var a :- GetArray(o, name);
        match a
        case None => Throws
        case Some(items) =>
          var next :- ArrayGetObject(items, index);
          Ok(Cursor(next, a))
  }

  /** The loop of `get` over the elements `es`. */
  function Walk(c: Cursor, es: seq<PathElement>): Res<Cursor>
    decreases |es|
  {
    if |es| == 0 then Ok(c)
    else
      var next :- Step(c, es[0]);
      Walk(next, es[1..])
  }

  /** The cursor `get` starts from. */
  function Start(msg: JObject): Cursor {
    Cursor(Some(msg), Some([]))
  }

  /** `get(msg)`: the array the walk ends with (Java null when the last
      array step found none). */
  function Resolve(es: seq<PathElement>, msg: JObject): Res<Option<seq<Json>>> {
    var c :- Walk(Start(msg), es);
    Ok(c.arr)
  }

  /** `new RecordsFinder(records_data).get(msg)`. */
  function FindRecords(recordsData: string, msg: JObject): Res<Option<seq<Json>>> {
    var es :- Compile(recordsData);
    Resolve(es, msg)
  }

  /** Walking a longer path is walking its prefix and then the last step. */
  lemma {:induction false} WalkSnoc(c: Cursor, es: seq<PathElement>, e: PathElement)
    ensures Walk(c, es + [e]) == (var mid :- Walk(c, es); Step(mid, e))
    decreases |es|
  {
    if |es| == 0 {
      assert ([] + [e])[1..] == [];
    } else {
      assert (es + [e])[0] == es[0] && (es + [e])[1..] == es[1..] + [e];
      match Step(c, es[0])
      case Throws =>
      case Ok(next) => WalkSnoc(next, es[1..], e);
    }
  }

  /** Resolution returns the array the last step selects: the named array
      of the object the rest of the path reaches. */
  lemma ResolveLastArray(es: seq<PathElement>, name: string, msg: JObject)
    ensures Resolve(es + [Array(name)], msg) ==
              (var c :- Walk(Start(msg), es);
               match c.obj
               case None => Throws
               case Some(o) => GetArray(o, name))
  {
    WalkSnoc(Start(msg), es, Array(name));
  }

  /** An indexed step descends into element `index` of the named array,
      and the array it selected stays the result unless a later array step
      replaces it. */
  lemma ResolveIndexedThenArray(a: string, n: int, b: string, msg: JObject,
                                items: seq<Json>, o: JObject, records: seq<Json>)
    requires a in msg && msg[a] == JArr(items)
    requires 0 <= n < |items| && items[n] == JObj(o)
    requires b in o && o[b] == JArr(records)
    ensures Resolve([Indexed(a, n), Array(b)], msg) == Ok(Some(records))
  {
    var c1 := Cursor(Some(o), Some(items));
    var c2 := Cursor(Some(o), Some(records));
    assert Step(Start(msg), Indexed(a, n)) == Ok(c1);
    assert Step(c1, Array(b)) == Ok(c2);
    assert Walk(c1, [Array(b)]) == Ok(c2) by {
      assert [Array(b)][1..] == [];
    }
    assert [Indexed(a, n), Array(b)][1..] == [Array(b)];
  }

  /** A step through a missing object makes the next step throw. */
  lemma MissingObjectThrows(a: string, e: PathElement, msg: JObject)
    requires a !in msg
    ensures Resolve([Object(a), e], msg) == Throws
  {
    var c1 := Cursor(None, Some([]));
    assert Step(Start(msg), Object(a)) == Ok(c1);
    assert Walk(c1, [e]) == Throws;
    assert [Object(a), e][1..] == [e];
  }

  /** A path of no steps (the records data `>`) leaves the fresh empty array. */
  lemma ResolveEmpty(msg: JObject)
    ensures Resolve([], msg) == Ok(Some([]))
  {
  }

  // ---------------------------------------------------------------------
  // Rendering a path and compiling it back
  // ---------------------------------------------------------------------

  /** The text of one element. */
  function ElementText(e: PathElement): string {
    match e
    case Object(name) => name
    case Array(name) => name
    case Indexed(name, index) => name + "[" + LongToString(index) + "]"
  }

  function ElementTexts(es: seq<PathElement>): (r: seq<string>)
    ensures |r| == |es| && forall k :: 0 <= k < |es| ==> r[k] == ElementText(es[k])
  {
    if |es| == 0 then [] else [ElementText(es[0])] + ElementTexts(es[1..])
  }

  /** The path text of a non-empty list of elements. */
  function PathText(es: seq<PathElement>): string
    requires |es| >= 1
  {
    Join(ElementTexts(es), '>')
  }

  predicate PlainName(name: string) {
    '>' !in name && '[' !in name && ']' !in name
  }

  /** An element `RecordsFinder` can produce at position `k` of `n`: plain
      names, an `int` index, an array exactly at the end, an object
      anywhere else, and a non-empty last segment (`split` drops trailing
      empty ones). */
  predicate WellFormedAt(e: PathElement, k: int, n: int) {
    PlainName(e.name) &&
    (e.Indexed? ==> INT_MIN <= e.index <= INT_MAX) &&
    (e.Array? ==> k == n - 1 && e.name != "") &&
    (e.Object? ==> k < n - 1)
  }

  predicate WellFormed(es: seq<PathElement>) {
    |es| >= 1 && forall k :: 0 <= k < |es| ==> WellFormedAt(es[k], k, |es|)
  }

  /** The text of a well-formed element parses back to it. */
  lemma ParseElementText(e: PathElement, last: bool)
    requires PlainName(e.name)
    requires e.Indexed? ==> INT_MIN <= e.index <= INT_MAX
    requires (e.Array? ==> last) && (e.Object? ==> !last)
    ensures ParseElement(ElementText(e), last) == Ok(e)
  {
    match e
    case Indexed(name, index) => ParseIndexedText(name, index);
    case Object(name) => PlainNotIndexed(name);
    case Array(name) => PlainNotIndexed(name);
  }

  lemma PlainNotIndexed(name: string)
    requires ']' !in name
    ensures !EndsWith(name, "]")
  {
    if |name| > 0 {
      assert name[|name| - 1] in name;
    }
  }

  /** The digits of an index hold no bracket and no `>`. */
  lemma IndexTextPlain(index: int)
    ensures PlainName(LongToString(index))
  {
    var digits := LongToString(index);
    if index < 0 {
      assert digits == "-" + Digits(-index);
      assert forall k :: 1 <= k < |digits| ==> digits[k] == Digits(-index)[k - 1];
    }
  }

  lemma ParseIndexedText(name: string, index: int)
    requires PlainName(name) && INT_MIN <= index <= INT_MAX
    ensures ParseElement(ElementText(Indexed(name, index)), true) == Ok(Indexed(name, index))
    ensures ParseElement(ElementText(Indexed(name, index)), false) == Ok(Indexed(name, index))
  {
    var digits := LongToString(index);
    var t := ElementText(Indexed(name, index));
    IndexTextPlain(index);
    IndexedBrackets(t, name, digits);
    ParseDecimalOfString(index, INT_MIN, INT_MAX);
  }

  /** Where the brackets of `name[digits]` are. */
  lemma IndexedBrackets(t: string, name: string, digits: string)
    requires t == name + "[" + digits + "]"
    requires PlainName(name) && PlainName(digits)
    ensures EndsWith(t, "]")
    ensures Find(t, '[', 0) == |name| && Find(t, ']', 0) == |t| - 1
    ensures t[..|name|] == name && t[|name| + 1..|t| - 1] == digits
  {
    assert t[|t| - 1..] == "]";
    assert t[|name|] == '[';
    forall j | 0 <= j < |name| ensures t[j] != '[' {
      assert t[j] == name[j];
    }
    FindIs(t, '[', 0, |name|);
    forall j | 0 <= j < |t| - 1 ensures t[j] != ']' {
      if j < |name| {
        assert t[j] == name[j];
      } else if j > |name| {
        assert t[j] == digits[j - |name| - 1];
      }
    }
    FindIs(t, ']', 0, |t| - 1);
  }

  /** No element text holds the separator `>`. */
  lemma ElementTextPlain(e: PathElement)
    requires PlainName(e.name)
    ensures '>' !in ElementText(e)
  {
    if e.Indexed? {
      var digits := LongToString(e.index);
      IndexTextPlain(e.index);
      assert ElementText(e) == e.name + ("[" + digits + "]");
    }
  }

  /** Compilation undoes rendering: every well-formed path text compiles to
      the path it was rendered from. */
  lemma CompilePathText(es: seq<PathElement>)
    requires WellFormed(es)
    ensures Compile(PathText(es)) == Ok(es)
  {
    var texts := ElementTexts(es);
    forall k | 0 <= k < |texts| ensures '>' !in texts[k] {
      ElementTextPlain(es[k]);
    }
    var last := es[|es| - 1];
    assert texts[|es| - 1] != "" by {
      if last.Indexed? {
        assert ElementText(last) == last.name + "[" + LongToString(last.index) + "]";
      }
    }
    JavaSplitJoin(texts, '>');
    forall k | 0 <= k < |es| ensures ParseElement(texts[k], k == |es| - 1) == Ok(es[k]) {
      ParseElementText(es[k], k == |es| - 1);
    }
    ParseFromAll(texts, es, 0);
  }

  /** Segments that each parse to the matching element compile to the
      elements. */
  lemma {:induction false} ParseFromAll(segs: seq<string>, es: seq<PathElement>, i: nat)
    requires |segs| == |es| && i <= |segs|
    requires forall k :: i <= k < |segs| ==> ParseElement(segs[k], k == |segs| - 1) == Ok(es[k])
    ensures ParseFrom(segs, i) == Ok(es[i..])
    decreases |segs| - i
  {
    if i < |segs| {
      ParseFromAll(segs, es, i + 1);
      assert es[i..] == [es[i]] + es[i + 1..];
    }
  }

  /** The worked example of the path `request_data[0]>sites`. */
  lemma ExampleRecordsPath(msg: JObject, items: seq<Json>, o: JObject, records: seq<Json>)
    requires "request_data" in msg && msg["request_data"] == JArr(items)
    requires 0 < |items| && items[0] == JObj(o)
    requires "sites" in o && o["sites"] == JArr(records)
    ensures FindRecords("request_data[0]>sites", msg) == Ok(Some(records))
  {
    var es := [Indexed("request_data", 0), Array("sites")];
    ExamplePathText();
    CompileExample(es);
    ResolveIndexedThenArray("request_data", 0, "sites", msg, items, o, records);
  }

  lemma ExamplePathText()
    ensures PathText([Indexed("request_data", 0), Array("sites")]) == "request_data[0]>sites"
  {
    var es := [Indexed("request_data", 0), Array("sites")];
    assert LongToString(0) == "0";
    assert ElementText(es[0]) == "request_data[0]";
    assert ElementTexts(es) == ["request_data[0]", "sites"];
    assert Join(["request_data[0]", "sites"], '>') == "request_data[0]>sites";
  }

  lemma CompileExample(es: seq<PathElement>)
    requires es == [Indexed("request_data", 0), Array("sites")]
    ensures Compile(PathText(es)) == Ok(es)
  {
    assert WellFormedAt(es[0], 0, 2) && WellFormedAt(es[1], 1, 2);
    CompilePathText(es);
  }
}

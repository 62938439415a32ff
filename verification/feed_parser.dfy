/**
 The tag-flattening XML feed parser (`ParseFeedXMLFlat`).

 A page is scanned with `indexOf` cursors. Each `<tag_record>` ... `</tag_record>`
 span becomes one flat record: a tag immediately followed by its own closing tag
 yields a field whose value is the text between them, any nesting is ignored,
 and a tag listed in the `tag_map` also yields a derived field converted by the
 tag's format. The result is `{"request_data": [record, ...]}`.

 `ScanRecords`/`ScanFields` are the two cursor loops of `parse` written as
 recursive functions; `ParseLoop` is the same scan as the source writes it,
 with `while` loops, proved equal to them.
 */
module FeedParser {
  import opened Outcomes
  import opened Text
  import opened Json

  /** Library conversions the `tag_map` formats call, none of which is part of
      this model: `Double.parseDouble`, and the two `DateTimeFormatter.ISO_DATE_TIME`
      conversions (to a UTC ISO string, and to epoch seconds). `None` stands for
      the exception the library raises on malformed input. */
  datatype Conversions = Conversions(
    parseDouble: string -> Option<Double>,
    isoToUtc: string -> Option<string>,
    isoToEpochSecond: string -> Option<int>)

  /** The `format` of a `tag_map` entry, as the `switch` of `transform`
      distinguishes it; any other string copies the value. */
  datatype Format = IntFormat | FloatFormat | IsoToUtc | IsoToSeconds | CopyFormat

  /** One `tag_map` entry: the field to add and the conversion to apply
      (`new_tag`, `format`; either may be absent from the configuration). */
  datatype TagTransform = TagTransform(outputTag: Option<string>, format: Option<Format>)

  /** A `tag_map` entry as configured, with its `original_tag`. */
  datatype TagConfig = TagConfig(originalTag: Option<string>, transform: TagTransform)

  type TagMap = map<string, TagTransform>

  datatype FeedConfig = FeedConfig(tagRecord: string, tagMap: TagMap)

  /** The case of the `switch` in `transform` a format string selects. */
  function FormatOf(format: string): (f: Format)
    ensures f == IntFormat <==> format == "int"
    ensures f == FloatFormat <==> format == "float"
    ensures f == IsoToUtc <==> format == "datetime_iso_to_utc"
    ensures f == IsoToSeconds <==> format == "datetime_iso_to_int_utc_seconds"
  {
    if format == "int" then IntFormat
    else if format == "float" then FloatFormat
    else if format == "datetime_iso_to_utc" then IsoToUtc
    else if format == "datetime_iso_to_int_utc_seconds" then IsoToSeconds
    else CopyFormat
  }

  /** `TagTransform.transform`: the derived property for one tag value. A
      missing format or output tag, or a failed conversion, raises inside the
      source's `try` and yields the empty object. */
  function Transform(t: TagTransform, value: string, conv: Conversions): (r: JObject)
    ensures t.outputTag.None? || t.format.None? ==> r == map[]
    ensures t.outputTag.Some? ==> r.Keys <= {t.outputTag.value}
    ensures t.outputTag.Some? && t.format == Some(CopyFormat) ==> r == map[t.outputTag.value := JStr(value)]
  {
    if t.format.None? || t.outputTag.None? then map[]
    else
      var out := t.outputTag.value;
      match t.format.value
      case IntFormat =>
        (match ParseLong(value)
         case Some(n) => map[out := JInt(n)]
         case None => map[])
      case FloatFormat =>
        (match conv.parseDouble(value)
         case Some(d) => map[out := JFloat(d)]
         case None => map[])
      case IsoToUtc =>
        (match conv.isoToUtc(value)
         case Some(s) => map[out := JStr(s)]
         case None => map[])
      case IsoToSeconds =>
        (match conv.isoToEpochSecond(value)
         case Some(n) => map[out := JInt(n)]
         case None => map[])
      case CopyFormat => map[out := JStr(value)]
  }

  /** The `tag_map` HashMap built by the constructor: entries are put in
      order, so a later entry for the same original tag replaces an earlier
      one. A null `original_tag` is a key no tag name can look up. */
  function TagMapOf(configs: seq<TagConfig>): (m: TagMap)
    ensures forall k :: k in m <==> exists i :: 0 <= i < |configs| && configs[i].originalTag == Some(k)
    ensures forall i :: 0 <= i < |configs| && configs[i].originalTag.Some? &&
                        (forall j :: i < j < |configs| ==> configs[j].originalTag != configs[i].originalTag)
                        ==> m[configs[i].originalTag.value] == configs[i].transform
  {
    if |configs| == 0 then map[]
    else
      var init := TagMapOf(configs[..|configs| - 1]);
      var last := configs[|configs| - 1];
      assert forall i :: 0 <= i < |configs| - 1 ==> configs[..|configs| - 1][i] == configs[i];
      match last.originalTag
      case Some(k) => init[k := last.transform]
      case None => init
  }

  /** Reads one `tag_map` entry: `original_tag`, `new_tag`, `format`, in the
      order the constructor reads them. */
  function TagConfigOf(entry: JObject): Res<TagConfig> {
    var original :- GetString(entry, "original_tag");
    var output :- GetString(entry, "new_tag");
    var format :- GetString(entry, "format");
    var f := match format case Some(name) => Some(FormatOf(name)) case None => None;
    Ok(TagConfig(original, TagTransform(output, f)))
  }

  function TagConfigsOf(entries: seq<Json>): Res<seq<TagConfig>>
  {
    if |entries| == 0 then Ok([])
    else
      var e :- ArrayGetObject(entries, 0);
      if e.None? then Throws     // tag_config.getString on a null entry
      else
        var c :- TagConfigOf(e.value);
        var rest :- TagConfigsOf(entries[1..]);
        Ok([c] + rest)
  }

  /** The constructor: `feed_type` and `area_id` are read (and only kept
      for logging), `tag_record` defaults to "" and a null one is spliced
      into the search strings as the text "null"; `tag_map` defaults to the
      empty array, and an explicit null makes the loop over it throw. */
  function FeedConfigOf(config: JObject): (r: Res<FeedConfig>)
    ensures (GetString(config, "feed_type").Throws? || GetStringOr(config, "area_id", "").Throws? ||
             GetStringOr(config, "tag_record", "").Throws?) ==> r.Throws?
    ensures "tag_map" in config && (config["tag_map"] == JNull || !config["tag_map"].JArr?) ==> r.Throws?
    ensures r.Ok? ==> Ok(Some(r.value.tagRecord)) == GetStringOr(config, "tag_record", "") ||
                      (r.value.tagRecord == "null" && GetString(config, "tag_record") == Ok(None))
    ensures (GetString(config, "feed_type").Ok? && GetStringOr(config, "area_id", "").Ok? &&
             "tag_record" !in config && "tag_map" !in config) ==> r == Ok(FeedConfig("", map[]))
  {
    var feedType :- GetString(config, "feed_type");
    var areaId :- GetStringOr(config, "area_id", "");
    var tagRecord :- GetStringOr(config, "tag_record", "");
    var entries :- if "tag_map" in config then GetArray(config, "tag_map") else Ok(Some([]));
    if entries.None? then Throws
    else
      var configs :- TagConfigsOf(entries.value);
      Ok(FeedConfig(tagRecord.GetOr("null"), TagMapOf(configs)))
  }

  function OpenTag(t: string): string {
    "<" + t + ">"
  }

  function CloseTag(t: string): string {
    "</" + t + ">"
  }

  /** A recognised `tag`/`value` pair: stored verbatim, then the mapped
      property, if any, merged over it (`mergeIn`: the derived field wins). */
  function StoreField(rec: JObject, tag: string, value: string, tags: TagMap, conv: Conversions): JObject {
    var stored := rec[tag := JStr(value)];
    if tag in tags then stored + Transform(tags[tag], value, conv) else stored
  }

  /** Facts about the page that keep the field scan inside the record:
      `recordEnd` is where the record's closing tag starts. */
  predicate RecordBounds(page: string, recordEnd: int) {
    0 <= recordEnd < |page| && page[recordEnd] == '<'
  }

  /** What one pass of the inner loop of `parse` decides: go on from a new
      cursor with a new current tag and record, stop the record, or throw. */
  datatype Step = Next(cursor: int, current: string, rec: JObject) | Stop | Fail

  /** One pass of the inner loop, from `cursor` (strictly before `recordEnd`)
      with `current` the last tag seen: find the next tag, and store a field
      when that tag closes `current`. */
  function ScanStep(page: string, recordEnd: int, cursor: int, current: string,
                    rec: JObject, tags: TagMap, conv: Conversions): (s: Step)
    requires RecordBounds(page, recordEnd) && 0 <= cursor < recordEnd
    ensures s.Next? ==> cursor < s.cursor < |page|
  {
    var next := Find(page, '<', cursor);
    if next >= recordEnd then Stop
    else
      var tagClose := Find(page, '>', next);
      if tagClose < 0 then Stop                  // '<' without '>'
      else if page[tagClose - 1] == '/' then Stop  // self-closing tag
      else
        var tagSpace := Find(page, ' ', next);
        var tagEnd := if tagSpace > 0 && tagSpace < tagClose then tagSpace else tagClose;
        if tagEnd >= recordEnd then Stop
        else
          var nextTag := page[next + 1..tagEnd];
          if nextTag == "/" + current then
            // the value runs from after the previous '>' to this '<'
            if cursor + 1 > next then Fail
            else Next(tagClose, nextTag, StoreField(rec, current, page[cursor + 1..next], tags, conv))
          else Next(tagClose, nextTag, rec)
  }

  /** The inner loop of `parse`: fields of the record whose closing tag
      starts at `recordEnd`, from `cursor`, with `current` the last tag seen. */
  function ScanFields(page: string, recordEnd: int, cursor: int, current: string,
                      rec: JObject, tags: TagMap, conv: Conversions): Res<JObject>
    requires RecordBounds(page, recordEnd) && 0 <= cursor
    decreases |page| - cursor, 1
  {
    if cursor >= recordEnd then Ok(rec)
    else ScanFieldsFrom(page, recordEnd, cursor, current, rec, tags, conv)
  }

  /** One pass of the inner loop, then the rest of the loop. */
  function ScanFieldsFrom(page: string, recordEnd: int, cursor: int, current: string,
                          rec: JObject, tags: TagMap, conv: Conversions): Res<JObject>
    requires RecordBounds(page, recordEnd) && 0 <= cursor < recordEnd
    decreases |page| - cursor, 0
  {
    match ScanStep(page, recordEnd, cursor, current, rec, tags, conv)
    case Next(c, cur, r) => ScanFields(page, recordEnd, c, cur, r, tags, conv)
    case Stop => Ok(rec)
    case Fail => Throws
  }

  /** An opening and a closing record tag never start at the same index. */
  lemma OpenCloseDistinct(page: string, t: string, i: int)
    ensures !(OccursAt(page, OpenTag(t), i) && OccursAt(page, CloseTag(t), i))
  {
    var o := OpenTag(t);
    var c := CloseTag(t);
    if OccursAt(page, o, i) && OccursAt(page, c, i) {
      assert forall k :: 0 <= k < |o| ==> o[k] == page[i + k] == c[k] by {
        forall k | 0 <= k < |o| ensures o[k] == page[i + k] == c[k] {
          assert page[i..i + |o|][k] == page[i + k];
          assert page[i..i + |c|][k] == page[i + k];
        }
      }
      var k := 1;
      while k < |o| - 1
        invariant 1 <= k <= |o| - 1
        invariant o[k] == '/'
      {
        assert o[k + 1] == t[k] && c[k + 1] == t[k - 1] && o[k] == t[k - 1];
        k := k + 1;
      }
    }
  }

  /** Where the next record lies: the first opening record tag at or after
      `cursor`, and the first closing record tag at or after it; `None` when
      either is missing (an unclosed record ends the scan). */
  function FindRecord(page: string, t: string, cursor: int): (r: Option<(int, int)>)
    requires 0 <= cursor
    ensures r.Some? ==> cursor <= r.value.0 < r.value.1 && RecordBounds(page, r.value.1)
  {
    var start := IndexOf(page, OpenTag(t), cursor);
    if start < 0 then None
    else
      var recordEnd := IndexOf(page, CloseTag(t), start);
      if recordEnd < 0 then None
      else
        OpenCloseDistinct(page, t, start);
        assert CloseTag(t)[0] == '<';
        assert page[recordEnd..recordEnd + |CloseTag(t)|][0] == page[recordEnd];
        Some((start, recordEnd))
  }

  /** The outer loop of `parse`: records from `cursor` on. The search for
      the next record resumes at the previous record's closing tag. */
  function ScanRecords(page: string, t: string, cursor: int, tags: TagMap, conv: Conversions): Res<seq<JObject>>
    requires 0 <= cursor
    decreases |page| - cursor
  {
    if cursor >= |page| then Ok([])
    else
      match FindRecord(page, t, cursor)
      case None => Ok([])
      case Some((start, recordEnd)) =>
        var rec :- ScanFields(page, recordEnd, start, "", map[], tags, conv);
        var rest :- ScanRecords(page, t, recordEnd, tags, conv);
        Ok([rec] + rest)
  }

  function Envelope(records: seq<JObject>): (msg: JObject)
    ensures msg.Keys == {"request_data"}
    ensures msg["request_data"].JArr? && |msg["request_data"].items| == |records|
    ensures forall i :: 0 <= i < |records| ==> msg["request_data"].items[i] == JObj(records[i])
  {
    map["request_data" := JArr(seq(|records|, i requires 0 <= i < |records| => JObj(records[i])))]
  }

  /** `ParseFeedXMLFlat.parse`. */
  function Parse(page: string, cfg: FeedConfig, conv: Conversions): Res<JObject> {
    var records :- ScanRecords(page, cfg.tagRecord, 0, cfg.tagMap, conv);
    Ok(Envelope(records))
  }

  /** Prefixes the records already collected to the outcome of the rest of the scan. */
  function Prepend(records: seq<JObject>, rest: Res<seq<JObject>>): (r: Res<seq<JObject>>)
    ensures records == [] ==> r == rest
  {
    assert rest.Ok? ==> [] + rest.value == rest.value;
    match rest
    case Ok(more) => Ok(records + more)
    case Throws => Throws
  }

  lemma PrependStep(records: seq<JObject>, rec: JObject, rest: Res<seq<JObject>>)
    ensures Prepend(records, (var more :- rest; Ok([rec] + more))) == Prepend(records + [rec], rest)
  {
    if rest.Ok? {
      assert records + ([rec] + rest.value) == records + [rec] + rest.value;
    }
  }

  /** The inner loop of `parse` as the source writes it: the fields of the
      record starting at `start` whose closing tag starts at `recordEnd`. */
  method ScanFieldsLoop(page: string, start: int, recordEnd: int, tags: TagMap, conv: Conversions)
    returns (r: Res<JObject>)
    requires RecordBounds(page, recordEnd) && 0 <= start
    ensures r == ScanFields(page, recordEnd, start, "", map[], tags, conv)
  {
    var rec: JObject := map[];
    var current := "";
    var cursor := start;
    while cursor < recordEnd
      invariant 0 <= cursor
      invariant ScanFields(page, recordEnd, start, "", map[], tags, conv) == ScanFields(page, recordEnd, cursor, current, rec, tags, conv)
      decreases |page| - cursor
    {
      assert ScanFields(page, recordEnd, cursor, current, rec, tags, conv) ==
             ScanFieldsFrom(page, recordEnd, cursor, current, rec, tags, conv);
      match ScanStep(page, recordEnd, cursor, current, rec, tags, conv)
      case Stop =>
        break;
      case Fail =>
        return Throws;
      case Next(c, cur, stored) =>
        cursor, current, rec := c, cur, stored;
    }
    return Ok(rec);
  }

  /** `parse` as the source writes it: an outer loop over records, each
      scanned by `ScanFieldsLoop`, both driven by `indexOf`. */
  method ParseLoop(page: string, cfg: FeedConfig, conv: Conversions) returns (r: Res<JObject>)
    ensures r == Parse(page, cfg, conv)
  {
    var t := cfg.tagRecord;
    var tags := cfg.tagMap;
    var records: seq<JObject> := [];
    var recordCursor := 0;
    while recordCursor < |page|
      invariant 0 <= recordCursor
      invariant ScanRecords(page, t, 0, tags, conv) == Prepend(records, ScanRecords(page, t, recordCursor, tags, conv))
      decreases |page| - recordCursor
    {
      ghost var found := FindRecord(page, t, recordCursor);
      var start := IndexOf(page, OpenTag(t), recordCursor);
      if start < 0 {
        assert found == None;
        break;
      }
      var recordEnd := IndexOf(page, CloseTag(t), start);
      if recordEnd < 0 {
        assert found == None;
        break;
      }
      assert found == Some((start, recordEnd));
      var rec := ScanFieldsLoop(page, start, recordEnd, tags, conv);
      if rec.Throws? {
        return Throws;
      }
      PrependStep(records, rec.value, ScanRecords(page, t, recordEnd, tags, conv));
      records := records + [rec.value];
      recordCursor := recordEnd;
    }
    assert records + [] == records;
    assert ScanRecords(page, t, 0, tags, conv) == Ok(records);
    return Ok(Envelope(records));
  }
}

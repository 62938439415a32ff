/**
 What the tag-flattening scan does, stated about page layouts rather than
 about cursors.

 The step lemmas say what one pass of the inner loop does with a tag at a
 given place in the page. The main theorem, `ParseRendered`, renders a list
 of flat records as XML (leaf elements `<name attrs>value</name>` between
 `<tag_record>` and `</tag_record>`, with free text between them) and proves
 that `Parse` gives back exactly those records, in document order, each field
 stored under its name with its `tag_map` conversion merged over it.
 */
module FeedParserFacts {
  import opened Outcomes
  import opened Text
  import opened Json
  import opened FeedParser

  // ---------------------------------------------------------------------
  // Characters at page positions
  // ---------------------------------------------------------------------

  /** No `c` among `page[lo..hi]`. */
  predicate NoChar(page: string, c: char, lo: int, hi: int) {
    0 <= lo && hi <= |page| && forall k :: lo <= k < hi ==> page[k] != c
  }

  lemma SliceChars(page: string, a: int, b: int, s: string)
    requires 0 <= a <= b <= |page| && page[a..b] == s
    ensures forall k :: a <= k < b ==> page[k] == s[k - a]
  {
    forall k | a <= k < b
      ensures page[k] == s[k - a]
    {
      assert page[a..b][k - a] == page[k];
    }
  }

  lemma SliceNoChar(page: string, a: int, b: int, s: string, c: char)
    requires 0 <= a <= b <= |page| && page[a..b] == s && c !in s
    ensures NoChar(page, c, a, b)
  {
    SliceChars(page, a, b, s);
  }

  // ---------------------------------------------------------------------
  // One pass of the inner loop
  // ---------------------------------------------------------------------

  /** Where the searches of one pass land for a tag between `lt` and `gt`
      whose name ends at `tagEnd`. */
  lemma TagFound(page: string, cursor: int, lt: int, tagEnd: int, gt: int)
    requires 0 <= cursor <= lt < tagEnd <= gt < |page|
    requires NoChar(page, '<', cursor, lt) && page[lt] == '<'
    requires NoChar(page, '>', lt, gt) && page[gt] == '>'
    requires NoChar(page, ' ', lt, tagEnd) && (tagEnd == gt || page[tagEnd] == ' ')
    ensures Find(page, '<', cursor) == lt && Find(page, '>', lt) == gt
    ensures var sp := Find(page, ' ', lt); (if sp > 0 && sp < gt then sp else gt) == tagEnd
  {
    FindIs(page, '<', cursor, lt);
    FindIs(page, '>', lt, gt);
    if tagEnd < gt {
      FindIs(page, ' ', lt, tagEnd);
    }
  }

  /** One pass over a tag that does not close the current one, given where
      its searches land. */
  lemma StepOfOpen(page: string, recordEnd: int, cursor: int, lt: int, tagEnd: int, gt: int,
                   current: string, rec: JObject, tags: TagMap, conv: Conversions)
    requires RecordBounds(page, recordEnd) && 0 <= cursor <= lt < tagEnd <= gt < |page| && tagEnd < recordEnd
    requires Find(page, '<', cursor) == lt && Find(page, '>', lt) == gt && page[gt - 1] != '/'
    requires var sp := Find(page, ' ', lt); (if sp > 0 && sp < gt then sp else gt) == tagEnd
    requires page[lt + 1..tagEnd] != "/" + current
    ensures ScanStep(page, recordEnd, cursor, current, rec, tags, conv) == Next(gt, page[lt + 1..tagEnd], rec)
  {
  }

  /** One pass over a tag that closes the current one, given where its
      searches land. */
  lemma StepOfClose(page: string, recordEnd: int, cursor: int, lt: int, tagEnd: int, gt: int,
                    current: string, rec: JObject, tags: TagMap, conv: Conversions)
    requires RecordBounds(page, recordEnd) && 0 <= cursor < lt < tagEnd <= gt < |page| && tagEnd < recordEnd
    requires Find(page, '<', cursor) == lt && Find(page, '>', lt) == gt && page[gt - 1] != '/'
    requires var sp := Find(page, ' ', lt); (if sp > 0 && sp < gt then sp else gt) == tagEnd
    requires page[lt + 1..tagEnd] == "/" + current
    ensures ScanStep(page, recordEnd, cursor, current, rec, tags, conv) ==
            Next(gt, "/" + current, StoreField(rec, current, page[cursor + 1..lt], tags, conv))
  {
  }

  /** A tag `<name ...>` whose '<' is the first after the cursor, whose name
      ends at `tagEnd` (the first space inside the tag, or its '>'), and which
      does not close the current tag: the scan moves to the tag's '>' with
      `name` as the current tag and stores nothing. */
  lemma ScanStepOpen(page: string, recordEnd: int, cursor: int, lt: int, tagEnd: int, gt: int,
                     current: string, rec: JObject, tags: TagMap, conv: Conversions)
    requires RecordBounds(page, recordEnd) && 0 <= cursor <= lt < tagEnd <= gt < |page| && tagEnd < recordEnd
    requires NoChar(page, '<', cursor, lt) && page[lt] == '<'
    requires NoChar(page, '>', lt, gt) && page[gt] == '>' && page[gt - 1] != '/'
    requires NoChar(page, ' ', lt, tagEnd) && (tagEnd == gt || page[tagEnd] == ' ')
    requires page[lt + 1..tagEnd] != "/" + current
    ensures ScanStep(page, recordEnd, cursor, current, rec, tags, conv) == Next(gt, page[lt + 1..tagEnd], rec)
  {
    TagFound(page, cursor, lt, tagEnd, gt);
    StepOfOpen(page, recordEnd, cursor, lt, tagEnd, gt, current, rec, tags, conv);
  }

  /** A tag `</X ...>` right after the tag `X` was current: the scan stores
      field `X`, whose value is exactly the text between the previous '>'
      and this '<', and moves to the tag's '>'. */
  lemma ScanStepClose(page: string, recordEnd: int, cursor: int, lt: int, tagEnd: int, gt: int,
                      current: string, rec: JObject, tags: TagMap, conv: Conversions)
    requires RecordBounds(page, recordEnd) && 0 <= cursor < lt < tagEnd <= gt < |page| && tagEnd < recordEnd
    requires NoChar(page, '<', cursor, lt) && page[lt] == '<'
    requires NoChar(page, '>', lt, gt) && page[gt] == '>' && page[gt - 1] != '/'
    requires NoChar(page, ' ', lt, tagEnd) && (tagEnd == gt || page[tagEnd] == ' ')
    requires page[lt + 1..tagEnd] == "/" + current
    ensures ScanStep(page, recordEnd, cursor, current, rec, tags, conv) ==
            Next(gt, "/" + current, StoreField(rec, current, page[cursor + 1..lt], tags, conv))
  {
    TagFound(page, cursor, lt, tagEnd, gt);
    StepOfClose(page, recordEnd, cursor, lt, tagEnd, gt, current, rec, tags, conv);
  }

  /** A self-closing tag `<.../>` ends the scan of the record: the fields
      found so far are the record. */
  lemma ScanStopsAtSelfClosing(page: string, recordEnd: int, cursor: int, lt: int, gt: int,
                               current: string, rec: JObject, tags: TagMap, conv: Conversions)
    requires RecordBounds(page, recordEnd) && 0 <= cursor <= lt < gt < |page| && lt < recordEnd
    requires NoChar(page, '<', cursor, lt) && page[lt] == '<'
    requires NoChar(page, '>', lt, gt) && page[gt] == '>' && page[gt - 1] == '/'
    ensures ScanFields(page, recordEnd, cursor, current, rec, tags, conv) == Ok(rec)
  {
    FindIs(page, '<', cursor, lt);
    FindIs(page, '>', lt, gt);
    assert ScanStep(page, recordEnd, cursor, current, rec, tags, conv) == Stop;
  }

  /** With no '<' between the cursor and the record's closing tag, the scan
      of the record ends with the fields found so far. */
  lemma ScanStopsAtRecordEnd(page: string, recordEnd: int, cursor: int,
                             current: string, rec: JObject, tags: TagMap, conv: Conversions)
    requires RecordBounds(page, recordEnd) && 0 <= cursor && NoChar(page, '<', cursor, recordEnd)
    ensures ScanFields(page, recordEnd, cursor, current, rec, tags, conv) == Ok(rec)
  {
    if cursor < recordEnd {
      FindIs(page, '<', cursor, recordEnd);
      assert ScanStep(page, recordEnd, cursor, current, rec, tags, conv) == Stop;
    }
  }

  // ---------------------------------------------------------------------
  // Rendered records
  // ---------------------------------------------------------------------

  /** A name the scan reads back whole: nonempty, without the characters
      that end a name or a tag, and without '/'. */
  predicate ValidName(n: string) {
    |n| > 0 && '<' !in n && '>' !in n && '/' !in n && ' ' !in n
  }

  /** Attributes after a tag name: empty, or starting with the space that
      ends the name and not ending in '/'; never a '<' or '>'. */
  predicate ValidAttrs(a: string) {
    '<' !in a && '>' !in a && (a == "" || (a[0] == ' ' && a[|a| - 1] != '/'))
  }

  /** A leaf element `<name attrs>value</name>` after some text `gap`. */
  datatype Field = Field(gap: string, name: string, attrs: string, value: string)

  /** A self-closing element `<name attrs/>` after some text `gap`, and the
      fields after it, which the scan never reaches. */
  datatype SelfClosed = SelfClosed(gap: string, name: string, attrs: string, after: seq<Field>)

  /** One `<tag_record>` element after some text `lead`; `trail` is the text
      before its closing tag. */
  datatype Record = Record(lead: string, fields: seq<Field>, cut: Option<SelfClosed>, trail: string)

  predicate ValidField(f: Field, t: string) {
    '<' !in f.gap && ValidName(f.name) && f.name != t && ValidAttrs(f.attrs) && '<' !in f.value
  }

  predicate ValidFields(fs: seq<Field>, t: string) {
    forall i :: 0 <= i < |fs| ==> ValidField(fs[i], t)
  }

  predicate ValidCut(c: SelfClosed, t: string) {
    '<' !in c.gap && ValidName(c.name) && ValidAttrs(c.attrs) && ValidFields(c.after, t)
  }

  predicate ValidRecord(r: Record, t: string) {
    Free(r.lead, OpenTag(t)) && ValidFields(r.fields, t) &&
    (r.cut.Some? ==> ValidCut(r.cut.value, t)) && '<' !in r.trail
  }

  /** What may follow the last record: text where no further record starts,
      or where no record is ever closed. */
  predicate ValidTail(tail: string, t: string) {
    Free(tail, OpenTag(t)) || Free(tail, CloseTag(t))
  }

  function ElementStart(name: string, attrs: string): string {
    "<" + name + attrs
  }

  function FieldText(f: Field): string {
    f.gap + ElementStart(f.name, f.attrs) + ">" + f.value + CloseTag(f.name)
  }

  function FieldsText(fs: seq<Field>): string {
    if |fs| == 0 then "" else FieldText(fs[0]) + FieldsText(fs[1..])
  }

  function CutText(c: Option<SelfClosed>): string {
    match c
    case None => ""
    case Some(s) => s.gap + ElementStart(s.name, s.attrs) + "/>" + FieldsText(s.after)
  }

  function BodyText(r: Record): string {
    FieldsText(r.fields) + CutText(r.cut) + r.trail
  }

  function RecordText(t: string, r: Record): string {
    r.lead + OpenTag(t) + BodyText(r) + CloseTag(t)
  }

  function DocText(t: string, rs: seq<Record>, tail: string): string {
    if |rs| == 0 then tail else RecordText(t, rs[0]) + DocText(t, rs[1..], tail)
  }

  /** The record the scan should build from fields stored in order. */
  function Flatten(fs: seq<Field>, rec: JObject, tags: TagMap, conv: Conversions): JObject {
    if |fs| == 0 then rec
    else Flatten(fs[1..], StoreField(rec, fs[0].name, fs[0].value, tags, conv), tags, conv)
  }

  function Expected(rs: seq<Record>, tags: TagMap, conv: Conversions): seq<JObject> {
    if |rs| == 0 then [] else [Flatten(rs[0].fields, map[], tags, conv)] + Expected(rs[1..], tags, conv)
  }

  // ---------------------------------------------------------------------
  // Layout of a rendered field
  // ---------------------------------------------------------------------

  /** Where the pieces of a field's text lie when it follows position `pos`. */
  predicate FieldAt(page: string, pos: int, f: Field) {
    var lt1 := pos + 1 + |f.gap|;
    var gt1 := lt1 + 1 + |f.name| + |f.attrs|;
    var lt2 := gt1 + 1 + |f.value|;
    0 <= pos && lt2 + 3 + |f.name| <= |page| &&
    page[pos + 1..lt1] == f.gap && page[lt1..gt1] == ElementStart(f.name, f.attrs) &&
    page[gt1] == '>' && page[gt1 + 1..lt2] == f.value && page[lt2..lt2 + 3 + |f.name|] == CloseTag(f.name)
  }

  lemma CharOfSlice(page: string, i: int, c: char)
    requires 0 <= i < |page| && page[i..i + 1] == [c]
    ensures page[i] == c
  {
    assert page[i..i + 1][0] == page[i];
  }

  lemma FieldLayout(page: string, pos: int, f: Field)
    requires 0 <= pos && pos + 1 + |FieldText(f)| <= |page|
    requires page[pos + 1..pos + 1 + |FieldText(f)|] == FieldText(f)
    ensures FieldAt(page, pos, f)
  {
    var p := pos + 1;
    var es := ElementStart(f.name, f.attrs);
    var front := f.gap + es + ">" + f.value;
    SliceParts(page, p, front, CloseTag(f.name));
    SliceParts(page, p, f.gap + es + ">", f.value);
    SliceParts(page, p, f.gap + es, ">");
    SliceParts(page, p, f.gap, es);
    CharOfSlice(page, p + |f.gap| + |es|, '>');
  }

  /** The characters of a tag start `<name attrs` at `lt`. */
  lemma ElementStartChars(page: string, lt: int, name: string, attrs: string)
    requires ValidName(name) && ValidAttrs(attrs)
    requires 0 <= lt && lt + 1 + |name| + |attrs| <= |page|
    requires page[lt..lt + 1 + |name| + |attrs|] == ElementStart(name, attrs)
    ensures var nameEnd := lt + 1 + |name|;
            page[lt] == '<' && page[lt + 1..nameEnd] == name && page[lt + 1] != '/' &&
            NoChar(page, '<', lt + 1, nameEnd + |attrs|) && NoChar(page, '>', lt, nameEnd + |attrs|) &&
            NoChar(page, ' ', lt, nameEnd) && page[nameEnd + |attrs| - 1] != '/' &&
            (|attrs| > 0 ==> page[nameEnd] == ' ')
  {
    var nameEnd := lt + 1 + |name|;
    SliceParts(page, lt, "<" + name, attrs);
    SliceParts(page, lt, "<", name);
    CharOfSlice(page, lt, '<');
    SliceChars(page, lt + 1, nameEnd, name);
    SliceChars(page, nameEnd, nameEnd + |attrs|, attrs);
    assert name[0] in name && name[|name| - 1] in name;
    if |attrs| > 0 {
      assert attrs[|attrs| - 1] in attrs;
    }
  }

  /** The characters of a closing tag `</name>` at `lt`. */
  lemma CloseTagChars(page: string, lt: int, name: string)
    requires ValidName(name)
    requires 0 <= lt && lt + 3 + |name| <= |page| && page[lt..lt + 3 + |name|] == CloseTag(name)
    ensures var gt := lt + 2 + |name|;
            page[lt] == '<' && page[lt + 1..gt] == "/" + name && page[gt] == '>' &&
            page[lt + 2..gt] == name && page[lt + 1] == '/' &&
            NoChar(page, '<', lt + 1, gt + 1) && NoChar(page, '>', lt, gt) &&
            NoChar(page, ' ', lt, gt) && page[gt - 1] != '/'
  {
    var gt := lt + 2 + |name|;
    SliceParts(page, lt, "</" + name, ">");
    SliceParts(page, lt, "</", name);
    SliceParts(page, lt, "<", "/");
    CharOfSlice(page, lt, '<');
    CharOfSlice(page, lt + 1, '/');
    CharOfSlice(page, gt, '>');
    SliceChars(page, lt + 2, gt, name);
    assert page[lt + 1..gt] == [page[lt + 1]] + page[lt + 2..gt];
    assert name[|name| - 1] in name;
  }

  // ---------------------------------------------------------------------
  // Scanning rendered fields
  // ---------------------------------------------------------------------

  /** The current tag after scanning `fs` from `current`. */
  function LastTag(fs: seq<Field>, current: string): string {
    if |fs| == 0 then current else "/" + fs[|fs| - 1].name
  }

  /** A field the scan reads back: the name is read whole and neither the
      text before the element nor its value holds a '<'. */
  predicate WellFormedField(f: Field) {
    '<' !in f.gap && ValidName(f.name) && ValidAttrs(f.attrs) && '<' !in f.value
  }

  predicate WellFormedFields(fs: seq<Field>) {
    forall i :: 0 <= i < |fs| ==> WellFormedField(fs[i])
  }

  /** The scan goes on from where a pass that does not stop leaves it. */
  lemma ScanFieldsNext(page: string, recordEnd: int, cursor: int, current: string, rec: JObject,
                       c: int, cur: string, r: JObject, tags: TagMap, conv: Conversions)
    requires RecordBounds(page, recordEnd) && 0 <= cursor < recordEnd
    requires ScanStep(page, recordEnd, cursor, current, rec, tags, conv) == Next(c, cur, r)
    ensures ScanFields(page, recordEnd, cursor, current, rec, tags, conv) == ScanFields(page, recordEnd, c, cur, r, tags, conv)
  {
  }

  /** A valid name never reads as a closing tag. */
  lemma NotCloseTag(name: string, current: string)
    requires ValidName(name)
    ensures name != "/" + current
  {
    assert name[0] in name;
  }

  /** Where the searches of a pass land on a field's opening tag. */
  lemma FieldOpenChars(page: string, pos: int, f: Field, lt1: int, tagEnd: int, gt1: int)
    requires FieldAt(page, pos, f) && page[pos] == '>' && WellFormedField(f)
    requires lt1 == pos + 1 + |f.gap| && gt1 == lt1 + 1 + |f.name| + |f.attrs|
    requires tagEnd == if |f.attrs| > 0 then lt1 + 1 + |f.name| else gt1
    ensures NoChar(page, '<', pos, lt1) && page[lt1] == '<'
    ensures NoChar(page, '>', lt1, gt1) && page[gt1] == '>' && page[gt1 - 1] != '/'
    ensures NoChar(page, ' ', lt1, tagEnd) && (tagEnd == gt1 || page[tagEnd] == ' ')
    ensures page[lt1 + 1..tagEnd] == f.name
  {
    SliceNoChar(page, pos + 1, lt1, f.gap, '<');
    ElementStartChars(page, lt1, f.name, f.attrs);
  }


  /** The opening tag of a field: the scan moves to its '>' (at `gt1`) with
      the field's name as the current tag, storing nothing. */
  lemma FieldOpenStep(page: string, recordEnd: int, pos: int, f: Field, gt1: int,
                      current: string, rec: JObject, tags: TagMap, conv: Conversions)
    requires RecordBounds(page, recordEnd) && FieldAt(page, pos, f) && page[pos] == '>'
    requires WellFormedField(f) && pos + 1 + |FieldText(f)| <= recordEnd
    requires gt1 == pos + 1 + |f.gap| + 1 + |f.name| + |f.attrs|
    ensures ScanStep(page, recordEnd, pos, current, rec, tags, conv) == Next(gt1, f.name, rec)
  {
    var lt1 := pos + 1 + |f.gap|;
    var tagEnd := if |f.attrs| > 0 then lt1 + 1 + |f.name| else gt1;
    FieldOpenChars(page, pos, f, lt1, tagEnd, gt1);
    FieldTextLength(f);
    NotCloseTag(f.name, current);
    ScanStepOpen(page, recordEnd, pos, lt1, tagEnd, gt1, current, rec, tags, conv);
  }

  /** The closing tag of a field right after its opening tag: the scan
      stores the field, with the text between the tags as its value, and
      moves to the field's last '>' (at `end`). */
  lemma FieldCloseStep(page: string, recordEnd: int, pos: int, f: Field, gt1: int, end: int,
                       rec: JObject, tags: TagMap, conv: Conversions)
    requires RecordBounds(page, recordEnd) && FieldAt(page, pos, f)
    requires WellFormedField(f) && pos + 1 + |FieldText(f)| <= recordEnd
    requires gt1 == pos + 1 + |f.gap| + 1 + |f.name| + |f.attrs| && end == pos + |FieldText(f)|
    ensures ScanStep(page, recordEnd, gt1, f.name, rec, tags, conv) ==
            Next(end, "/" + f.name, StoreField(rec, f.name, f.value, tags, conv))
  {
    var lt2 := gt1 + 1 + |f.value|;
    FieldTextLength(f);
    SliceNoChar(page, gt1 + 1, lt2, f.value, '<');
    CloseTagChars(page, lt2, f.name);
    ScanStepClose(page, recordEnd, gt1, lt2, end, end, f.name, rec, tags, conv);
  }

  lemma FieldTextLength(f: Field)
    ensures |FieldText(f)| == |f.gap| + |f.name| + |f.attrs| + |f.value| + |f.name| + 5
  {
  }

  /** Two passes that do not stop compose. */
  lemma ScanTwoSteps(page: string, recordEnd: int, pos: int, current: string, rec: JObject,
                     mid: int, midTag: string, midRec: JObject, end: int, endTag: string, endRec: JObject,
                     tags: TagMap, conv: Conversions)
    requires RecordBounds(page, recordEnd) && 0 <= pos < mid < recordEnd
    requires ScanStep(page, recordEnd, pos, current, rec, tags, conv) == Next(mid, midTag, midRec)
    requires ScanStep(page, recordEnd, mid, midTag, midRec, tags, conv) == Next(end, endTag, endRec)
    ensures ScanFields(page, recordEnd, pos, current, rec, tags, conv) ==
            ScanFields(page, recordEnd, end, endTag, endRec, tags, conv)
  {
    ScanFieldsNext(page, recordEnd, pos, current, rec, mid, midTag, midRec, tags, conv);
    ScanFieldsNext(page, recordEnd, mid, midTag, midRec, end, endTag, endRec, tags, conv);
  }

  /** Scanning one rendered field stores it and leaves the cursor on the
      field's last '>', at `end`. */
  lemma FieldScan(page: string, recordEnd: int, pos: int, f: Field, end: int,
                  current: string, rec: JObject, tags: TagMap, conv: Conversions)
    requires RecordBounds(page, recordEnd) && 0 <= pos && pos + 1 + |FieldText(f)| <= recordEnd
    requires page[pos] == '>' && WellFormedField(f)
    requires page[pos + 1..pos + 1 + |FieldText(f)|] == FieldText(f)
    requires end == pos + |FieldText(f)|
    ensures page[end] == '>'
    ensures ScanFields(page, recordEnd, pos, current, rec, tags, conv) ==
            ScanFields(page, recordEnd, end, "/" + f.name, StoreField(rec, f.name, f.value, tags, conv), tags, conv)
  {
    FieldLayout(page, pos, f);
    FieldTextLength(f);
    var gt1 := pos + 1 + |f.gap| + 1 + |f.name| + |f.attrs|;
    CloseTagChars(page, gt1 + 1 + |f.value|, f.name);
    FieldOpenStep(page, recordEnd, pos, f, gt1, current, rec, tags, conv);
    FieldCloseStep(page, recordEnd, pos, f, gt1, end, rec, tags, conv);
    ScanTwoSteps(page, recordEnd, pos, current, rec, gt1, f.name, rec,
                 end, "/" + f.name, StoreField(rec, f.name, f.value, tags, conv), tags, conv);
  }

  /** A run of rendered fields is its first field followed by the rest;
      the first field's last '>' is at `mid`. */
  lemma FieldsSplit(page: string, pos: int, mid: int, fs: seq<Field>)
    requires |fs| > 0 && 0 <= pos && pos + 1 + |FieldsText(fs)| <= |page|
    requires WellFormedFields(fs) && mid == pos + |FieldText(fs[0])|
    requires page[pos + 1..pos + 1 + |FieldsText(fs)|] == FieldsText(fs)
    ensures pos + 1 + |FieldText(fs[0])| <= pos + 1 + |FieldsText(fs)|
    ensures mid + 1 + |FieldsText(fs[1..])| == pos + 1 + |FieldsText(fs)|
    ensures WellFormedField(fs[0]) && WellFormedFields(fs[1..])
    ensures page[pos + 1..pos + 1 + |FieldText(fs[0])|] == FieldText(fs[0])
    ensures page[mid + 1..mid + 1 + |FieldsText(fs[1..])|] == FieldsText(fs[1..])
  {
    SliceParts(page, pos + 1, FieldText(fs[0]), FieldsText(fs[1..]));
    assert WellFormedField(fs[0]);
    forall i | 0 <= i < |fs| - 1 ensures WellFormedField(fs[1..][i]) {
      assert fs[1..][i] == fs[i + 1];
    }
  }

  /** The run of fields `fs` is rendered on the page right after the '>'
      at `pos`, inside the record. */
  predicate FieldsAt(page: string, recordEnd: int, pos: int, fs: seq<Field>) {
    RecordBounds(page, recordEnd) && 0 <= pos && pos + 1 + |FieldsText(fs)| <= recordEnd &&
    page[pos] == '>' && WellFormedFields(fs) &&
    page[pos + 1..pos + 1 + |FieldsText(fs)|] == FieldsText(fs)
  }

  /** The first field of a run: scanning it leaves the cursor at `mid`,
      where the rest of the run starts, and what the whole run leaves is
      what the rest leaves from there. */
  lemma FieldsStep(page: string, recordEnd: int, pos: int, mid: int, fs: seq<Field>,
                   current: string, rec: JObject, tag: string, stored: JObject, tags: TagMap, conv: Conversions)
    requires FieldsAt(page, recordEnd, pos, fs) && |fs| > 0
    requires mid == pos + |FieldText(fs[0])| && tag == "/" + fs[0].name
    requires stored == StoreField(rec, fs[0].name, fs[0].value, tags, conv)
    ensures FieldsAt(page, recordEnd, mid, fs[1..])
    ensures pos + |FieldsText(fs)| == mid + |FieldsText(fs[1..])|
    ensures LastTag(fs, current) == LastTag(fs[1..], tag)
    ensures Flatten(fs, rec, tags, conv) == Flatten(fs[1..], stored, tags, conv)
    ensures ScanFields(page, recordEnd, pos, current, rec, tags, conv) ==
            ScanFields(page, recordEnd, mid, tag, stored, tags, conv)
  {
    FieldsSplit(page, pos, mid, fs);
    FieldScan(page, recordEnd, pos, fs[0], mid, current, rec, tags, conv);
  }

  /** Scanning a run of rendered fields stores each of them in order,
      leaving the cursor at `end` with `endTag` current and `endRec` built. */
  lemma {:induction false} FieldsScan(page: string, recordEnd: int, pos: int, fs: seq<Field>,
                                      current: string, rec: JObject, end: int, endTag: string, endRec: JObject,
                                      tags: TagMap, conv: Conversions)
    requires FieldsAt(page, recordEnd, pos, fs)
    requires end == pos + |FieldsText(fs)| && endTag == LastTag(fs, current) && endRec == Flatten(fs, rec, tags, conv)
    ensures page[end] == '>'
    ensures ScanFields(page, recordEnd, pos, current, rec, tags, conv) ==
            ScanFields(page, recordEnd, end, endTag, endRec, tags, conv)
    decreases |fs|
  {
    if |fs| > 0 {
      var mid := pos + |FieldText(fs[0])|;
      var tag := "/" + fs[0].name;
      var stored := StoreField(rec, fs[0].name, fs[0].value, tags, conv);
      FieldsStep(page, recordEnd, pos, mid, fs, current, rec, tag, stored, tags, conv);
      FieldsScan(page, recordEnd, mid, fs[1..], tag, stored, end, endTag, endRec, tags, conv);
    } else {
      assert end == pos && endTag == current && endRec == rec;
    }
  }

  // ---------------------------------------------------------------------
  // Scanning a rendered record
  // ---------------------------------------------------------------------

  lemma ValidFieldsWellFormed(fs: seq<Field>, t: string)
    requires ValidFields(fs, t)
    ensures WellFormedFields(fs)
  {
    forall i | 0 <= i < |fs| ensures WellFormedField(fs[i]) {
      assert ValidField(fs[i], t);
    }
  }

  /** The characters of an opening record tag `<t>` at `lt`. */
  lemma OpenTagChars(page: string, lt: int, t: string)
    requires ValidName(t)
    requires 0 <= lt && lt + 2 + |t| <= |page| && page[lt..lt + 2 + |t|] == OpenTag(t)
    ensures var gt := lt + 1 + |t|;
            page[lt] == '<' && page[lt + 1..gt] == t && page[gt] == '>' &&
            NoChar(page, '>', lt, gt) && NoChar(page, ' ', lt, gt) && page[gt - 1] != '/'
  {
    var gt := lt + 1 + |t|;
    SliceParts(page, lt, "<" + t, ">");
    SliceParts(page, lt, "<", t);
    CharOfSlice(page, lt, '<');
    CharOfSlice(page, gt, '>');
    SliceChars(page, lt + 1, gt, t);
    assert t[|t| - 1] in t;
  }

  /** The opening record tag: the scan moves to its '>' with the record's
      tag as the current tag. */
  lemma RecordOpenStep(page: string, recordEnd: int, start: int, gt: int, t: string,
                       tags: TagMap, conv: Conversions)
    requires RecordBounds(page, recordEnd) && ValidName(t) && 0 <= start
    requires gt == start + 1 + |t| && gt < recordEnd
    requires page[start..start + 2 + |t|] == OpenTag(t)
    ensures ScanFields(page, recordEnd, start, "", map[], tags, conv) == ScanFields(page, recordEnd, gt, t, map[], tags, conv)
  {
    OpenTagChars(page, start, t);
    assert t[0] != ("/" + "")[0];
    ScanStepOpen(page, recordEnd, start, start, gt, gt, "", map[], tags, conv);
    ScanFieldsNext(page, recordEnd, start, "", map[], gt, t, map[], tags, conv);
  }

  /** The characters of a self-closing element `<name attrs/>` from `lt`
      to `gt`. */
  lemma SelfClosingChars(page: string, lt: int, gt: int, name: string, attrs: string)
    requires ValidName(name) && ValidAttrs(attrs)
    requires 0 <= lt && gt == lt + 1 + |name| + |attrs| + 1 && gt < |page|
    requires page[lt..gt + 1] == ElementStart(name, attrs) + "/>"
    ensures page[lt] == '<' && NoChar(page, '>', lt, gt) && page[gt] == '>' && page[gt - 1] == '/'
  {
    SliceSplit(page, lt, gt - 1, gt + 1, ElementStart(name, attrs), "/>");
    SliceParts(page, gt - 1, "/", ">");
    CharOfSlice(page, gt - 1, '/');
    CharOfSlice(page, gt, '>');
    SliceParts(page, lt, "<" + name, attrs);
    SliceParts(page, lt, "<", name);
    CharOfSlice(page, lt, '<');
    SliceNoChar(page, lt + 1, lt + 1 + |name|, name, '>');
    SliceNoChar(page, lt + 1 + |name|, gt - 1, attrs, '>');
  }

  /** The characters of a self-closing element after a '>' at `pos`: its
      '<' at `lt` and its "/>" ending at `gt`. */
  lemma CutChars(page: string, pos: int, lt: int, gt: int, c: SelfClosed)
    requires '<' !in c.gap && ValidName(c.name) && ValidAttrs(c.attrs)
    requires lt == pos + 1 + |c.gap| && gt == lt + 1 + |c.name| + |c.attrs| + 1
    requires 0 <= pos && gt < |page| && page[pos] == '>'
    requires page[pos + 1..gt + 1] == c.gap + (ElementStart(c.name, c.attrs) + "/>")
    ensures NoChar(page, '<', pos, lt) && page[lt] == '<'
    ensures NoChar(page, '>', lt, gt) && page[gt] == '>' && page[gt - 1] == '/'
  {
    SliceSplit(page, pos + 1, lt, gt + 1, c.gap, ElementStart(c.name, c.attrs) + "/>");
    SliceNoChar(page, pos + 1, lt, c.gap, '<');
    SelfClosingChars(page, lt, gt, c.name, c.attrs);
  }

  /** What follows the fields of a record (an optional self-closing element
      and then text without tags) ends its scan. */
  lemma RecordTailStops(page: string, recordEnd: int, pos: int, cut: Option<SelfClosed>, trail: string, t: string,
                        current: string, rec: JObject, tags: TagMap, conv: Conversions)
    requires RecordBounds(page, recordEnd) && 0 <= pos < recordEnd && page[pos] == '>'
    requires (cut.Some? ==> ValidCut(cut.value, t)) && '<' !in trail
    requires recordEnd == pos + 1 + |CutText(cut)| + |trail|
    requires page[pos + 1..recordEnd] == CutText(cut) + trail
    ensures ScanFields(page, recordEnd, pos, current, rec, tags, conv) == Ok(rec)
  {
    match cut
    case None =>
      assert CutText(cut) + trail == trail;
      SliceNoChar(page, pos + 1, recordEnd, trail, '<');
      ScanStopsAtRecordEnd(page, recordEnd, pos, current, rec, tags, conv);
    case Some(c) =>
      RecordTailCut(page, recordEnd, pos, c, trail, t, current, rec, tags, conv);
  }

  lemma CutRegroup(gap: string, element: string, after: string, trail: string)
    ensures gap + element + "/>" + after + trail == (gap + (element + "/>")) + (after + trail)
  {
  }

  /** The self-closing element that cuts a record short ends the scan. */
  lemma RecordTailCut(page: string, recordEnd: int, pos: int, c: SelfClosed, trail: string, t: string,
                      current: string, rec: JObject, tags: TagMap, conv: Conversions)
    requires RecordBounds(page, recordEnd) && 0 <= pos < recordEnd && page[pos] == '>'
    requires ValidCut(c, t) && '<' !in trail
    requires recordEnd == pos + 1 + |CutText(Some(c))| + |trail|
    requires page[pos + 1..recordEnd] == CutText(Some(c)) + trail
    ensures ScanFields(page, recordEnd, pos, current, rec, tags, conv) == Ok(rec)
  {
    var lt := pos + 1 + |c.gap|;
    var gt := lt + 1 + |c.name| + |c.attrs| + 1;
    var element := ElementStart(c.name, c.attrs);
    var head := c.gap + (element + "/>");
    var rest := FieldsText(c.after) + trail;
    assert CutText(Some(c)) == c.gap + element + "/>" + FieldsText(c.after);
    CutRegroup(c.gap, element, FieldsText(c.after), trail);
    SliceSplit(page, pos + 1, gt + 1, recordEnd, head, rest);
    CutChars(page, pos, lt, gt, c);
    ScanStopsAtSelfClosing(page, recordEnd, pos, lt, gt, current, rec, tags, conv);
  }

  /** Where the pieces of a rendered record lie: the opening tag from
      `start`, its '>' at `gt`, the fields up to the '>' at `end`, then the
      rest of the body up to the closing tag at `recordEnd`. */
  lemma RecordSplit(page: string, recordEnd: int, start: int, gt: int, end: int, t: string, r: Record)
    requires 0 <= start && recordEnd <= |page| && ValidName(t)
    requires recordEnd == start + |OpenTag(t)| + |BodyText(r)|
    requires page[start..recordEnd] == OpenTag(t) + BodyText(r)
    requires gt == start + 1 + |t| && end == gt + |FieldsText(r.fields)|
    ensures gt < recordEnd && end < recordEnd && gt + 1 + |FieldsText(r.fields)| <= recordEnd
    ensures page[start..start + 2 + |t|] == OpenTag(t) && page[gt] == '>'
    ensures page[gt + 1..gt + 1 + |FieldsText(r.fields)|] == FieldsText(r.fields)
    ensures recordEnd == end + 1 + |CutText(r.cut)| + |r.trail|
    ensures page[end + 1..recordEnd] == CutText(r.cut) + r.trail
  {
    SliceSplit(page, start, gt + 1, recordEnd, OpenTag(t), BodyText(r));
    OpenTagChars(page, start, t);
    assert BodyText(r) == FieldsText(r.fields) + (CutText(r.cut) + r.trail);
    SliceSplit(page, gt + 1, end + 1, recordEnd, FieldsText(r.fields), CutText(r.cut) + r.trail);
  }

  /** A rendered record whose closing tag starts at `recordEnd` scans to
      exactly its fields, stored in order. */
  lemma RecordScan(page: string, recordEnd: int, start: int, t: string, r: Record,
                   tags: TagMap, conv: Conversions)
    requires RecordBounds(page, recordEnd) && ValidName(t) && ValidRecord(r, t) && 0 <= start
    requires recordEnd == start + |OpenTag(t)| + |BodyText(r)|
    requires page[start..recordEnd] == OpenTag(t) + BodyText(r)
    ensures ScanFields(page, recordEnd, start, "", map[], tags, conv) == Ok(Flatten(r.fields, map[], tags, conv))
  {
    var gt := start + 1 + |t|;
    var end := gt + |FieldsText(r.fields)|;
    RecordSplit(page, recordEnd, start, gt, end, t, r);
    RecordOpenStep(page, recordEnd, start, gt, t, tags, conv);
    RecordBodyScan(page, recordEnd, gt, end, t, r, tags, conv);
  }

  /** After the record's open tag, the scan reads its fields and stops. */
  lemma RecordBodyScan(page: string, recordEnd: int, gt: int, end: int, t: string, r: Record,
                       tags: TagMap, conv: Conversions)
    requires RecordBounds(page, recordEnd) && ValidName(t) && ValidRecord(r, t) && 0 <= gt
    requires end == gt + |FieldsText(r.fields)| && end < recordEnd
    requires page[gt] == '>' && page[gt + 1..gt + 1 + |FieldsText(r.fields)|] == FieldsText(r.fields)
    requires recordEnd == end + 1 + |CutText(r.cut)| + |r.trail|
    requires page[end + 1..recordEnd] == CutText(r.cut) + r.trail
    ensures ScanFields(page, recordEnd, gt, t, map[], tags, conv) == Ok(Flatten(r.fields, map[], tags, conv))
  {
    ValidFieldsWellFormed(r.fields, t);
    var endTag := LastTag(r.fields, t);
    var endRec := Flatten(r.fields, map[], tags, conv);
    assert FieldsAt(page, recordEnd, gt, r.fields);
    FieldsScan(page, recordEnd, gt, r.fields, t, map[], end, endTag, endRec, tags, conv);
    RecordTailStops(page, recordEnd, end, r.cut, r.trail, t, endTag, endRec, tags, conv);
  }
}

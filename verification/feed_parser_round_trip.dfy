/**
 The round trip of `parse` over a whole page: rendering a list of flat
 records as XML and parsing the text gives back exactly those records.

 The record search of `parse` is a plain substring search for `<tag_record>`
 and then for `</tag_record>`, so the proof has to show that neither string
 turns up anywhere the rendering did not put it. `Unmatched(x, p)` is the
 local form of that fact: every '<' in `x` is followed, still inside `x`,
 by a character that differs from `p` at the same offset. It survives
 concatenation, so it is proved piece by piece for the rendered text.
 */
module FeedParserRoundTrip {
  import opened Outcomes
  import opened Text
  import opened Json
  import opened FeedParser
  import opened FeedParserFacts

  // ---------------------------------------------------------------------
  // Where a record tag cannot start
  // ---------------------------------------------------------------------

  /** Placing `p` at index `i` of `x` disagrees with `x` somewhere inside `x`. */
  predicate Mismatch(x: string, i: int, p: string) {
    exists j :: 0 <= j < |p| && 0 <= i + j < |x| && x[i + j] != p[j]
  }

  /** No '<' of `x` starts a copy of `p`, judged from `x` alone. */
  predicate Unmatched(x: string, p: string) {
    forall i :: 0 <= i < |x| && x[i] == '<' ==> Mismatch(x, i, p)
  }

  lemma NoLtUnmatched(x: string, p: string)
    requires '<' !in x
    ensures Unmatched(x, p)
  {
  }

  lemma UnmatchedConcat(x: string, y: string, p: string)
    requires Unmatched(x, p) && Unmatched(y, p)
    ensures Unmatched(x + y, p)
  {
    var xy := x + y;
    forall i | 0 <= i < |xy| && xy[i] == '<'
      ensures Mismatch(xy, i, p)
    {
      if i < |x| {
        assert x[i] == '<';
        var j :| 0 <= j < |p| && 0 <= i + j < |x| && x[i + j] != p[j];
        assert xy[i + j] == x[i + j];
      } else {
        assert y[i - |x|] == '<';
        var j :| 0 <= j < |p| && 0 <= i - |x| + j < |y| && y[i - |x| + j] != p[j];
        assert xy[i + j] == y[i - |x| + j];
      }
    }
  }

  /** Text without a '<'-started copy of `p` placed in the page: no
      occurrence of `p` starts inside it. */
  lemma UnmatchedInPage(page: string, a: int, x: string, p: string)
    requires |p| > 0 && p[0] == '<' && Unmatched(x, p)
    requires 0 <= a && a + |x| <= |page| && page[a..a + |x|] == x
    ensures forall k :: a <= k < a + |x| ==> !OccursAt(page, p, k)
  {
    forall k | a <= k < a + |x|
      ensures !OccursAt(page, p, k)
    {
      if k + |p| <= |page| {
        var w := page[k..k + |p|];
        assert page[k] == x[k - a] by {
          assert page[a..a + |x|][k - a] == page[k];
        }
        if x[k - a] == '<' {
          var j :| 0 <= j < |p| && 0 <= k - a + j < |x| && x[k - a + j] != p[j];
          assert page[a..a + |x|][k - a + j] == page[k + j];
          assert w[j] != p[j];
        } else {
          assert w[0] != p[0];
        }
      }
    }
  }

  /** An element start `<name...` never starts a closing tag: its second
      character is not '/'. */
  lemma ElementUnmatched(name: string, rest: string, p: string)
    requires ValidName(name) && '<' !in rest
    requires |p| >= 2 && p[1] == '/'
    ensures Unmatched("<" + name + rest, p)
  {
    var x := "<" + name + rest;
    assert x[1] == name[0] && name[0] in name;
    assert Mismatch(x, 0, p);
    forall i | 0 < i < |x| ensures x[i] != '<' {
      if i <= |name| {
        assert x[i] == name[i - 1] && name[i - 1] in name;
      } else {
        assert x[i] == rest[i - 1 - |name|] && rest[i - 1 - |name|] in rest;
      }
    }
  }

  /** The closing tag of a field is not the record's closing tag. */
  lemma CloseTagUnmatched(name: string, t: string)
    requires ValidName(name) && ValidName(t) && name != t
    ensures Unmatched(CloseTag(name), CloseTag(t))
  {
    var x := CloseTag(name);
    var c := CloseTag(t);
    assert x[0] == '<';
    if |name| < |t| {
      assert x[2 + |name|] == '>' && c[2 + |name|] == t[|name|] && t[|name|] in t;
      assert Mismatch(x, 0, c);
    } else if |name| > |t| {
      assert c[2 + |t|] == '>' && x[2 + |t|] == name[|t|] && name[|t|] in name;
      assert Mismatch(x, 0, c);
    } else {
      var m :| 0 <= m < |name| && name[m] != t[m];
      assert x[2 + m] == name[m] && c[2 + m] == t[m];
      assert Mismatch(x, 0, c);
    }
    forall i | 0 < i < |x| ensures x[i] != '<' {
      if 2 <= i < 2 + |name| {
        assert x[i] == name[i - 2] && name[i - 2] in name;
      }
    }
  }

  /** The record's closing tag is not its opening tag. */
  lemma CloseTagUnmatchedOpen(t: string)
    requires ValidName(t)
    ensures Unmatched(CloseTag(t), OpenTag(t))
  {
    var x := CloseTag(t);
    assert x[1] == '/' && OpenTag(t)[1] == t[0] && t[0] in t;
    assert Mismatch(x, 0, OpenTag(t));
    forall i | 0 < i < |x| ensures x[i] != '<' {
      if 2 <= i < 2 + |t| {
        assert x[i] == t[i - 2] && t[i - 2] in t;
      }
    }
  }

  // ---------------------------------------------------------------------
  // No closing record tag inside a rendered record
  // ---------------------------------------------------------------------

  lemma FieldUnmatched(f: Field, t: string)
    requires ValidName(t) && ValidField(f, t)
    ensures Unmatched(FieldText(f), CloseTag(t))
  {
    var c := CloseTag(t);
    NoLtUnmatched(f.gap, c);
    ElementUnmatched(f.name, f.attrs + ">" + f.value, c);
    assert ElementStart(f.name, f.attrs) + ">" + f.value == "<" + f.name + (f.attrs + ">" + f.value);
    UnmatchedConcat(f.gap, ElementStart(f.name, f.attrs) + ">" + f.value, c);
    CloseTagUnmatched(f.name, t);
    assert FieldText(f) == (f.gap + (ElementStart(f.name, f.attrs) + ">" + f.value)) + CloseTag(f.name);
    UnmatchedConcat(f.gap + (ElementStart(f.name, f.attrs) + ">" + f.value), CloseTag(f.name), c);
  }

  lemma {:induction false} FieldsUnmatched(fs: seq<Field>, t: string)
    requires ValidName(t) && ValidFields(fs, t)
    ensures Unmatched(FieldsText(fs), CloseTag(t))
    decreases |fs|
  {
    if |fs| == 0 {
      NoLtUnmatched("", CloseTag(t));
    } else {
      assert ValidField(fs[0], t);
      FieldUnmatched(fs[0], t);
      assert ValidFields(fs[1..], t) by {
        forall i | 0 <= i < |fs| - 1 ensures ValidField(fs[1..][i], t) {
          assert fs[1..][i] == fs[i + 1];
        }
      }
      FieldsUnmatched(fs[1..], t);
      UnmatchedConcat(FieldText(fs[0]), FieldsText(fs[1..]), CloseTag(t));
    }
  }

  lemma CutUnmatched(cut: Option<SelfClosed>, t: string)
    requires ValidName(t) && (cut.Some? ==> ValidCut(cut.value, t))
    ensures Unmatched(CutText(cut), CloseTag(t))
  {
    var c := CloseTag(t);
    match cut
    case None =>
      NoLtUnmatched("", c);
    case Some(s) =>
      NoLtUnmatched(s.gap, c);
      ElementUnmatched(s.name, s.attrs + "/>", c);
      assert ElementStart(s.name, s.attrs) + "/>" == "<" + s.name + (s.attrs + "/>");
      UnmatchedConcat(s.gap, ElementStart(s.name, s.attrs) + "/>", c);
      FieldsUnmatched(s.after, t);
      assert CutText(cut) == (s.gap + (ElementStart(s.name, s.attrs) + "/>")) + FieldsText(s.after);
      UnmatchedConcat(s.gap + (ElementStart(s.name, s.attrs) + "/>"), FieldsText(s.after), c);
  }

  /** Neither the opening record tag nor the body of a record holds the
      record's closing tag. */
  lemma RecordUnmatched(r: Record, t: string)
    requires ValidName(t) && ValidRecord(r, t)
    ensures Unmatched(OpenTag(t) + BodyText(r), CloseTag(t))
  {
    var c := CloseTag(t);
    ElementUnmatched(t, ">", c);
    FieldsUnmatched(r.fields, t);
    CutUnmatched(r.cut, t);
    NoLtUnmatched(r.trail, c);
    UnmatchedConcat(FieldsText(r.fields), CutText(r.cut), c);
    UnmatchedConcat(FieldsText(r.fields) + CutText(r.cut), r.trail, c);
    UnmatchedConcat(OpenTag(t), BodyText(r), c);
  }

  // ---------------------------------------------------------------------
  // No opening record tag before a record
  // ---------------------------------------------------------------------

  /** Text free of `<t>` followed by `<t>` itself: no earlier `<t>` starts
      inside the text, not even one running into the tag (the tag's only
      '<' is its first character). */
  lemma LeadNoOpen(page: string, a: int, lead: string, t: string)
    requires ValidName(t) && Free(lead, OpenTag(t))
    requires 0 <= a && a + |lead| + |OpenTag(t)| <= |page|
    requires page[a..a + |lead| + |OpenTag(t)|] == lead + OpenTag(t)
    ensures forall k :: a <= k < a + |lead| ==> !OccursAt(page, OpenTag(t), k)
  {
    var o := OpenTag(t);
    var b := a + |lead|;
    SliceParts(page, a, lead, o);
    forall k | a <= k < b
      ensures !OccursAt(page, o, k)
    {
      var w := page[k..k + |o|];
      if k + |o| <= b {
        assert !OccursAt(lead, o, k - a);
        SubSlice(page, a, b, lead, k - a, k - a + |o|);
      } else {
        var m := b - k;
        assert page[b..b + |o|][0] == page[b];
        assert w[m] == page[b] == '<';
        if m <= |t| {
          assert o[m] == t[m - 1] && t[m - 1] in t;
        }
        assert w[m] != o[m];
      }
    }
  }

  // ---------------------------------------------------------------------
  // Finding the records
  // ---------------------------------------------------------------------

  /** The record search from `cursor`, past `head` (nothing, or the
      previous record's closing tag) and the text before the next record,
      finds exactly that record. */
  lemma FindRecordAt(page: string, t: string, cursor: int, head: string, r: Record, start: int, recordEnd: int)
    requires ValidName(t) && ValidRecord(r, t) && (head == "" || head == CloseTag(t))
    requires 0 <= cursor && start == cursor + |head| + |r.lead|
    requires recordEnd == start + |OpenTag(t)| + |BodyText(r)| && recordEnd + |CloseTag(t)| <= |page|
    requires page[cursor..start + |OpenTag(t)|] == head + (r.lead + OpenTag(t))
    requires page[start..recordEnd] == OpenTag(t) + BodyText(r)
    requires page[recordEnd..recordEnd + |CloseTag(t)|] == CloseTag(t)
    ensures FindRecord(page, t, cursor) == Some((start, recordEnd))
  {
    OpenFoundAt(page, t, cursor, head, r, start);
    CloseFoundAt(page, t, r, start, recordEnd);
  }

  /** The search for the record's open tag passes the lead. */
  lemma OpenFoundAt(page: string, t: string, cursor: int, head: string, r: Record, start: int)
    requires ValidName(t) && ValidRecord(r, t) && (head == "" || head == CloseTag(t))
    requires 0 <= cursor && start == cursor + |head| + |r.lead| && start + |OpenTag(t)| <= |page|
    requires page[cursor..start + |OpenTag(t)|] == head + (r.lead + OpenTag(t))
    ensures IndexOf(page, OpenTag(t), cursor) == start
  {
    var o := OpenTag(t);
    var b := cursor + |head|;
    SliceSplit(page, cursor, b, start + |o|, head, r.lead + o);
    if head == "" {
      NoLtUnmatched(head, o);
    } else {
      CloseTagUnmatchedOpen(t);
    }
    UnmatchedInPage(page, cursor, head, o);
    LeadNoOpen(page, b, r.lead, t);
    SliceSplit(page, b, start, start + |o|, r.lead, o);
    assert OccursAt(page, o, start);
    IndexOfIs(page, o, cursor, start);
  }

  /** The search for the close tag passes the record's body. */
  lemma CloseFoundAt(page: string, t: string, r: Record, start: int, recordEnd: int)
    requires ValidName(t) && ValidRecord(r, t) && 0 <= start
    requires recordEnd == start + |OpenTag(t)| + |BodyText(r)| && recordEnd + |CloseTag(t)| <= |page|
    requires page[start..recordEnd] == OpenTag(t) + BodyText(r)
    requires page[recordEnd..recordEnd + |CloseTag(t)|] == CloseTag(t)
    ensures IndexOf(page, CloseTag(t), start) == recordEnd
  {
    var o := OpenTag(t);
    var c := CloseTag(t);
    SliceParts(page, start, o, BodyText(r));
    RecordUnmatched(r, t);
    UnmatchedInPage(page, start, o + BodyText(r), c);
    IndexOfIs(page, c, start, recordEnd);
  }


  /** Past the last record, the search finds no further record: either no
      record starts in `tail`, or none that starts there is ever closed. */
  lemma NoRecordLeft(page: string, t: string, cursor: int, head: string, tail: string)
    requires ValidName(t) && ValidTail(tail, t) && (head == "" || head == CloseTag(t))
    requires 0 <= cursor <= |page| && page[cursor..] == head + tail
    ensures FindRecord(page, t, cursor) == None
  {
    var o := OpenTag(t);
    var c := CloseTag(t);
    var b := cursor + |head|;
    SuffixParts(page, cursor, head, tail);
    if head == "" {
      NoLtUnmatched(head, o);
    } else {
      CloseTagUnmatchedOpen(t);
    }
    UnmatchedInPage(page, cursor, head, o);
    if Free(tail, o) {
      FreeToEnd(page, b, tail, o);
      IndexOfNone(page, o, cursor);
    } else {
      var s := IndexOf(page, o, cursor);
      if s >= 0 {
        assert b <= s;
        FreeToEnd(page, b, tail, c);
        IndexOfNone(page, c, s);
      }
    }
  }

  // ---------------------------------------------------------------------
  // The whole page
  // ---------------------------------------------------------------------

  predicate ValidRecords(rs: seq<Record>, t: string) {
    forall i :: 0 <= i < |rs| ==> ValidRecord(rs[i], t)
  }

  /** The outer loop over rendered records, from `cursor`, where the page
      holds `head` and then the rendering of `rs` and `tail`. */
  lemma {:induction false} ScanDoc(page: string, t: string, cursor: int, head: string,
                                   rs: seq<Record>, tail: string, tags: TagMap, conv: Conversions)
    requires ValidName(t) && ValidRecords(rs, t) && ValidTail(tail, t)
    requires head == "" || head == CloseTag(t)
    requires 0 <= cursor <= |page| && page[cursor..] == head + DocText(t, rs, tail)
    ensures ScanRecords(page, t, cursor, tags, conv) == Ok(Expected(rs, tags, conv))
    decreases |rs|
  {
    if |rs| == 0 {
      if cursor < |page| {
        NoRecordLeft(page, t, cursor, head, tail);
      }
    } else {
      var r := rs[0];
      assert ValidRecord(r, t);
      var o := OpenTag(t);
      var c := CloseTag(t);
      var start := cursor + |head| + |r.lead|;
      var recordEnd := start + |o| + |BodyText(r)|;
      RecordPieces(page, t, cursor, head, rs, tail, start, recordEnd);
      FindRecordAt(page, t, cursor, head, r, start, recordEnd);
      RecordScan(page, recordEnd, start, t, r, tags, conv);
      assert ValidRecords(rs[1..], t) by {
        forall i | 0 <= i < |rs| - 1 ensures ValidRecord(rs[1..][i], t) {
          assert rs[1..][i] == rs[i + 1];
        }
      }
      ScanDoc(page, t, recordEnd, c, rs[1..], tail, tags, conv);
    }
  }

  /** Where the pieces of the first rendered record lie. */
  lemma RecordPieces(page: string, t: string, cursor: int, head: string,
                     rs: seq<Record>, tail: string, start: int, recordEnd: int)
    requires |rs| > 0 && 0 <= cursor <= |page| && page[cursor..] == head + DocText(t, rs, tail)
    requires start == cursor + |head| + |rs[0].lead|
    requires recordEnd == start + |OpenTag(t)| + |BodyText(rs[0])|
    ensures recordEnd + |CloseTag(t)| <= |page| && cursor < |page|
    ensures page[cursor..start + |OpenTag(t)|] == head + (rs[0].lead + OpenTag(t))
    ensures page[start..recordEnd] == OpenTag(t) + BodyText(rs[0])
    ensures page[recordEnd..recordEnd + |CloseTag(t)|] == CloseTag(t)
    ensures page[recordEnd..] == CloseTag(t) + DocText(t, rs[1..], tail)
  {
    var r := rs[0];
    var o := OpenTag(t);
    var c := CloseTag(t);
    var body := BodyText(r);
    var rest := DocText(t, rs[1..], tail);
    var b := cursor + |head|;
    var gt := start + |o|;
    DocTextFirst(t, rs, tail);
    SuffixParts(page, cursor, head, r.lead + (o + (body + (c + rest))));
    SuffixParts(page, b, r.lead, o + (body + (c + rest)));
    SuffixParts(page, start, o, body + (c + rest));
    SuffixParts(page, gt, body, c + rest);
    SuffixParts(page, recordEnd, c, rest);
    SliceJoin(page, b, start, gt, r.lead, o);
    SliceJoin(page, cursor, b, gt, head, r.lead + o);
    SliceJoin(page, start, gt, recordEnd, o, body);
  }

  /** The rendering of a nonempty list, piece by piece. */
  lemma DocTextFirst(t: string, rs: seq<Record>, tail: string)
    requires |rs| > 0
    ensures DocText(t, rs, tail) ==
            rs[0].lead + (OpenTag(t) + (BodyText(rs[0]) + (CloseTag(t) + DocText(t, rs[1..], tail))))
  {
  }

  /** Parsing a rendered page gives back its records, in document order,
      each with its fields stored in order and their conversions merged in. */
  lemma ParseRendered(t: string, rs: seq<Record>, tail: string, tags: TagMap, conv: Conversions)
    requires ValidName(t) && ValidRecords(rs, t) && ValidTail(tail, t)
    ensures Parse(DocText(t, rs, tail), FeedConfig(t, tags), conv) == Ok(Envelope(Expected(rs, tags, conv)))
  {
    var page := DocText(t, rs, tail);
    assert page[0..] == "" + page;
    ScanDoc(page, t, 0, "", rs, tail, tags, conv);
  }

  // ---------------------------------------------------------------------
  // Pages without a complete record
  // ---------------------------------------------------------------------

  /** A page where `<tag_record>` never occurs parses to an empty list. */
  lemma ParseNoRecord(page: string, cfg: FeedConfig, conv: Conversions)
    requires Free(page, OpenTag(cfg.tagRecord))
    ensures Parse(page, cfg, conv) == Ok(map["request_data" := JArr([])])
  {
    if |page| > 0 {
      FreeToEnd(page, 0, page, OpenTag(cfg.tagRecord));
      IndexOfNone(page, OpenTag(cfg.tagRecord), 0);
    }
    assert Envelope([]) == map["request_data" := JArr([])];
  }

  /** A `<tag_record>` that is never closed ends the outer loop: nothing
      more is collected from `cursor` on. */
  lemma UnclosedStops(page: string, t: string, cursor: int, start: int, tags: TagMap, conv: Conversions)
    requires 0 <= cursor && start == IndexOf(page, OpenTag(t), cursor) && 0 <= start
    requires forall k :: start <= k ==> !OccursAt(page, CloseTag(t), k)
    ensures ScanRecords(page, t, cursor, tags, conv) == Ok([])
  {
    IndexOfNone(page, CloseTag(t), start);
  }

  // ---------------------------------------------------------------------
  // Stored values
  // ---------------------------------------------------------------------

  /** The "int" format gives back every `long` it is handed as text. */
  lemma TransformIntRoundTrip(out: string, n: int, conv: Conversions)
    requires LONG_MIN <= n <= LONG_MAX
    ensures Transform(TagTransform(Some(out), Some(IntFormat)), LongToString(n), conv) == map[out := JInt(n)]
  {
    ParseDecimalOfString(n, LONG_MIN, LONG_MAX);
  }

  /** A value `Long.parseLong` rejects adds no property. */
  lemma TransformIntRejects(out: string, value: string, conv: Conversions)
    requires ParseLong(value).None?
    ensures Transform(TagTransform(Some(out), Some(IntFormat)), value, conv) == map[]
  {
  }

  /** A mapped tag keeps its own field beside the derived one, which is
      merged over the record and wins any clash. */
  lemma StoreFieldMapped(rec: JObject, tag: string, value: string, tags: TagMap, conv: Conversions)
    requires tag in tags && tags[tag].outputTag != Some(tag)
    ensures var r := StoreField(rec, tag, value, tags, conv);
            var d := Transform(tags[tag], value, conv);
            tag in r && r[tag] == JStr(value) &&
            (forall k :: k in d ==> k in r && r[k] == d[k]) &&
            (forall k :: k in rec && k != tag && k !in d ==> k in r && r[k] == rec[k])
  {
  }

  /** A key no later field names and no transform writes keeps its value. */
  lemma {:induction false} FlattenKeeps(fs: seq<Field>, rec: JObject, tags: TagMap, conv: Conversions, k: string)
    requires k in rec
    requires forall j :: 0 <= j < |fs| ==> fs[j].name != k
    requires forall x :: x in tags ==> tags[x].outputTag != Some(k)
    ensures k in Flatten(fs, rec, tags, conv) && Flatten(fs, rec, tags, conv)[k] == rec[k]
    decreases |fs|
  {
    if |fs| > 0 {
      var stored := StoreField(rec, fs[0].name, fs[0].value, tags, conv);
      if fs[0].name in tags {
        assert k !in Transform(tags[fs[0].name], fs[0].value, conv);
      }
      assert k in stored && stored[k] == rec[k];
      FlattenKeeps(fs[1..], stored, tags, conv, k);
    }
  }

  /** A tag repeated within one record keeps the value of its last occurrence. */
  lemma {:induction false} FlattenLastWins(fs: seq<Field>, rec: JObject, tags: TagMap, conv: Conversions, i: int)
    requires 0 <= i < |fs|
    requires forall j :: i < j < |fs| ==> fs[j].name != fs[i].name
    requires forall x :: x in tags ==> tags[x].outputTag != Some(fs[i].name)
    ensures fs[i].name in Flatten(fs, rec, tags, conv)
    ensures Flatten(fs, rec, tags, conv)[fs[i].name] == JStr(fs[i].value)
    decreases |fs|
  {
    var stored := StoreField(rec, fs[0].name, fs[0].value, tags, conv);
    if i == 0 {
      if fs[0].name in tags {
        assert fs[0].name !in Transform(tags[fs[0].name], fs[0].value, conv);
      }
      assert stored[fs[0].name] == JStr(fs[0].value);
      forall j | 0 <= j < |fs| - 1 ensures fs[1..][j].name != fs[0].name {
        assert fs[1..][j] == fs[j + 1];
      }
      FlattenKeeps(fs[1..], stored, tags, conv, fs[0].name);
    } else {
      forall j | i - 1 < j < |fs| - 1 ensures fs[1..][j].name != fs[1..][i - 1].name {
        assert fs[1..][j] == fs[j + 1];
      }
      FlattenLastWins(fs[1..], stored, tags, conv, i - 1);
    }
  }
}

/**
 What `build_string` does with a template written as literal text and
 `{{...}}` spans: the literal text is copied verbatim and in order, each span
 is replaced by its filled value, and the text after the last complete span
 is appended unchanged. Also the placeholder forms of `fill_pattern`.
 */
module TemplateFacts {
  import opened Outcomes
  import opened Text
  import opened Json
  import opened Calendar
  import opened Template

  /** Literal text followed by one `{{inner}}` span. */
  datatype Span = Span(lit: string, inner: string)

  /** Literal text the search for `{{` passes over whole: no `{{` inside,
      and no '{' at its end that would pair with the span's first brace. */
  predicate PlainText(lit: string) {
    Free(lit, "{{") && !EndsWith(lit, "{")
  }

  /** Inner text the search for `}}` passes over whole. */
  predicate InnerText(inner: string) {
    Free(inner, "}}") && !EndsWith(inner, "}")
  }

  predicate ValidSpans(spans: seq<Span>) {
    forall i :: 0 <= i < |spans| ==> PlainText(spans[i].lit) && InnerText(spans[i].inner)
  }

  /** Text after the last span holding no complete span. */
  predicate ValidRest(rest: string) {
    Free(rest, "{{") || Free(rest, "}}")
  }

  function Render(spans: seq<Span>, rest: string): string {
    if |spans| == 0 then rest
    else spans[0].lit + ("{{" + (spans[0].inner + ("}}" + Render(spans[1..], rest))))
  }

  /** The expansion the template describes: literal text, filled spans in
      order, the rest; the first span that fails to fill fails it all. */
  function ExpandSpans(spans: seq<Span>, rest: string, msg: JObject, env: Env): Res<string> {
    if |spans| == 0 then Ok(rest)
    else
      Joined(spans[0].lit, FillPattern(spans[0].inner, msg, env), ExpandSpans(spans[1..], rest, msg, env))
  }

  /** The search for `{{` from `index` lands right after the literal text. */
  lemma OpenAt(pattern: string, index: int, start: int, lit: string)
    requires PlainText(lit) && 0 <= index && start == index + |lit| && start + 2 <= |pattern|
    requires pattern[index..start] == lit && pattern[start..start + 2] == "{{"
    ensures IndexOf(pattern, "{{", index) == start
  {
    forall k | index <= k < start
      ensures !OccursAt(pattern, "{{", k)
    {
      if k + 2 <= start {
        assert !OccursAt(lit, "{{", k - index);
        SubSlice(pattern, index, start, lit, k - index, k - index + 2);
      } else {
        assert lit[|lit| - 1..] == [lit[|lit| - 1]];
        assert pattern[index..start][k - index] == pattern[k] == lit[|lit| - 1] != '{';
        assert pattern[k..k + 2][0] == pattern[k];
      }
    }
    assert OccursAt(pattern, "{{", start);
    IndexOfIs(pattern, "{{", index, start);
  }

  /** The search for `}}` from a span's `{{` lands on the span's own `}}`. */
  lemma CloseAt(pattern: string, start: int, end: int, inner: string)
    requires InnerText(inner) && 0 <= start && end == start + 2 + |inner| && end + 2 <= |pattern|
    requires pattern[start..start + 2] == "{{" && pattern[start + 2..end] == inner
    requires pattern[end..end + 2] == "}}"
    ensures IndexOf(pattern, "}}", start) == end
  {
    forall k | start <= k < end
      ensures !OccursAt(pattern, "}}", k)
    {
      assert pattern[k..k + 2][0] == pattern[k];
      if k < start + 2 {
        assert pattern[start..start + 2][k - start] == pattern[k] == '{';
      } else if k + 2 <= end {
        assert !OccursAt(inner, "}}", k - start - 2);
        SubSlice(pattern, start + 2, end, inner, k - start - 2, k - start);
      } else {
        assert inner[|inner| - 1..] == [inner[|inner| - 1]];
        assert pattern[start + 2..end][k - start - 2] == pattern[k] == inner[|inner| - 1] != '}';
      }
    }
    assert OccursAt(pattern, "}}", end);
    IndexOfIs(pattern, "}}", start, end);
  }

  /** Where the pieces of the first span lie. */
  lemma SpanPieces(pattern: string, index: int, start: int, end: int, next: int, s: Span, tail: string)
    requires 0 <= index <= |pattern| && pattern[index..] == s.lit + ("{{" + (s.inner + ("}}" + tail)))
    requires start == index + |s.lit| && end == start + 2 + |s.inner| && next == end + 2
    ensures next <= |pattern|
    ensures pattern[index..start] == s.lit && pattern[start..start + 2] == "{{"
    ensures pattern[start + 2..end] == s.inner && pattern[end..end + 2] == "}}"
    ensures pattern[next..] == tail
  {
    var r3 := "}}" + tail;
    var r2 := s.inner + r3;
    var r1 := "{{" + r2;
    SuffixAt(pattern, index, start, s.lit, r1);
    SuffixAt(pattern, start, start + 2, "{{", r2);
    SuffixAt(pattern, start + 2, end, s.inner, r3);
    SuffixAt(pattern, end, next, "}}", tail);
  }

  /** A pass of the loop of `build_string` that finds a span between
      `start` and `end`. */
  lemma BuildStep(pattern: string, index: int, start: int, end: int, next: int, lit: string, inner: string)
    requires 0 <= index < |pattern| && 0 <= start && start + 2 <= end <= |pattern| && next == end + 2
    requires IndexOf(pattern, "{{", index) == start && IndexOf(pattern, "}}", start) == end
    requires pattern[index..start] == lit && pattern[start + 2..end] == inner
    ensures NextPiece(pattern, index) == Placeholder(lit, inner, next)
  {
  }

  /** Expansion from `index`, where the template holds `spans` and `rest`. */
  lemma {:induction false} BuildFromRendered(pattern: string, index: int, spans: seq<Span>, rest: string,
                                             msg: JObject, env: Env)
    requires ValidSpans(spans) && ValidRest(rest)
    requires 0 <= index <= |pattern| && pattern[index..] == Render(spans, rest)
    ensures BuildFrom(pattern, index, msg, env) == ExpandSpans(spans, rest, msg, env)
    decreases |spans|
  {
    if |spans| == 0 {
      if index < |pattern| {
        if Free(rest, "{{") {
          FreeToEnd(pattern, index, rest, "{{");
          IndexOfNone(pattern, "{{", index);
        } else {
          var start := IndexOf(pattern, "{{", index);
          if start >= 0 {
            FreeToEnd(pattern, index, rest, "}}");
            IndexOfNone(pattern, "}}", start);
          }
        }
      }
    } else {
      var s := spans[0];
      var start := index + |s.lit|;
      var end := start + 2 + |s.inner|;
      var next := end + 2;
      SpanPieces(pattern, index, start, end, next, s, Render(spans[1..], rest));
      OpenAt(pattern, index, start, s.lit);
      CloseAt(pattern, start, end, s.inner);
      BuildStep(pattern, index, start, end, next, s.lit, s.inner);
      assert ValidSpans(spans[1..]) by {
        forall i | 0 <= i < |spans| - 1
          ensures PlainText(spans[1..][i].lit) && InnerText(spans[1..][i].inner)
        {
          assert spans[1..][i] == spans[i + 1];
        }
      }
      BuildFromRendered(pattern, next, spans[1..], rest, msg, env);
    }
  }

  /** `build_string` of a rendered template is its expansion. */
  lemma BuildStringRendered(spans: seq<Span>, rest: string, msg: JObject, env: Env)
    requires ValidSpans(spans) && ValidRest(rest)
    ensures BuildString(Render(spans, rest), msg, env) == ExpandSpans(spans, rest, msg, env)
  {
    var pattern := Render(spans, rest);
    assert pattern[0..] == pattern;
    BuildFromRendered(pattern, 0, spans, rest, msg, env);
  }

  /** A template without `{{` is copied unchanged. */
  lemma BuildStringPlain(pattern: string, msg: JObject, env: Env)
    requires Free(pattern, "{{")
    ensures BuildString(pattern, msg, env) == Ok(pattern)
  {
    BuildStringRendered([], pattern, msg, env);
  }

  // ---------------------------------------------------------------------
  // The placeholder forms
  // ---------------------------------------------------------------------

  /** The first '|' of `field + suffix` ends the field name. */
  lemma FieldBar(field: string, suffix: string)
    requires '|' !in field && |suffix| > 0 && suffix[0] == '|'
    ensures Find(field + suffix, '|', 0) == |field|
    ensures (field + suffix)[..|field|] == field
    ensures EndsWith(field + suffix, suffix)
  {
    var s := field + suffix;
    forall j | 0 <= j < |field| ensures s[j] != '|' {
      assert s[j] == field[j] && field[j] in field;
    }
    FindIs(s, '|', 0, |field|);
    assert s[|s| - |suffix|..] == suffix;
  }

  /** `{{f|int}}`: the field as a decimal `long`, "0" when it is absent. */
  lemma FillInt(field: string, msg: JObject, env: Env)
    requires '|' !in field
    ensures field !in msg ==> FillPattern(field + "|int", msg, env) == Ok(Some("0"))
    ensures field in msg && msg[field].JInt? && LONG_MIN <= msg[field].i <= LONG_MAX ==>
              FillPattern(field + "|int", msg, env) == Ok(Some(LongToString(msg[field].i)))
    ensures field in msg && msg[field] == JNull ==> FillPattern(field + "|int", msg, env) == Throws
  {
    FieldBar(field, "|int");
    assert LongToString(0) == "0";
  }

  /** Texts with different last characters do not end alike. */
  lemma LastDiffers(s: string, suffix: string)
    requires |s| > 0 && |suffix| > 0 && s[|s| - 1] != suffix[|suffix| - 1]
    ensures !EndsWith(s, suffix)
  {
    if |suffix| <= |s| {
      assert s[|s| - |suffix|..][|suffix| - 1] == s[|s| - 1];
    }
  }

  /** The suffixes are told apart by their last characters. */
  lemma SuffixesDiffer(field: string)
    ensures !EndsWith(field + "|yyyy", "|int")
    ensures !EndsWith(field + "|MM", "|int") && !EndsWith(field + "|MM", "|yyyy")
    ensures !EndsWith(field + "|dd", "|int") && !EndsWith(field + "|dd", "|yyyy") && !EndsWith(field + "|dd", "|MM")
  {
    LastDiffers(field + "|yyyy", "|int");
    LastDiffers(field + "|MM", "|int");
    LastDiffers(field + "|MM", "|yyyy");
    LastDiffers(field + "|dd", "|int");
    LastDiffers(field + "|dd", "|yyyy");
    LastDiffers(field + "|dd", "|MM");
  }

  /** `{{f|yyyy}}`, `{{f|MM}}`, `{{f|dd}}` of a Unix timestamp `f`: the
      year, month and day of the local date `d` on which it falls. */
  lemma FillDate(field: string, msg: JObject, env: Env, d: Date)
    requires '|' !in field && field in msg && msg[field].JInt?
    requires INSTANT_MIN_SECOND <= msg[field].i <= INSTANT_MAX_SECOND
    requires Valid(d) && LOCAL_YEAR_MIN <= d.year <= LOCAL_YEAR_MAX
    requires DayNumber(d) == LocalEpochDay(msg[field].i, env.zoneOffset)
    ensures FillPattern(field + "|yyyy", msg, env) == Ok(Some(YearText(d.year)))
    ensures FillPattern(field + "|MM", msg, env) == Ok(Some(TwoDigits(d.month)))
    ensures FillPattern(field + "|dd", msg, env) == Ok(Some(TwoDigits(d.day)))
  {
    FromDayNumberOfDayNumber(d);
    assert FieldDate(msg, field, env) == Ok(d);
    FieldBar(field, "|yyyy");
    FieldBar(field, "|MM");
    FieldBar(field, "|dd");
    SuffixesDiffer(field);
  }

  /** The day `1580132048` falls on in UTC is 2020-01-27. */
  lemma ExampleDay()
    ensures Valid(Date(2020, 1, 27)) && DayNumber(Date(2020, 1, 27)) == LocalEpochDay(1580132048, 0)
  {
    assert LeapsBefore(2020) == 489 && LeapsBefore(1970) == 477;
    assert MonthStart(2020, 1) == 0;
  }

  /** Text without the first character of `p` holds no `p`. */
  lemma CharFree(s: string, p: string)
    requires |p| > 0 && p[0] !in s
    ensures Free(s, p)
  {
    forall k | 0 <= k < |s| ensures !OccursAt(s, p, k) {
      if k + |p| <= |s| {
        assert s[k..k + |p|][0] == s[k];
      }
    }
  }

  /** Inner text of a placeholder on a plain field name passes as one. */
  lemma PlaceholderInner(field: string, suffix: string)
    requires '}' !in field && '}' !in suffix && |suffix| > 0
    ensures InnerText(field + suffix)
  {
    var x := field + suffix;
    assert '}' !in x by {
      forall j | 0 <= j < |x| ensures x[j] != '}' {
        if j < |field| {
          assert x[j] == field[j] && field[j] in field;
        } else {
          assert x[j] == suffix[j - |field|] && suffix[j - |field|] in suffix;
        }
      }
    }
    CharFree(x, "}}");
    assert x[|x| - 1] == suffix[|suffix| - 1] && suffix[|suffix| - 1] in suffix;
    LastDiffers(x, "}");
  }

  function DatedSpans(field: string): seq<Span> {
    [Span("", field + "|yyyy"), Span("/", field + "|MM"), Span("/", field + "|dd")]
  }

  lemma DatedSpansValid(field: string)
    requires '}' !in field
    ensures ValidSpans(DatedSpans(field)) && ValidRest("")
  {
    PlaceholderInner(field, "|yyyy");
    PlaceholderInner(field, "|MM");
    PlaceholderInner(field, "|dd");
    Separators();
    ValidThree(Span("", field + "|yyyy"), Span("/", field + "|MM"), Span("/", field + "|dd"));
  }

  lemma ValidThree(a: Span, b: Span, c: Span)
    requires PlainText(a.lit) && InnerText(a.inner) && PlainText(b.lit) && InnerText(b.inner)
    requires PlainText(c.lit) && InnerText(c.inner)
    ensures ValidSpans([a, b, c])
  {
  }

  lemma Separators()
    ensures PlainText("") && PlainText("/") && ValidRest("")
  {
    CharFree("", "{{");
    CharFree("/", "{{");
    LastDiffers("/", "{");
  }

  /** `{{f|yyyy}}/{{f|MM}}/{{f|dd}}` on a timestamp field renders the year,
      month and day of its local date, '/'-separated. */
  lemma DatedPath(field: string, msg: JObject, env: Env, d: Date)
    requires '|' !in field && '}' !in field && field in msg && msg[field].JInt?
    requires INSTANT_MIN_SECOND <= msg[field].i <= INSTANT_MAX_SECOND
    requires Valid(d) && LOCAL_YEAR_MIN <= d.year <= LOCAL_YEAR_MAX
    requires DayNumber(d) == LocalEpochDay(msg[field].i, env.zoneOffset)
    ensures BuildString(Render(DatedSpans(field), ""), msg, env) ==
            Ok(YearText(d.year) + "/" + TwoDigits(d.month) + "/" + TwoDigits(d.day))
  {
    var y := Span("", field + "|yyyy");
    var m := Span("/", field + "|MM");
    var dd := Span("/", field + "|dd");
    var tail := [m] + [dd];
    assert DatedSpans(field) == [y] + tail && [dd] == [dd] + [];
    DatedSpansValid(field);
    BuildStringRendered(DatedSpans(field), "", msg, env);
    FillDate(field, msg, env, d);
    var day := TwoDigits(d.day);
    var month := TwoDigits(d.month);
    var year := YearText(d.year);
    ExpandCons(dd, [], "", msg, env, day, "");
    ExpandCons(m, [dd], "", msg, env, month, "/" + day + "");
    ExpandCons(y, tail, "", msg, env, year, "/" + month + ("/" + day + ""));
    Regroup(year, "/", month, day);
  }

  /** Regrouping the pieces of a three-part path. */
  lemma Regroup(a: string, sep: string, b: string, c: string)
    ensures "" + a + (sep + b + (sep + c + "")) == a + sep + b + sep + c
  {
  }

  /** Expansion of a span that fills to `v`, followed by spans expanding
      to `tail`. */
  lemma ExpandCons(s: Span, spans: seq<Span>, rest: string, msg: JObject, env: Env, v: string, tail: string)
    requires FillPattern(s.inner, msg, env) == Ok(Some(v))
    requires ExpandSpans(spans, rest, msg, env) == Ok(tail)
    ensures ExpandSpans([s] + spans, rest, msg, env) == Ok(s.lit + v + tail)
  {
    assert ([s] + spans)[0] == s && ([s] + spans)[1..] == spans;
  }

  lemma ExampleText()
    ensures YearText(2020) + "/" + TwoDigits(1) + "/" + TwoDigits(27) == "2020/01/27"
  {
    assert YearText(2020) == "2020";
    assert TwoDigits(1) == "01" && TwoDigits(27) == "27";
  }

  /** A dated path `{{f|yyyy}}/{{f|MM}}/{{f|dd}}` with `f` 1580132048 in UTC
      expands to "2020/01/27". */
  lemma ExampleDatedPath(field: string, msg: JObject, env: Env)
    requires '|' !in field && '}' !in field
    requires field in msg && msg[field] == JInt(1580132048) && env.zoneOffset == 0
    ensures BuildString(Render(DatedSpans(field), ""), msg, env) == Ok("2020/01/27")
  {
    ExampleDay();
    DatedPath(field, msg, env, Date(2020, 1, 27));
    ExampleText();
  }
}

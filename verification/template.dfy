/**
 The file-name templates of the message filer (`FilerUtils.build_string`,
 `fill_pattern`, `field_to_instant`).

 A template is copied left to right; each `{{inner}}` span is replaced by
 the value `fill_pattern` computes for `inner` from the message:
   `field`         the field's string value (`null` when absent),
   `field|int`     the field as a `long` (0 when absent),
   `field|yyyy`, `field|MM`, `field|dd`
                   year, month and day of the field read as a Unix timestamp
                   (or an ISO-8601 string) in the system's zone,
 and any other inner text with a `|` stands for itself.
 */
module Template {
  import opened Outcomes
  import opened Text
  import opened Json
  import opened Calendar

  /** What expansion needs from outside the model: `Double.longValue()` for a
      floating-point field read as a `long`, `Instant.parse` (epoch seconds,
      `None` for the parse exception), and the offset in seconds of the
      system default zone. */
  datatype Env = Env(longValue: Double -> int, parseInstant: string -> Option<int>, zoneOffset: int)

  /** The range `Instant.ofEpochSecond` accepts. */
  const INSTANT_MIN_SECOND: int := -31557014167219200
  const INSTANT_MAX_SECOND: int := 31556889864403199

  /** The years a `LocalDate` can hold. */
  const LOCAL_YEAR_MIN: int := -999999999
  const LOCAL_YEAR_MAX: int := 999999999

  /** `field_to_instant`: the field as epoch seconds (`getLong` with default
      0); a field that is not a number is parsed as an ISO-8601 instant.
      An explicit null fails when unboxed, and so does a number outside
      the range of `Instant`. */
  function FieldToInstant(msg: JObject, field: string, env: Env): (r: Res<int>)
    ensures field !in msg ==> r == Ok(0)
    ensures field in msg && msg[field] == JNull ==> r == Throws
    ensures field in msg && msg[field].JInt? ==>
              r == (var s := ToLong(msg[field].i);
                    if INSTANT_MIN_SECOND <= s <= INSTANT_MAX_SECOND then Ok(s) else Throws)
    ensures field in msg && msg[field].JStr? ==>
              r == (match env.parseInstant(msg[field].s) case Some(s) => Ok(s) case None => Throws)
    ensures field in msg && (msg[field].JBool? || msg[field].JArr? || msg[field].JObj?) ==> r == Throws
  {
    match GetLong(msg, field, 0, env.longValue)
    case Ok(Some(s)) => if INSTANT_MIN_SECOND <= s <= INSTANT_MAX_SECOND then Ok(s) else Throws
    case Ok(None) => Throws
    case Throws =>
      // ClassCastException: read the field as an ISO-8601 string instead
      match GetString(msg, field)
      case Ok(Some(text)) => (match env.parseInstant(text) case Some(s) => Ok(s) case None => Throws)
      case _ => Throws
  }

  /** `LocalDateTime.ofInstant(ts, zone)`, date part: the local day number,
      broken down; a date outside the years of `LocalDate` fails. */
  function LocalDateOf(epochSecond: int, env: Env): (r: Res<Date>)
    ensures r.Ok? ==> Valid(r.value) && DayNumber(r.value) == LocalEpochDay(epochSecond, env.zoneOffset)
    ensures r.Ok? <==> LOCAL_YEAR_MIN <= FromDayNumber(LocalEpochDay(epochSecond, env.zoneOffset)).year <= LOCAL_YEAR_MAX
  {
    var d := FromDayNumber(LocalEpochDay(epochSecond, env.zoneOffset));
    if LOCAL_YEAR_MIN <= d.year <= LOCAL_YEAR_MAX then Ok(d) else Throws
  }

  /** The local date of a timestamp field. */
  function FieldDate(msg: JObject, field: string, env: Env): (r: Res<Date>)
    ensures r.Ok? ==> Valid(r.value)
    ensures r.Ok? ==> FieldToInstant(msg, field, env).Ok? &&
                      DayNumber(r.value) == LocalEpochDay(FieldToInstant(msg, field, env).value, env.zoneOffset)
  {
    var s :- FieldToInstant(msg, field, env);
    LocalDateOf(s, env)
  }

  /** `n` as exactly four digits, zero-padded. */
  function FourDigits(n: int): (r: string)
    requires 0 <= n < 10000
    ensures |r| == 4 && AllDigits(r) && DigitsValue(r) == n
  {
    var hi := TwoDigits(n / 100);
    var lo := TwoDigits(n % 100);
    DigitsValueAppend(hi, lo);
    hi + lo
  }

  /** The value of digits followed by two more digits. */
  lemma DigitsValueAppend(hi: string, lo: string)
    requires AllDigits(hi) && |lo| == 2 && AllDigits(lo)
    ensures AllDigits(hi + lo) && DigitsValue(hi + lo) == DigitsValue(hi) * 100 + DigitsValue(lo)
  {
    var s := hi + lo;
    var a := hi + [lo[0]];
    assert s[..|s| - 1] == a && a[..|a| - 1] == hi;
    assert DigitsValue(a) == DigitsValue(hi) * 10 + (lo[0] as int - '0' as int);
    assert lo[..1] == [lo[0]] && [lo[0]][..0] == [];
    assert DigitsValue(lo) == DigitsValue([lo[0]]) * 10 + (lo[1] as int - '0' as int);
    assert DigitsValue([lo[0]]) == lo[0] as int - '0' as int;
    assert s[|s| - 1] == lo[1];
    assert DigitsValue(s) == DigitsValue(a) * 10 + (lo[1] as int - '0' as int);
  }

  /** Pattern letters "yyyy": the year of era, at least four digits, with a
      '+' once it needs more than four (sign style EXCEEDS_PAD). Years
      before 1 count backwards in the era before the common era. */
  function YearText(year: int): (r: string)
    ensures 1 <= year <= 9999 ==> |r| == 4 && AllDigits(r) && DigitsValue(r) == year
    ensures year > 9999 ==> r == "+" + Digits(year)
    ensures -9999 < year <= 0 ==> |r| == 4 && AllDigits(r) && DigitsValue(r) == 1 - year
    ensures year <= -9999 ==> r == "+" + Digits(1 - year)
  {
    var yoe := if year >= 1 then year else 1 - year;
    if yoe > 9999 then "+" + Digits(yoe) else FourDigits(yoe)
  }

  /** A Java `String` that may be null, as `+` renders it. */
  function NullText(s: Option<string>): string {
    match s
    case Some(v) => v
    case None => "null"
  }

  /** `fill_pattern(inner, msg)`: the text for one `{{inner}}`; `None` is
      the Java null `getString` returns for a missing field. */
  function FillPattern(inner: string, msg: JObject, env: Env): (r: Res<Option<string>>)
    ensures '|' !in inner ==> r == GetString(msg, inner)
    ensures ('|' in inner && !EndsWith(inner, "|int") && !EndsWith(inner, "|yyyy") &&
             !EndsWith(inner, "|MM") && !EndsWith(inner, "|dd")) ==> r == Ok(Some(inner))
    ensures r.Ok? && '|' in inner ==> r.value.Some?
  {
    var bar := Find(inner, '|', 0);
    if bar < 0 then GetString(msg, inner)
    else
      var field := inner[..bar];
      if EndsWith(inner, "|int") then
        var v :- GetLong(msg, field, 0, env.longValue);
        if v.None? then Throws    // Long.toString on null
        else Ok(Some(LongToString(v.value)))
      else if EndsWith(inner, "|yyyy") then
        var d :- FieldDate(msg, field, env);
        Ok(Some(YearText(d.year)))
      else if EndsWith(inner, "|MM") then
        var d :- FieldDate(msg, field, env);
        Ok(Some(TwoDigits(d.month)))
      else if EndsWith(inner, "|dd") then
        var d :- FieldDate(msg, field, env);
        Ok(Some(TwoDigits(d.day)))
      else Ok(Some(inner))
  }

  /** The `{{` of a span is never part of its `}}`. */
  lemma SpanBounds(pattern: string, start: int, end: int)
    requires OccursAt(pattern, "{{", start) && start <= end && OccursAt(pattern, "}}", end)
    ensures start + 2 <= end
  {
    assert pattern[start..start + 2][0] == pattern[start] == '{';
    assert pattern[start..start + 2][1] == pattern[start + 1] == '{';
    assert pattern[end..end + 2][0] == pattern[end] == '}';
  }

  /** What one pass of the loop of `build_string` finds from `index`: the
      rest of the template when no complete `{{...}}` follows, or the
      literal text before the next `{{`, the text between it and the first
      `}}` after it, and where the search resumes. */
  datatype Piece = Tail(text: string) | Placeholder(lit: string, inner: string, next: nat)

  function NextPiece(pattern: string, index: nat): (r: Piece)
    requires index < |pattern|
    ensures r.Placeholder? ==> index < r.next <= |pattern|
  {
    var start := IndexOf(pattern, "{{", index);
    var end := IndexOf(pattern, "}}", start);
    if start < 0 || end < 0 then Tail(pattern[index..])
    else
      SpanBounds(pattern, start, end);
      Placeholder(pattern[index..start], pattern[start + 2..end], end + 2)
  }

  /** Literal text, a filled placeholder and the expansion after it; the
      first exception raised propagates. */
  function Joined(lit: string, filled: Res<Option<string>>, rest: Res<string>): Res<string> {
    var v :- filled;
    var tail :- rest;
    Ok(lit + NullText(v) + tail)
  }

  /** The `while` loop of `build_string` from position `index`. */
  function BuildFrom(pattern: string, index: nat, msg: JObject, env: Env): Res<string>
    decreases |pattern| - index
  {
    if index >= |pattern| then Ok("")
    else
      match NextPiece(pattern, index)
      case Tail(text) => Ok(text)
      case Placeholder(lit, inner, next) =>
        Joined(lit, FillPattern(inner, msg, env), BuildFrom(pattern, next, msg, env))
  }

  /** `build_string(pattern, msg)`. */
  function BuildString(pattern: string, msg: JObject, env: Env): Res<string> {
    BuildFrom(pattern, 0, msg, env)
  }
}

/**
 The subscription filter of the real-time monitor (`rtmonitor.Filter`): a
 JSON object such as `{ "test": "=", "key": "VehicleRef", "value": "X" }`
 tested against each data record.

   "="       (also when `test` is missing or null) the record's string
             field `key` equals `value`;
   "in"      the record's string field `key` is one of the strings of
             `values`;
   "inside"  the record's position, read from the fields `lat_key` and
             `lng_key` (by default `acp_lat` and `acp_lng`), lies inside
             the polygon `points`;
   other     no record passes.

 A missing key or value makes the test fail rather than throw; a filter or
 record field of the wrong type raises an exception (`Throws`), as the
 typed Vert.x getters do.
 */
module RtFilter {
  import opened Outcomes
  import opened Json

  /** A `Position`: latitude and longitude. */
  datatype Point = Point(lat: Double, lng: Double)

  /** What the tests need from outside the model: `Number.doubleValue()` of
      an integral number, `Double.parseDouble`, `new Position(JsonObject)`
      (given the element, or Java null) and `Position.inside(polygon)`. */
  datatype Geo = Geo(
    toDouble: int -> Double,
    parseDouble: string -> Res<Double>,
    position: Option<JObject> -> Res<Point>,
    inside: (Point, seq<Point>) -> bool)

  /** The test names `Filter.test` recognises. */
  const EQUALS: string := "="
  const INSIDE: string := "inside"
  const IN: string := "in"

  /** The default fields of the record's position. */
  const DEFAULT_LAT_KEY: string := "acp_lat"
  const DEFAULT_LNG_KEY: string := "acp_lng"

  /** `o.getString(k)` is not null: `k` holds a string. */
  predicate HasString(o: JObject, k: string) {
    k in o && o[k].JStr?
  }

  /** `k` holds something other than JSON null. */
  predicate Present(o: JObject, k: string) {
    k in o && o[k] != JNull
  }

  predicate StringsOrNulls(xs: seq<Json>) {
    forall j :: 0 <= j < |xs| ==> xs[j].JStr? || xs[j].JNull?
  }

  /** `Filter.test(record)`. */
  function Test(filter: JObject, record: JObject, geo: Geo): (r: Res<bool>)
    ensures !Present(filter, "test") ==> r == TestEquals(filter, record)
    ensures HasString(filter, "test") && filter["test"].s !in {EQUALS, INSIDE, IN} ==> r == Ok(false)
    ensures Present(filter, "test") && !filter["test"].JStr? ==> r.Throws?
    ensures HasString(filter, "test") && filter["test"].s == EQUALS ==> r == TestEquals(filter, record)
    ensures HasString(filter, "test") && filter["test"].s == INSIDE ==> r == TestInside(filter, record, geo)
    ensures HasString(filter, "test") && filter["test"].s == IN ==> r == TestIn(filter, record)
    ensures r == Ok(true) ==>
              TestEquals(filter, record) == Ok(true) || TestInside(filter, record, geo) == Ok(true) ||
              TestIn(filter, record) == Ok(true)
  {
    var test :- GetString(filter, "test");
    var name := test.GetOr(EQUALS);
    if name == EQUALS then TestEquals(filter, record)
    else if name == INSIDE then TestInside(filter, record, geo)
    else if name == IN then TestIn(filter, record)
    else Ok(false)
  }

  /** `test_equals`: the record's field `key` is the string `value`. */
  function TestEquals(filter: JObject, record: JObject): (r: Res<bool>)
    ensures r == Ok(true) <==>
              HasString(filter, "key") && HasString(filter, "value") &&
              filter["key"].s in record && record[filter["key"].s] == filter["value"]
    ensures !Present(filter, "key") || !Present(filter, "value") ==> r != Ok(true)
    ensures r.Throws? ==>
              (Present(filter, "key") && !filter["key"].JStr?) ||
              (Present(filter, "value") && !filter["value"].JStr?) ||
              (HasString(filter, "key") && Present(record, filter["key"].s) && !record[filter["key"].s].JStr?)
  {
    var key :- GetString(filter, "key");
    if key.None? then Ok(false)
    else
      var value :- GetString(filter, "value");
      if value.None? then Ok(false)
      else
        var recordValue :- GetString(record, key.value);
        if recordValue.None? then Ok(false)
        else Ok(recordValue.value == value.value)
  }

  /** `test_in`: the record's field `key` is one of `values`. */
  function TestIn(filter: JObject, record: JObject): (r: Res<bool>)
    ensures !Present(filter, "key") ==> r == Ok(false)
    ensures HasString(filter, "key") && !Present(record, filter["key"].s) ==> r == Ok(false)
    ensures HasString(filter, "key") && HasString(record, filter["key"].s) && !Present(filter, "values") ==> r.Throws?
    ensures HasString(filter, "key") && HasString(record, filter["key"].s) &&
            "values" in filter && filter["values"].JArr? && StringsOrNulls(filter["values"].items) ==>
              r == Ok(record[filter["key"].s] in filter["values"].items)
    ensures r == Ok(true) ==>
              HasString(filter, "key") && HasString(record, filter["key"].s) &&
              "values" in filter && filter["values"].JArr? && record[filter["key"].s] in filter["values"].items
  {
    var key :- GetString(filter, "key");
    if key.None? then Ok(false)
    else
      var recordKey :- GetString(record, key.value);
      if recordKey.None? then Ok(false)
      else
        var values :- GetArray(filter, "values");
        if values.None? then Throws
        else
          assert values.value[0..] == values.value;
          MemberFrom(values.value, recordKey.value, 0)
  }

  /** The loop of `test_in` from element `i`: true at the first element
      equal to `s`; an element that is not a string (nor null) throws when
      the loop reaches it. */
  function MemberFrom(values: seq<Json>, s: string, i: nat): (r: Res<bool>)
    requires i <= |values|
    ensures r == Ok(true) ==> JStr(s) in values[i..]
    ensures r.Throws? ==> exists j :: i <= j < |values| && !(values[j].JStr? || values[j].JNull?)
    ensures StringsOrNulls(values[i..]) ==> r == Ok(JStr(s) in values[i..])
    decreases |values| - i
  {
    if i == |values| then Ok(false)
    else
      assert values[i..] == [values[i]] + values[i + 1..];
      var v :- ArrayGetString(values, i);
      if v == Some(s) then Ok(true)
      else
        assert StringsOrNulls(values[i..]) ==> StringsOrNulls(values[i + 1..]) by {
          var tail := values[i + 1..];
          if StringsOrNulls(values[i..]) {
            forall j | 0 <= j < |tail| ensures tail[j].JStr? || tail[j].JNull? {
              assert tail[j] == values[i..][j + 1];
            }
          }
        }
        MemberFrom(values, s, i + 1)
  }

  /** `get_double(record, key)`: a number is read as a double; a string is
      parsed (`getDouble` throws ClassCastException and the handler parses
      the string); a null key, a missing or null field and any other value
      raise an exception. */
  function GetDouble(record: JObject, key: Option<string>, geo: Geo): (r: Res<Double>)
    ensures key.None? ==> r.Throws?
    ensures key.Some? && !Present(record, key.value) ==> r.Throws?
    ensures key.Some? && key.value in record ==>
              match record[key.value]
              case JInt(i) => r == Ok(geo.toDouble(i))
              case JFloat(d) => r == Ok(d)
              case JStr(s) => r == geo.parseDouble(s)
              case _ => r.Throws?
  {
    match key
    case None => Throws
    case Some(k) =>
      if k !in record then Throws
      else match record[k]
        case JInt(i) => Ok(geo.toDouble(i))
        case JFloat(d) => Ok(d)
        case JStr(s) => geo.parseDouble(s)
        case _ => Throws
  }

  /** A polygon point as `new Position(points.getJsonObject(i))` reads it. */
  function PointOf(e: Json, geo: Geo): Res<Point> {
    match e
    case JNull => geo.position(None)
    case JObj(m) => geo.position(Some(m))
    case _ => Throws
  }

  /** The polygon built from the points from `i` on; the first point that
      cannot be read ends the loop with its exception. */
  function Polygon(points: seq<Json>, geo: Geo, i: nat): (r: Res<seq<Point>>)
    requires i <= |points|
    ensures r.Ok? ==> |r.value| == |points| - i &&
                      forall k :: i <= k < |points| ==> PointOf(points[k], geo) == Ok(r.value[k - i])
    ensures r.Throws? ==> exists k :: i <= k < |points| && PointOf(points[k], geo).Throws?
    decreases |points| - i
  {
    if i == |points| then Ok([])
    else
      var element :- ArrayGetObject(points, i);
      var p :- geo.position(element);
      var rest :- Polygon(points, geo, i + 1);
      var polygon := [p] + rest;
      assert forall j :: 0 < j < |polygon| ==> polygon[j] == rest[j - 1];
      Ok(polygon)
  }

  /** `test_inside`: the position keys (a missing one takes its default, an
      explicit null stays null), the polygon (a missing one throws at
      `size()`), then the position; any exception while reading the
      position means the record is not inside. */
  function TestInside(filter: JObject, record: JObject, geo: Geo): (r: Res<bool>)
    ensures !Present(filter, "points") ==> r.Throws?
    ensures r.Ok? ==> GetStringOr(filter, "lat_key", DEFAULT_LAT_KEY).Ok? &&
                      GetStringOr(filter, "lng_key", DEFAULT_LNG_KEY).Ok? &&
                      "points" in filter && filter["points"].JArr? && Polygon(filter["points"].items, geo, 0).Ok?
    ensures r.Ok? ==>
              var lat := GetDouble(record, GetStringOr(filter, "lat_key", DEFAULT_LAT_KEY).value, geo);
              var lng := GetDouble(record, GetStringOr(filter, "lng_key", DEFAULT_LNG_KEY).value, geo);
              r.value == (lat.Ok? && lng.Ok? &&
                          geo.inside(Point(lat.value, lng.value), Polygon(filter["points"].items, geo, 0).value))
    ensures "points" in filter && filter["points"].JArr? &&
            GetStringOr(filter, "lat_key", DEFAULT_LAT_KEY).Ok? && GetStringOr(filter, "lng_key", DEFAULT_LNG_KEY).Ok? ==>
              (r.Ok? <==> Polygon(filter["points"].items, geo, 0).Ok?)
  {
    var latKey :- GetStringOr(filter, "lat_key", DEFAULT_LAT_KEY);
    var lngKey :- GetStringOr(filter, "lng_key", DEFAULT_LNG_KEY);
    var points :- GetArray(filter, "points");
    if points.None? then Throws
    else
      var polygon :- Polygon(points.value, geo, 0);
      match GetDouble(record, latKey, geo)
      case Throws => Ok(false)
      case Ok(lat) =>
        match GetDouble(record, lngKey, geo)
        case Throws => Ok(false)
        case Ok(lng) => Ok(geo.inside(Point(lat, lng), polygon))
  }

  // ---------------------------------------------------------------------
  // Properties
  // ---------------------------------------------------------------------

  /** A filter without a test is an equality test. */
  lemma MissingTestIsEquals(filter: JObject, record: JObject, geo: Geo)
    requires "test" !in filter
    ensures Test(filter, record, geo) == Test(filter["test" := JStr(EQUALS)], record, geo)
  {
    var explicit := filter["test" := JStr(EQUALS)];
    assert TestEquals(explicit, record) == TestEquals(filter, record) by {
      assert GetString(explicit, "key") == GetString(filter, "key");
      assert GetString(explicit, "value") == GetString(filter, "value");
    }
  }

  /** An equality test passes exactly the records whose field `key` holds
      the string `value`, and throws exactly when that field holds a value
      of another type. */
  lemma EqualsMatches(key: string, value: string, record: JObject, geo: Geo)
    ensures var filter := map["test" := JStr(EQUALS), "key" := JStr(key), "value" := JStr(value)];
            (Test(filter, record, geo) == Ok(true) <==> key in record && record[key] == JStr(value)) &&
            (Test(filter, record, geo).Throws? <==> Present(record, key) && !record[key].JStr?)
  {
    var filter := map["test" := JStr(EQUALS), "key" := JStr(key), "value" := JStr(value)];
    assert GetString(filter, "test") == Ok(Some(EQUALS));
    assert GetString(filter, "key") == Ok(Some(key)) && GetString(filter, "value") == Ok(Some(value));
  }

  /** A membership test over a list of strings passes exactly the records
      whose field `key` holds one of them. */
  lemma InMatches(key: string, values: seq<string>, record: JObject, geo: Geo)
    requires HasString(record, key)
    ensures var items := seq(|values|, j requires 0 <= j < |values| => JStr(values[j]));
            var filter := map["test" := JStr(IN), "key" := JStr(key), "values" := JArr(items)];
            Test(filter, record, geo) == Ok(record[key].s in values)
  {
    var items := seq(|values|, j requires 0 <= j < |values| => JStr(values[j]));
    var filter := map["test" := JStr(IN), "key" := JStr(key), "values" := JArr(items)];
    assert GetString(filter, "test") == Ok(Some(IN));
    assert StringsOrNulls(items);
    assert TestIn(filter, record) == Ok(record[key] in items);
    if record[key].s in values {
      var j :| 0 <= j < |values| && values[j] == record[key].s;
      assert items[j] == record[key];
    }
  }

  /** The membership loop finds a match that comes before any element that
      is not a string: the elements after the match are never read. */
  lemma {:induction false} MatchBeforeBadElement(values: seq<Json>, s: string, i: nat, j: nat)
    requires i <= j < |values| && values[j] == JStr(s)
    requires forall m :: i <= m < j ==> values[m].JStr? || values[m].JNull?
    ensures MemberFrom(values, s, i) == Ok(true)
    decreases j - i
  {
    if i < j {
      assert ArrayGetString(values, i).Ok?;
      if ArrayGetString(values, i).value != Some(s) {
        MatchBeforeBadElement(values, s, i + 1, j);
      }
    }
  }

  /** Without `lat_key` and `lng_key` the position is read from `acp_lat`
      and `acp_lng`. */
  lemma InsideKeyDefaults(filter: JObject, record: JObject, geo: Geo)
    requires "lat_key" !in filter && "lng_key" !in filter
    ensures TestInside(filter, record, geo) ==
            TestInside(filter["lat_key" := JStr(DEFAULT_LAT_KEY)]["lng_key" := JStr(DEFAULT_LNG_KEY)], record, geo)
  {
    var explicit := filter["lat_key" := JStr(DEFAULT_LAT_KEY)]["lng_key" := JStr(DEFAULT_LNG_KEY)];
    assert GetStringOr(explicit, "lat_key", DEFAULT_LAT_KEY) == GetStringOr(filter, "lat_key", DEFAULT_LAT_KEY);
    assert GetStringOr(explicit, "lng_key", DEFAULT_LNG_KEY) == GetStringOr(filter, "lng_key", DEFAULT_LNG_KEY);
    assert GetArray(explicit, "points") == GetArray(filter, "points");
  }

  /** A position that cannot be read (a null key, a missing field, a string
      that does not parse, a value of another type) means the record is not
      inside, once the polygon has been built. */
  lemma UnreadablePositionIsOutside(filter: JObject, record: JObject, geo: Geo, points: seq<Json>)
    requires "points" in filter && filter["points"] == JArr(points) && Polygon(points, geo, 0).Ok?
    requires GetStringOr(filter, "lat_key", DEFAULT_LAT_KEY).Ok? && GetStringOr(filter, "lng_key", DEFAULT_LNG_KEY).Ok?
    requires GetDouble(record, GetStringOr(filter, "lat_key", DEFAULT_LAT_KEY).value, geo).Throws? ||
             GetDouble(record, GetStringOr(filter, "lng_key", DEFAULT_LNG_KEY).value, geo).Throws?
    ensures TestInside(filter, record, geo) == Ok(false)
  {
  }

  /** An explicit null `lat_key` does not fall back to the default: the
      position cannot be read and the record is not inside. */
  lemma NullLatKeyIsOutside(filter: JObject, record: JObject, geo: Geo, points: seq<Json>)
    requires "lat_key" in filter && filter["lat_key"] == JNull
    requires GetStringOr(filter, "lng_key", DEFAULT_LNG_KEY).Ok?
    requires "points" in filter && filter["points"] == JArr(points) && Polygon(points, geo, 0).Ok?
    ensures TestInside(filter, record, geo) == Ok(false)
  {
    assert GetStringOr(filter, "lat_key", DEFAULT_LAT_KEY) == Ok(None);
  }

  /** A polygon point that cannot be read makes `test_inside` throw. */
  lemma {:induction false} BadPointThrows(points: seq<Json>, geo: Geo, i: nat, k: nat)
    requires i <= k < |points| && PointOf(points[k], geo).Throws?
    ensures Polygon(points, geo, i).Throws?
    decreases k - i
  {
    if i < k {
      var element := ArrayGetObject(points, i);
      if element.Ok? && geo.position(element.value).Ok? {
        BadPointThrows(points, geo, i + 1, k);
      }
    } else {
      assert ArrayGetObject(points, i).Throws? || geo.position(ArrayGetObject(points, i).value).Throws?;
    }
  }

  /** A record with numeric coordinates is tested against the polygon. */
  lemma NumericPositionTested(record: JObject, geo: Geo, points: seq<Json>, lat: Double, lng: Double)
    requires Polygon(points, geo, 0).Ok?
    requires DEFAULT_LAT_KEY in record && record[DEFAULT_LAT_KEY] == JFloat(lat)
    requires DEFAULT_LNG_KEY in record && record[DEFAULT_LNG_KEY] == JFloat(lng)
    ensures var filter := map["test" := JStr(INSIDE), "points" := JArr(points)];
            Test(filter, record, geo) == Ok(geo.inside(Point(lat, lng), Polygon(points, geo, 0).value))
  {
    var filter := map["test" := JStr(INSIDE), "points" := JArr(points)];
    assert GetString(filter, "test") == Ok(Some(INSIDE));
    assert GetStringOr(filter, "lat_key", DEFAULT_LAT_KEY) == Ok(Some(DEFAULT_LAT_KEY));
    assert GetStringOr(filter, "lng_key", DEFAULT_LNG_KEY) == Ok(Some(DEFAULT_LNG_KEY));
  }
}

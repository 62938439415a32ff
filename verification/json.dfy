/**
 JSON values as the Vert.x `JsonObject`/`JsonArray` classes hold them, and the
 typed accessors the modelled code calls. The accessors follow Vert.x 3: a typed
 getter casts the stored value, so a value of another type raises
 ClassCastException (`Throws`); an explicit JSON null and a missing key both read
 as Java `null` (`None`), except that a getter with a default returns the
 default only for a missing key.
 */
module Json {
  import opened Outcomes

  /** A Java `double`, held as its IEEE-754 bit pattern; floating-point
      arithmetic is not modelled. */
  datatype Double = Double(bits: bv64)

  datatype Json =
    | JNull
    | JBool(b: bool)
    | JInt(i: int)
    | JFloat(d: Double)
    | JStr(s: string)
    | JArr(items: seq<Json>)
    | JObj(fields: map<string, Json>)

  type JObject = map<string, Json>

  /** `Number.longValue()` of an integral JSON number: the low 64 bits, read
      as a two's-complement `long`. */
  function ToLong(i: int): (r: int)
    ensures -0x8000_0000_0000_0000 <= r < 0x8000_0000_0000_0000
    ensures -0x8000_0000_0000_0000 <= i < 0x8000_0000_0000_0000 ==> r == i
  {
    var low := i % 0x1_0000_0000_0000_0000;
    if low < 0x8000_0000_0000_0000 then low else low - 0x1_0000_0000_0000_0000
  }

  /** `o.getValue(k)`. */
  function GetValue(o: JObject, k: string): (r: Option<Json>)
    ensures r.Some? <==> k in o && o[k] != JNull
  {
    if k in o && o[k] != JNull then Some(o[k]) else None
  }

  /** `o.getString(k)`. */
  function GetString(o: JObject, k: string): (r: Res<Option<string>>)
    ensures r == Ok(None) <==> k !in o || o[k] == JNull
    ensures r.Ok? && r.value.Some? <==> k in o && o[k].JStr?
    ensures r.Ok? && r.value.Some? ==> o[k] == JStr(r.value.value)
  {
    if k !in o then Ok(None)
    else match o[k]
      case JNull => Ok(None)
      case JStr(s) => Ok(Some(s))
      case _ => Throws
  }

  /** `o.getString(k, def)`: the default only when the key is missing. */
  function GetStringOr(o: JObject, k: string, def: string): (r: Res<Option<string>>)
    ensures k !in o ==> r == Ok(Some(def))
    ensures k in o ==> r == GetString(o, k)
  {
    if k !in o then Ok(Some(def)) else GetString(o, k)
  }

  /** `o.getLong(k, def)`; `longValue` is `Double.longValue()`. */
  function GetLong(o: JObject, k: string, def: int, longValue: Double -> int): (r: Res<Option<int>>)
    ensures k !in o ==> r == Ok(Some(def))
    ensures k in o && o[k].JInt? ==> r == Ok(Some(ToLong(o[k].i)))
    ensures r.Throws? <==> k in o && !(o[k].JInt? || o[k].JFloat? || o[k].JNull?)
  {
    if k !in o then Ok(Some(def))
    else match o[k]
      case JNull => Ok(None)
      case JInt(i) => Ok(Some(ToLong(i)))
      case JFloat(d) => Ok(Some(longValue(d)))
      case _ => Throws
  }

  /** `o.getJsonObject(k)`. */
  function GetObject(o: JObject, k: string): (r: Res<Option<JObject>>)
    ensures r.Ok? && r.value.Some? <==> k in o && o[k].JObj?
    ensures r.Ok? && r.value.Some? ==> o[k] == JObj(r.value.value)
    ensures r == Ok(None) <==> k !in o || o[k] == JNull
  {
    if k !in o then Ok(None)
    else match o[k]
      case JNull => Ok(None)
      case JObj(m) => Ok(Some(m))
      case _ => Throws
  }

  /** `o.getJsonArray(k)`. */
  function GetArray(o: JObject, k: string): (r: Res<Option<seq<Json>>>)
    ensures r.Ok? && r.value.Some? <==> k in o && o[k].JArr?
    ensures r.Ok? && r.value.Some? ==> o[k] == JArr(r.value.value)
    ensures r == Ok(None) <==> k !in o || o[k] == JNull
  {
    if k !in o then Ok(None)
    else match o[k]
      case JNull => Ok(None)
      case JArr(a) => Ok(Some(a))
      case _ => Throws
  }

  /** `a.getJsonObject(i)`: IndexOutOfBoundsException outside the array. */
  function ArrayGetObject(a: seq<Json>, i: int): (r: Res<Option<JObject>>)
    ensures r.Ok? && r.value.Some? <==> 0 <= i < |a| && a[i].JObj?
    ensures r.Ok? && r.value.Some? ==> a[i] == JObj(r.value.value)
    ensures !(0 <= i < |a|) ==> r.Throws?
  {
    if !(0 <= i < |a|) then Throws
    else match a[i]
      case JNull => Ok(None)
      case JObj(m) => Ok(Some(m))
      case _ => Throws
  }

  /** `a.getString(i)`. */
  function ArrayGetString(a: seq<Json>, i: int): (r: Res<Option<string>>)
    ensures r.Ok? && r.value.Some? <==> 0 <= i < |a| && a[i].JStr?
    ensures r.Ok? && r.value.Some? ==> a[i] == JStr(r.value.value)
    ensures !(0 <= i < |a|) ==> r.Throws?
  {
    if !(0 <= i < |a|) then Throws
    else match a[i]
      case JNull => Ok(None)
      case JStr(s) => Ok(Some(s))
      case _ => Throws
  }
}

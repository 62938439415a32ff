/**
 The console's cache of the latest status message of each module
 (`Console.StatusCache`).

 `add(jo)` drops the cached statuses of the module that sent `jo` (the same
 `module_name` and `module_id`), stamps `jo` with `acp_ts` when it has none,
 and appends it; `status()` is the cached array. The removal loop moves on
 after removing an element, so of two adjacent statuses of the sender the
 second survives; a cached status without a `module_name` or `module_id`
 string makes `add` throw, leaving the removals done so far in place.
 */
module StatusCache {
  import opened Outcomes
  import opened Text
  import opened Json

  /** The state after `add`: the cached statuses, and whether `add` threw
      (and so did not append). */
  datatype Added = Added(cache: seq<JObject>, threw: bool)

  /** A status that names its module: `module_name` and `module_id` hold
      strings. */
  predicate Keyed(m: JObject) {
    "module_name" in m && m["module_name"].JStr? && "module_id" in m && m["module_id"].JStr?
  }

  /** The module a status names (JSON null for a missing entry). */
  function ModuleKey(m: JObject): (Json, Json) {
    (if "module_name" in m then m["module_name"] else JNull,
     if "module_id" in m then m["module_id"] else JNull)
  }

  /** Two statuses of the same module. */
  predicate SameModule(a: JObject, b: JObject) {
    ModuleKey(a) == ModuleKey(b)
  }

  predicate AllKeyed(cache: seq<JObject>) {
    forall k :: 0 <= k < |cache| ==> Keyed(cache[k])
  }

  /** The invariant of a cache that only `add` has filled: every status is
      keyed and no module has two of them. */
  predicate Valid(cache: seq<JObject>) {
    AllKeyed(cache) && forall j, k :: 0 <= j < k < |cache| ==> !SameModule(cache[j], cache[k])
  }

  /** No status from `i` on is of `jo`'s module. */
  predicate NoneFrom(cache: seq<JObject>, jo: JObject, i: nat) {
    forall k :: i <= k < |cache| ==> !SameModule(cache[k], jo)
  }

  /** The test of the removal loop for the cached status `msg`:
      `msg.getString("module_name").equals(jo.getString("module_name")) &&`
      the same for `module_id`. A null in `msg` throws at `equals`; a null
      in `jo` never matches; the ids are read only when the names match. */
  function Matches(msg: JObject, jo: JObject): (r: Res<bool>)
    ensures Keyed(msg) && Keyed(jo) ==> r == Ok(SameModule(msg, jo))
    ensures r == Ok(true) ==> Keyed(msg) && Keyed(jo) && SameModule(msg, jo)
    ensures "module_name" !in msg ==> r.Throws?
  {
    var name :- GetString(msg, "module_name");
    if name.None? then Throws
    else
      var joName :- GetString(jo, "module_name");
      if joName != name then Ok(false)
      else
        var id :- GetString(msg, "module_id");
        if id.None? then Throws
        else
          var joId :- GetString(jo, "module_id");
          Ok(joId == id)
  }

  /** The removal loop from index `i`: a match is removed and `i` still
      moves on, past the element that took its place. */
  function RemoveFrom(cache: seq<JObject>, jo: JObject, i: nat): (r: Added)
    ensures |r.cache| <= |cache|
    decreases |cache| - i
  {
    if i >= |cache| then Added(cache, false)
    else
      match Matches(cache[i], jo)
      case Throws => Added(cache, true)
      case Ok(same) =>
        if same then
          RemoveFrom(cache[..i] + cache[i + 1..], jo, i + 1)
        else RemoveFrom(cache, jo, i + 1)
  }

  /** The statuses that are not of the module `jo` names. */
  function Without(cache: seq<JObject>, jo: JObject): (r: seq<JObject>)
    ensures |r| <= |cache|
    ensures NoneFrom(r, jo, 0)
  {
    if |cache| == 0 then []
    else
      var rest := Without(cache[1..], jo);
      if SameModule(cache[0], jo) then rest
      else
        var r := [cache[0]] + rest;
        assert forall k :: 0 < k < |r| ==> r[k] == rest[k - 1];
        r
  }

  /** Every status `Without` keeps is a status of the cache, from a later
      position for a later one. */
  lemma {:induction false} WithoutKeeps(cache: seq<JObject>, jo: JObject)
    ensures forall k :: 0 <= k < |Without(cache, jo)| ==> Without(cache, jo)[k] in cache
  {
    if |cache| > 0 {
      WithoutKeeps(cache[1..], jo);
      var rest := Without(cache[1..], jo);
      assert forall k :: 0 <= k < |rest| ==> rest[k] in cache[1..];
    }
  }

  /** `String.valueOf(ms)` cut before its last three characters:
      `"<seconds>.<milliseconds>"`. Fewer than three characters make
      `substring` throw. */
  function Stamp(ms: int): (r: Res<string>)
    ensures r.Ok? <==> |LongToString(ms)| >= 3
  {
    var text := LongToString(ms);
    var n := |text|;
    if n < 3 then Throws else Ok(text[..n - 3] + "." + text[n - 3..])
  }

  /** `jo` as it is cached: stamped with `acp_ts` when it has none (the
      default "42" comes back, the same string object, only for a missing
      key); a present `acp_ts`, even null, is kept; one of another type
      throws. */
  function Stamped(jo: JObject, ms: int): (r: Res<JObject>)
    ensures "acp_ts" in jo ==> (r.Ok? <==> jo["acp_ts"].JStr? || jo["acp_ts"].JNull?) && (r.Ok? ==> r.value == jo)
    ensures "acp_ts" !in jo ==> (r.Ok? <==> Stamp(ms).Ok?) &&
                                (r.Ok? ==> r.value == jo["acp_ts" := JStr(Stamp(ms).value)])
  {
    if "acp_ts" !in jo then
      var ts :- Stamp(ms);
      Ok(jo["acp_ts" := JStr(ts)])
    else
      var _ :- GetString(jo, "acp_ts");
      Ok(jo)
  }

  /** `add(jo)` at the instant `ms` (`Instant.now().toEpochMilli()`). */
  function Add(cache: seq<JObject>, jo: JObject, ms: int): (r: Added)
    ensures !r.threw ==> |r.cache| >= 1 && Ok(r.cache[|r.cache| - 1]) == Stamped(jo, ms)
    ensures r.threw <==> RemoveFrom(cache, jo, 0).threw || Stamped(jo, ms).Throws?
    ensures r.cache[..|r.cache| - (if r.threw then 0 else 1)] == RemoveFrom(cache, jo, 0).cache
  {
    var scan := RemoveFrom(cache, jo, 0);
    if scan.threw then scan
    else
      match Stamped(jo, ms)
      case Throws => Added(scan.cache, true)
      case Ok(stamped) =>
        var added := scan.cache + [stamped];
        assert added[..|added| - 1] == scan.cache;
        Added(added, false)
  }

  /** `status()`: the cached statuses, oldest first. */
  function Status(cache: seq<JObject>): seq<JObject> {
    cache
  }

  /** The removal loop as the source writes it. */
  method RemoveLoop(cache: seq<JObject>, jo: JObject) returns (r: seq<JObject>, threw: bool)
    ensures Added(r, threw) == RemoveFrom(cache, jo, 0)
  {
    r := cache;
    var i := 0;
    while i < |r|
      invariant RemoveFrom(r, jo, i) == RemoveFrom(cache, jo, 0)
      decreases |r| - i
    {
      var same := Matches(r[i], jo);
      if same.Throws? {
        return r, true;
      }
      if same.value {
        r := r[..i] + r[i + 1..];
      }
      i := i + 1;
    }
    return r, false;
  }

  // ---------------------------------------------------------------------
  // Properties
  // ---------------------------------------------------------------------

  /** On a valid cache the removal loop drops exactly the statuses of the
      module `jo` names: the skip after a removal never matters, as no
      other status of that module follows. */
  lemma {:induction false} RemoveFromValid(cache: seq<JObject>, jo: JObject, i: nat)
    requires Valid(cache) && Keyed(jo) && i <= |cache|
    ensures RemoveFrom(cache, jo, i) == Added(cache[..i] + Without(cache[i..], jo), false)
    decreases |cache| - i
  {
    if i == |cache| {
      assert cache[..i] == cache;
      assert cache[i..] == [];
    } else if SameModule(cache[i], jo) {
      OnlyMatch(cache, jo, i);
      RemoveAt(cache, jo, i);
      WithoutAt(cache, jo, i);
    } else {
      RemoveFromValid(cache, jo, i + 1);
      WithoutSkip(cache, jo, i);
      assert cache[..i + 1] == cache[..i] + [cache[i]];
    }
  }

  /** In a valid cache no status after one of `jo`'s module is of it. */
  lemma OnlyMatch(cache: seq<JObject>, jo: JObject, i: nat)
    requires Valid(cache) && i < |cache| && SameModule(cache[i], jo)
    ensures NoneFrom(cache, jo, i + 1)
  {
    forall k | i + 1 <= k < |cache| ensures !SameModule(cache[k], jo) {
      assert !SameModule(cache[i], cache[k]);
    }
  }

  /** The loop at the last status of `jo`'s module removes it and nothing
      after it. */
  lemma RemoveAt(cache: seq<JObject>, jo: JObject, i: nat)
    requires AllKeyed(cache) && Keyed(jo) && i < |cache| && SameModule(cache[i], jo)
    requires NoneFrom(cache, jo, i + 1)
    ensures RemoveFrom(cache, jo, i) == Added(cache[..i] + cache[i + 1..], false)
  {
    var next := cache[..i] + cache[i + 1..];
    assert forall k :: 0 <= k < |next| ==> next[k] == cache[if k < i then k else k + 1];
    assert AllKeyed(next) && NoneFrom(next, jo, i + 1);
    NoMatchFrom(next, jo, i + 1);
  }

  /** The statuses from the last one of `jo`'s module on, without it. */
  lemma WithoutAt(cache: seq<JObject>, jo: JObject, i: nat)
    requires i < |cache| && SameModule(cache[i], jo) && NoneFrom(cache, jo, i + 1)
    ensures Without(cache[i..], jo) == cache[i + 1..]
  {
    var tail, rest := cache[i..], cache[i + 1..];
    assert forall k :: 0 <= k < |rest| ==> rest[k] == cache[i + 1 + k];
    assert NoneFrom(rest, jo, 0);
    WithoutNone(rest, jo);
    assert tail[0] == cache[i] && tail[1..] == rest;
  }

  /** A status of another module is kept. */
  lemma WithoutSkip(cache: seq<JObject>, jo: JObject, i: nat)
    requires i < |cache| && !SameModule(cache[i], jo)
    ensures Without(cache[i..], jo) == [cache[i]] + Without(cache[i + 1..], jo)
  {
    var tail := cache[i..];
    assert tail[0] == cache[i] && tail[1..] == cache[i + 1..];
  }

  /** The removal loop removes nothing past `i` when no status there is of
      `jo`'s module. */
  lemma {:induction false} NoMatchFrom(cache: seq<JObject>, jo: JObject, i: nat)
    requires AllKeyed(cache) && Keyed(jo) && NoneFrom(cache, jo, i)
    ensures RemoveFrom(cache, jo, i) == Added(cache, false)
    decreases |cache| - i
  {
    if i < |cache| {
      NoMatchFrom(cache, jo, i + 1);
    }
  }

  /** Removing the statuses of a module none of them is of changes nothing. */
  lemma {:induction false} WithoutNone(cache: seq<JObject>, jo: JObject)
    requires NoneFrom(cache, jo, 0)
    ensures Without(cache, jo) == cache
  {
    if |cache| > 0 {
      var tail := cache[1..];
      assert forall k :: 0 <= k < |tail| ==> tail[k] == cache[k + 1];
      WithoutNone(tail, jo);
    }
  }

  /** Dropping the statuses of a module keeps a cache valid. */
  lemma {:induction false} WithoutValid(cache: seq<JObject>, jo: JObject)
    requires Valid(cache)
    ensures Valid(Without(cache, jo))
  {
    if |cache| > 0 {
      var tail := cache[1..];
      assert forall k :: 0 <= k < |tail| ==> tail[k] == cache[k + 1];
      WithoutValid(tail, jo);
      var rest := Without(tail, jo);
      WithoutKeeps(tail, jo);
      if !SameModule(cache[0], jo) {
        forall k | 0 <= k < |rest| ensures !SameModule(cache[0], rest[k]) {
          var j :| 0 <= j < |tail| && tail[j] == rest[k];
          assert cache[j + 1] == rest[k];
        }
        ValidCons(cache[0], rest);
      }
    }
  }

  lemma ValidCons(m: JObject, rest: seq<JObject>)
    requires Keyed(m) && Valid(rest) && forall k :: 0 <= k < |rest| ==> !SameModule(m, rest[k])
    ensures Valid([m] + rest)
  {
    var r := [m] + rest;
    assert forall k :: 0 < k < |r| ==> r[k] == rest[k - 1];
  }

  /** On a valid cache, `add` leaves the other modules' statuses in their
      order, followed by the stamped `jo`: exactly one status of its
      module, the last, and the cache stays valid. */
  lemma AddValid(cache: seq<JObject>, jo: JObject, ms: int)
    requires Valid(cache) && Keyed(jo) && Stamped(jo, ms).Ok?
    ensures var r := Add(cache, jo, ms);
            !r.threw && r.cache == Without(cache, jo) + [Stamped(jo, ms).value] && Valid(r.cache)
    ensures var r := Add(cache, jo, ms);
            forall k :: 0 <= k < |r.cache| ==> (SameModule(r.cache[k], jo) <==> k == |r.cache| - 1)
  {
    RemoveFromValid(cache, jo, 0);
    assert cache[..0] == [] && cache[0..] == cache;
    WithoutValid(cache, jo);
    var w := Without(cache, jo);
    var stamped := Stamped(jo, ms).value;
    assert Keyed(stamped) && SameModule(stamped, jo);
    ValidSnoc(w, stamped);
  }

  lemma ValidSnoc(w: seq<JObject>, m: JObject)
    requires Valid(w) && Keyed(m) && forall k :: 0 <= k < |w| ==> Keyed(w[k]) && !SameModule(w[k], m)
    ensures Valid(w + [m])
    ensures forall k :: 0 <= k < |w + [m]| ==> (SameModule((w + [m])[k], m) <==> k == |w|)
  {
    var r := w + [m];
    assert forall k :: 0 <= k < |w| ==> r[k] == w[k];
  }

  /** `status()` after `add(jo)` ends with `jo`, stamped when it came
      without `acp_ts`. */
  lemma StatusAfterAdd(cache: seq<JObject>, jo: JObject, ms: int)
    requires "acp_ts" !in jo && !Add(cache, jo, ms).threw
    ensures var s := Status(Add(cache, jo, ms).cache);
            |s| >= 1 && s[|s| - 1] == jo["acp_ts" := JStr(Stamp(ms).value)]
  {
  }

  /** Two adjacent statuses of the sender: the loop removes the first, then
      skips the second, which stays cached. */
  lemma AdjacentDuplicateSurvives(a: JObject, b: JObject, jo: JObject)
    requires Keyed(a) && Keyed(b) && Keyed(jo) && SameModule(a, jo) && SameModule(b, jo)
    ensures RemoveFrom([a, b], jo, 0) == Added([b], false)
  {
    assert [a, b][..0] + [a, b][1..] == [b];
  }

  /** The decimal digits of `m` zero-padded to three. */
  function ThreeDigits(m: int): (r: string)
    requires 0 <= m < 1000
    ensures |r| == 3 && AllDigits(r) && DigitsValue(r) == m
  {
    var r := [DigitChar(m / 100), DigitChar(m / 10 % 10), DigitChar(m % 10)];
    assert r[..2][..1][..0] == [];
    assert DigitsValue(r[..2][..1]) == m / 100;
    assert DigitsValue(r[..2]) == m / 100 * 10 + m / 10 % 10 == m / 10;
    r
  }

  /** The digits of a number with three or more of them end in its last
      three digits. */
  lemma DigitsSplit(n: int)
    requires n >= 1000
    ensures Digits(n) == Digits(n / 1000) + ThreeDigits(n % 1000)
  {
    var q, m := n / 1000, n % 1000;
    assert n / 10 == 100 * q + m / 10 && n % 10 == m % 10;
    assert n / 10 / 10 == 10 * q + m / 100 && n / 10 % 10 == m / 10 % 10;
    assert n / 10 / 10 / 10 == q && n / 10 / 10 % 10 == m / 100;
    assert Digits(n / 10 / 10) == Digits(q) + [DigitChar(m / 100)];
    assert Digits(n / 10) == Digits(q) + [DigitChar(m / 100)] + [DigitChar(m / 10 % 10)];
  }

  /** From the year 1970 plus a second on, the stamp is the epoch seconds,
      a dot, and the milliseconds as three digits. */
  lemma StampFormat(ms: int)
    requires ms >= 1000
    ensures Stamp(ms) == Ok(Digits(ms / 1000) + "." + ThreeDigits(ms % 1000))
  {
    DigitsSplit(ms);
    var d := Digits(ms);
    assert d[..|d| - 3] == Digits(ms / 1000);
    assert d[|d| - 3..] == ThreeDigits(ms % 1000);
  }

  /** Fewer than three characters of epoch milliseconds make `add` throw. */
  lemma ShortStampThrows(ms: int)
    requires -9 <= ms < 100
    ensures Stamp(ms).Throws?
  {
    var n := if ms < 0 then -ms else ms;
    if n >= 10 {
      assert Digits(n) == Digits(n / 10) + [DigitChar(n % 10)];
    }
  }
}

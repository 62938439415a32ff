/**
 Storing a message (`FilerUtils.store_msg`, `store_msgBlocking`) and the net
 effect of the writes it triggers on the file system.

 A message the route's filter rejects is dropped. Otherwise it is reshaped
 into the records to store:
   flatten `f`        one record per element of the array `msg.f`: the
                      message without `f`, overlaid with the element (the
                      element's keys win);
   records_data `p`   one record per element of the array the path `p`
                      selects, overlaid with the `merge_base` fields copied
                      from the message (the message's values win);
   neither            the message itself.
 Each record goes to the file `<store_path>/<store_name>`, both expanded as
 templates against the record. The first exception ends `store_msg`; the
 records already handed on are still written.
 */
module Filer {
  import opened Outcomes
  import opened Text
  import opened Json
  import opened Template
  import opened RecordsPath
  import opened FilerConfiguration

  /** `Constants.FILE_WRITE`: the store mode that overwrites; any other
      mode appends. */
  const FILE_WRITE: string := "write"

  /** `Constants.PREV_FILE_SUFFIX`: where overwriting keeps the previous
      content. */
  const PREV_FILE_SUFFIX: string := ".prev"

  /** What storing needs from outside the model: the template environment,
      `FilerFilter.match` (filter settings, message) and
      `JsonObject.toString()`. */
  datatype Host = Host(env: Env, matches: (JObject, JObject) -> bool, render: JObject -> string)

  /** A `FilerUtils`: the route and, when it has records data, the compiled
      path. */
  datatype FilerUtils = FilerUtils(config: FilerConfig, finder: Option<seq<PathElement>>)

  /** `new FilerUtils(vertx, fc)`: the records path is compiled only when
      there is one, and a path that does not compile makes it throw. */
  function NewFilerUtils(fc: FilerConfig): (r: Res<FilerUtils>)
    ensures fc.recordsData.None? ==> r == Ok(FilerUtils(fc, None))
    ensures fc.recordsData.Some? ==>
              (r.Ok? <==> Compile(fc.recordsData.value).Ok?) &&
              (r.Ok? ==> r.value == FilerUtils(fc, Some(Compile(fc.recordsData.value).value)))
  {
    match fc.recordsData
    case None => Ok(FilerUtils(fc, None))
    case Some(data) =>
      var steps :- Compile(data);
      Ok(FilerUtils(fc, Some(steps)))
  }

  /** The `source_filter` gate: a route without a filter keeps everything. */
  predicate Admits(fc: FilerConfig, host: Host, msg: JObject) {
    fc.sourceFilter.None? || host.matches(fc.sourceFilter.value, msg)
  }

  // ---------------------------------------------------------------------
  // Reshaping
  // ---------------------------------------------------------------------

  /** The records a reshaping loop produced before it ended, and whether it
      ended by an exception. */
  datatype Batch = Batch(records: seq<JObject>, threw: bool)

  /** `into.mergeIn(from)`: the keys of `from` overwrite those of `into`. */
  function MergeIn(into: JObject, from: JObject): (r: JObject)
    ensures r.Keys == into.Keys + from.Keys
    ensures forall k :: k in from ==> r[k] == from[k]
    ensures forall k :: k in into && k !in from ==> r[k] == into[k]
  {
    into + from
  }

  /** The record made from one element: in the flatten mode the element is
      merged into a copy of the base, in the records mode the base is merged
      into the element. */
  function Overlay(base: JObject, element: JObject, elementWins: bool): JObject {
    if elementWins then MergeIn(base, element) else MergeIn(element, base)
  }

  /** The loop of either mode from element `i`: one record per element,
      until an element is null (`mergeIn` throws) or not an object
      (`getJsonObject` throws). */
  function MergeEach(items: seq<Json>, base: JObject, elementWins: bool, i: nat): (r: Batch)
    requires i <= |items|
    ensures i + |r.records| <= |items|
    ensures forall k :: i <= k < i + |r.records| ==>
              items[k].JObj? && r.records[k - i] == Overlay(base, items[k].fields, elementWins)
    ensures r.threw ==> i + |r.records| < |items| && !items[i + |r.records|].JObj?
    ensures !r.threw ==> i + |r.records| == |items|
    decreases |items| - i
  {
    if i == |items| then Batch([], false)
    else
      match ArrayGetObject(items, i)
      case Ok(Some(element)) =>
        var rest := MergeEach(items, base, elementWins, i + 1);
        var records := [Overlay(base, element, elementWins)] + rest.records;
        assert forall j :: 0 < j < |records| ==> records[j] == rest.records[j - 1];
        Batch(records, rest.threw)
      case _ => Batch([], true)
  }

  /** The flatten mode: the array of the flatten field, whose `size()`
      throws when it is null. */
  function Flattened(msg: JObject, field: string): Batch {
    match GetArray(msg, field)
    case Ok(Some(items)) => MergeEach(items, msg - {field}, true, 0)
    case _ => Batch([], true)
  }

  /** `msg.getValue(key)` as `put` stores it: a missing field becomes an
      explicit null. */
  function CopiedValue(msg: JObject, key: string): Json {
    if key in msg then msg[key] else JNull
  }

  /** The fields named by the entries of `keys`. */
  function KeySet(keys: seq<Json>): set<string> {
    set k | 0 <= k < |keys| && keys[k].JStr? :: keys[k].s
  }

  /** The loop that builds `base_msg` from the `merge_base` entries from
      `i` on. An entry that is not a string throws, and so does a null one
      (`put` rejects a null key). */
  function BaseFrom(msg: JObject, keys: seq<Json>, i: nat, base: JObject): (r: Res<JObject>)
    requires i <= |keys|
    ensures r.Ok? <==> forall k :: i <= k < |keys| ==> keys[k].JStr?
    ensures r.Ok? ==> r.value.Keys == base.Keys + KeySet(keys[i..])
    ensures r.Ok? ==> forall k :: k in r.value ==>
                        r.value[k] == if k in KeySet(keys[i..]) then CopiedValue(msg, k) else base[k]
    decreases |keys| - i
  {
    if i == |keys| then
      assert keys[i..] == [];
      Ok(base)
    else
      var key :- ArrayGetString(keys, i);
      if key.None? then Throws
      else
        KeySetCons(keys, i);
        BaseFrom(msg, keys, i + 1, base[key.value := CopiedValue(msg, key.value)])
  }

  lemma KeySetCons(keys: seq<Json>, i: nat)
    requires i < |keys| && keys[i].JStr?
    ensures KeySet(keys[i..]) == {keys[i].s} + KeySet(keys[i + 1..])
  {
    var a, b := keys[i..], keys[i + 1..];
    assert forall k :: 0 < k < |a| ==> a[k] == b[k - 1];
    forall x | x in KeySet(a) ensures x in {keys[i].s} + KeySet(b) {
      var k :| 0 <= k < |a| && a[k].JStr? && a[k].s == x;
      if k > 0 { assert b[k - 1] == a[k]; }
    }
    forall x | x in KeySet(b) ensures x in KeySet(a) {
      var k :| 0 <= k < |b| && b[k].JStr? && b[k].s == x;
      assert a[k + 1] == b[k];
    }
    assert a[0] == keys[i];
  }

  /** `base_msg`: empty when the route has no `merge_base`. */
  function MergeBase(msg: JObject, mergeBase: Option<seq<Json>>): Res<JObject> {
    match mergeBase
    case None => Ok(map[])
    case Some(keys) => BaseFrom(msg, keys, 0, map[])
  }

  /** The records mode: the array the path selects (a null one throws at
      `size()`), each element merged with the base fields. */
  function RecordsOf(finder: Option<seq<PathElement>>, mergeBase: Option<seq<Json>>, msg: JObject): Batch {
    match finder
    case None => Batch([], true)
    case Some(steps) =>
      match Resolve(steps, msg)
      case Throws => Batch([], true)
      case Ok(found) =>
        match MergeBase(msg, mergeBase)
        case Throws => Batch([], true)
        case Ok(base) =>
          match found
          case None => Batch([], true)
          case Some(items) => MergeEach(items, base, false, 0)
  }

  /** The records `store_msg` hands to `store_immediate`, by mode: flatten
      first, then records data, else the whole message. */
  function Reshape(fu: FilerUtils, msg: JObject): Batch {
    var fc := fu.config;
    if fc.flatten.Some? then Flattened(msg, fc.flatten.value)
    else if fc.recordsData.Some? then RecordsOf(fu.finder, fc.mergeBase, msg)
    else Batch([msg], false)
  }

  // ---------------------------------------------------------------------
  // Where each record goes
  // ---------------------------------------------------------------------

  /** One file `store_immediate` writes: directory, file name, record. */
  datatype Output = Output(dir: string, name: string, record: JObject)

  /** What `store_msg` dispatched, in order, and whether it then threw. */
  datatype Stored = Stored(outputs: seq<Output>, threw: bool)

  /** `build_string` of a template that may be null. */
  function Expand(template: Option<string>, record: JObject, env: Env): Res<string> {
    match template
    case None => Throws
    case Some(t) => BuildString(t, record, env)
  }

  /** The file `store_immediate` picks for a record. */
  function Locate(fc: FilerConfig, host: Host, record: JObject): (r: Res<Output>)
    ensures r.Ok? <==> Expand(fc.storePath, record, host.env).Ok? && Expand(fc.storeName, record, host.env).Ok?
    ensures r.Ok? ==> r.value.record == record &&
                      Ok(r.value.dir) == Expand(fc.storePath, record, host.env) &&
                      Ok(r.value.name) == Expand(fc.storeName, record, host.env)
  {
    var dir :- Expand(fc.storePath, record, host.env);
    var name :- Expand(fc.storeName, record, host.env);
    Ok(Output(dir, name, record))
  }

  /** `store_immediate` for each record from `i` on, given where each
      record goes, until one of them throws. */
  function Dispatch(locs: seq<Res<Output>>, i: nat): (r: Stored)
    requires i <= |locs|
    ensures i + |r.outputs| <= |locs|
    ensures forall k :: i <= k < i + |r.outputs| ==> locs[k] == Ok(r.outputs[k - i])
    ensures r.threw ==> i + |r.outputs| < |locs| && locs[i + |r.outputs|].Throws?
    ensures !r.threw ==> i + |r.outputs| == |locs|
    decreases |locs| - i
  {
    if i == |locs| then Stored([], false)
    else
      match locs[i]
      case Throws => Stored([], true)
      case Ok(out) =>
        var rest := Dispatch(locs, i + 1);
        var outputs := [out] + rest.outputs;
        assert forall j :: 0 < j < |outputs| ==> outputs[j] == rest.outputs[j - 1];
        Stored(outputs, rest.threw)
  }

  /** Where each record goes. */
  function Locations(fc: FilerConfig, host: Host, records: seq<JObject>): (r: seq<Res<Output>>)
    ensures |r| == |records| && forall k :: 0 <= k < |records| ==> r[k] == Locate(fc, host, records[k])
  {
    seq(|records|, k requires 0 <= k < |records| => Locate(fc, host, records[k]))
  }

  /** `store_msg(msg)`: the files it dispatches, in order, and whether an
      exception escapes it. */
  function StoreMsg(fu: FilerUtils, host: Host, msg: JObject): (r: Stored)
    ensures !Admits(fu.config, host, msg) ==> r == Stored([], false)
    ensures Admits(fu.config, host, msg) ==>
              var batch := Reshape(fu, msg);
              |r.outputs| <= |batch.records| &&
              (!r.threw ==> |r.outputs| == |batch.records|) &&
              (|r.outputs| == |batch.records| || Locate(fu.config, host, batch.records[|r.outputs|]).Throws?) &&
              (forall k :: 0 <= k < |r.outputs| ==>
                 r.outputs[k].record == batch.records[k] &&
                 Locate(fu.config, host, batch.records[k]) == Ok(r.outputs[k])) &&
              (r.threw <==> batch.threw ||
                            exists k :: 0 <= k < |batch.records| && Locate(fu.config, host, batch.records[k]).Throws?)
  {
    if !Admits(fu.config, host, msg) then Stored([], false)
    else
      var batch := Reshape(fu, msg);
      var locs := Locations(fu.config, host, batch.records);
      var stored := Dispatch(locs, 0);
      DispatchThrowsFrom(locs, 0);
      DispatchOutputs(locs, stored);
      Stored(stored.outputs, stored.threw || batch.threw)
  }

  /** Dispatching from record `i` throws exactly when some record from `i`
      on cannot be located. */
  lemma {:induction false} DispatchThrowsFrom(locs: seq<Res<Output>>, i: nat)
    requires i <= |locs|
    ensures Dispatch(locs, i).threw <==> exists k :: i <= k < |locs| && locs[k].Throws?
    decreases |locs| - i
  {
    if i < |locs| && locs[i].Ok? {
      DispatchThrowsFrom(locs, i + 1);
      if exists k :: i <= k < |locs| && locs[k].Throws? {
        var k :| i <= k < |locs| && locs[k].Throws?;
        assert i + 1 <= k;
      }
    }
  }

  /** The files dispatched are those of the first records, in order. */
  lemma DispatchOutputs(locs: seq<Res<Output>>, stored: Stored)
    requires stored == Dispatch(locs, 0)
    ensures forall k :: 0 <= k < |stored.outputs| ==> locs[k] == Ok(stored.outputs[k])
  {
    forall k | 0 <= k < |stored.outputs| ensures locs[k] == Ok(stored.outputs[k]) {
      assert locs[k] == Ok(stored.outputs[k - 0]);
    }
  }

  // ---------------------------------------------------------------------
  // Properties of the reshaping modes
  // ---------------------------------------------------------------------

  /** A filter that rejects the message means nothing is stored. */
  lemma GateDropsMessage(fu: FilerUtils, host: Host, msg: JObject, fs: FileSys)
    requires fu.config.sourceFilter.Some? && !host.matches(fu.config.sourceFilter.value, msg)
    ensures StoreMsg(fu, host, msg) == Stored([], false)
    ensures StoreMsgBlocking(fu, host, msg, fs) == Ok(fs)
  {
  }

  /** Without flatten or records data the whole message is stored once. */
  lemma WholeMessageStored(fu: FilerUtils, host: Host, msg: JObject, out: Output)
    requires fu.config.flatten.None? && fu.config.recordsData.None?
    requires Admits(fu.config, host, msg) && Locate(fu.config, host, msg) == Ok(out)
    ensures StoreMsg(fu, host, msg) == Stored([out], false)
  {
    var locs := Locations(fu.config, host, [msg]);
    assert locs == [Ok(out)];
    var stored := Dispatch(locs, 0);
    assert |stored.outputs| == 1;
    assert stored.outputs == [out];
  }

  /** Flatten mode emits one record per element of the array, each the
      message without the flatten field overlaid with the element: the
      element's keys win, and the other message keys are kept. */
  lemma FlattenRecords(msg: JObject, field: string, items: seq<Json>)
    requires field in msg && msg[field] == JArr(items)
    requires forall k :: 0 <= k < |items| ==> items[k].JObj?
    ensures var b := Flattened(msg, field);
            !b.threw && |b.records| == |items| &&
            forall k :: 0 <= k < |items| ==>
              (forall key :: key in items[k].fields ==> key in b.records[k] && b.records[k][key] == items[k].fields[key]) &&
              (forall key :: key in msg && key != field && key !in items[k].fields ==>
                 key in b.records[k] && b.records[k][key] == msg[key]) &&
              (forall key :: key in b.records[k] ==> key in items[k].fields || (key in msg && key != field))
  {
    assert Flattened(msg, field) == MergeEach(items, msg - {field}, true, 0);
  }

  /** Flatten mode stops at the first element that is not an object; the
      records before it are kept. */
  lemma FlattenStopsAtBadElement(msg: JObject, field: string, items: seq<Json>, j: nat)
    requires field in msg && msg[field] == JArr(items)
    requires j < |items| && !items[j].JObj?
    requires forall k :: 0 <= k < j ==> items[k].JObj?
    ensures Flattened(msg, field).threw && |Flattened(msg, field).records| == j
  {
    var b := MergeEach(items, msg - {field}, true, 0);
    assert Flattened(msg, field) == b;
    FirstNonObject(items, |b.records|, b.threw, j);
  }

  /** A loop that keeps going while the elements are objects stops at the
      first element that is not one. */
  lemma FirstNonObject(items: seq<Json>, n: nat, threw: bool, j: nat)
    requires n <= |items| && forall k :: 0 <= k < n ==> items[k].JObj?
    requires threw ==> n < |items| && !items[n].JObj?
    requires !threw ==> n == |items|
    requires j < |items| && !items[j].JObj? && forall k :: 0 <= k < j ==> items[k].JObj?
    ensures threw && n == j
  {
  }

  /** Records mode emits one record per element of the selected array,
      each the element overlaid with the merge_base fields copied from the
      message: those fields take the message's value (or null), the other
      keys of the element are kept. */
  lemma RecordsMergeBase(fu: FilerUtils, msg: JObject, items: seq<Json>, keys: seq<Json>)
    requires fu.config.flatten.None? && fu.config.recordsData.Some? && fu.finder.Some?
    requires Resolve(fu.finder.value, msg) == Ok(Some(items))
    requires fu.config.mergeBase == Some(keys) && forall k :: 0 <= k < |keys| ==> keys[k].JStr?
    requires forall k :: 0 <= k < |items| ==> items[k].JObj?
    ensures var b := Reshape(fu, msg);
            !b.threw && |b.records| == |items| &&
            forall k :: 0 <= k < |items| ==>
              (forall key :: key in KeySet(keys) ==> key in b.records[k] && b.records[k][key] == CopiedValue(msg, key)) &&
              (forall key :: key in items[k].fields && key !in KeySet(keys) ==>
                 key in b.records[k] && b.records[k][key] == items[k].fields[key]) &&
              (forall key :: key in b.records[k] ==> key in items[k].fields || key in KeySet(keys))
  {
    var base := BaseFrom(msg, keys, 0, map[]);
    assert keys[0..] == keys;
    assert MergeBase(msg, fu.config.mergeBase) == base;
    var b := MergeEach(items, base.value, false, 0);
    assert Reshape(fu, msg) == b;
    forall k | 0 <= k < |items|
      ensures (forall key :: key in KeySet(keys) ==> key in b.records[k] && b.records[k][key] == CopiedValue(msg, key)) &&
              (forall key :: key in items[k].fields && key !in KeySet(keys) ==>
                 key in b.records[k] && b.records[k][key] == items[k].fields[key]) &&
              (forall key :: key in b.records[k] ==> key in items[k].fields || key in KeySet(keys))
    {
      assert b.records[k - 0] == Overlay(base.value, items[k].fields, false);
      BaseOverlay(msg, keys, base.value, items[k].fields);
    }
  }

  /** One record of the records mode: the base fields win over the
      element's. */
  lemma BaseOverlay(msg: JObject, keys: seq<Json>, base: JObject, element: JObject)
    requires base.Keys == KeySet(keys)
    requires forall key :: key in base ==> base[key] == CopiedValue(msg, key)
    ensures var rec := Overlay(base, element, false);
            (forall key :: key in KeySet(keys) ==> key in rec && rec[key] == CopiedValue(msg, key)) &&
            (forall key :: key in element && key !in KeySet(keys) ==> key in rec && rec[key] == element[key]) &&
            (forall key :: key in rec ==> key in element || key in KeySet(keys))
  {
  }

  // ---------------------------------------------------------------------
  // The file system
  // ---------------------------------------------------------------------

  /** The directories and the files (path to content) that exist. */
  datatype FileSys = FileSys(dirs: set<string>, files: map<string, string>)

  predicate Exists(fs: FileSys, path: string) {
    path in fs.dirs || path in fs.files
  }

  function Mkdirs(fs: FileSys, dir: string): (r: FileSys)
    ensures r.files == fs.files && dir in r.dirs && fs.dirs <= r.dirs
  {
    fs.(dirs := fs.dirs + {dir})
  }

  /** Nothing but `changed` differs between the two file maps. */
  predicate OthersUnchanged(before: map<string, string>, after: map<string, string>, changed: set<string>) {
    (forall q :: q in before && q !in changed ==> q in after && after[q] == before[q]) &&
    (forall q :: q in after && q !in changed ==> q in before)
  }

  /** `overwrite_file`: delete `path.prev` (ignoring a missing one), move
      `path` to `path.prev` (ignoring a missing one), then write `path`. */
  function Overwrite(fs: FileSys, path: string, content: string): (r: FileSys)
    ensures path in r.files && r.files[path] == content
    ensures path + PREV_FILE_SUFFIX in r.files <==> path in fs.files
    ensures path in fs.files ==> r.files[path + PREV_FILE_SUFFIX] == fs.files[path]
    ensures OthersUnchanged(fs.files, r.files, {path, path + PREV_FILE_SUFFIX})
    ensures r.dirs == fs.dirs
  {
    var prev := path + PREV_FILE_SUFFIX;
    assert |prev| > |path|;
    var deleted := fs.files - {prev};
    var moved := if path in deleted then deleted[prev := deleted[path]] - {path} else deleted;
    fs.(files := moved[path := content])
  }

  /** `overwrite_fileBlocking`: write `path`, with no rotation. */
  function OverwriteBlocking(fs: FileSys, path: string, content: string): (r: FileSys)
    ensures path in r.files && r.files[path] == content
    ensures OthersUnchanged(fs.files, r.files, {path})
    ensures r.dirs == fs.dirs
  {
    fs.(files := fs.files[path := content])
  }

  /** `append_file`: the content and a line separator added at the end of
      the file, which is created when missing. */
  function Append(fs: FileSys, path: string, content: string): (r: FileSys)
    ensures path in r.files
    ensures r.files[path] == (if path in fs.files then fs.files[path] else "") + content + "\n"
    ensures OthersUnchanged(fs.files, r.files, {path})
    ensures r.dirs == fs.dirs
  {
    var existing := if path in fs.files then fs.files[path] else "";
    fs.(files := fs.files[path := existing + content + "\n"])
  }

  /** `write_file`: `config_mode.equals(FILE_WRITE)` throws on a null mode. */
  function WriteFile(fs: FileSys, content: string, path: string, mode: Option<string>): (r: Res<FileSys>)
    ensures r.Throws? <==> mode.None?
    ensures mode == Some(FILE_WRITE) ==> r == Ok(Overwrite(fs, path, content))
    ensures mode.Some? && mode.value != FILE_WRITE ==> r == Ok(Append(fs, path, content))
  {
    match mode
    case None => Throws
    case Some(m) => if m == FILE_WRITE then Ok(Overwrite(fs, path, content)) else Ok(Append(fs, path, content))
  }

  /** `write_fileBlocking`. */
  function WriteFileBlocking(fs: FileSys, content: string, path: string, mode: Option<string>): (r: Res<FileSys>)
    ensures r.Throws? <==> mode.None?
    ensures mode == Some(FILE_WRITE) ==> r == Ok(OverwriteBlocking(fs, path, content))
    ensures mode.Some? && mode.value != FILE_WRITE ==> r == Ok(Append(fs, path, content))
  {
    match mode
    case None => Throws
    case Some(m) => if m == FILE_WRITE then Ok(OverwriteBlocking(fs, path, content)) else Ok(Append(fs, path, content))
  }

  function FilePath(out: Output): string {
    out.dir + "/" + out.name
  }

  /** The net effect of one `store_immediate`: the directory is created
      when missing, then the record is written; an exception inside the
      callback only ends the callback. */
  function StoreImmediate(fs: FileSys, host: Host, mode: Option<string>, out: Output): (r: FileSys)
    ensures out.dir in r.dirs || out.dir in r.files
    ensures fs.dirs <= r.dirs
    ensures mode.None? ==> r.files == fs.files
    ensures mode == Some(FILE_WRITE) ==>
              r.files == Overwrite(fs, FilePath(out), host.render(out.record)).files
    ensures mode.Some? && mode.value != FILE_WRITE ==>
              r.files == Append(fs, FilePath(out), host.render(out.record)).files
  {
    var ready := if Exists(fs, out.dir) then fs else Mkdirs(fs, out.dir);
    match WriteFile(ready, host.render(out.record), FilePath(out), mode)
    case Ok(written) => written
    case Throws => ready
  }

  /** The dispatched writes, applied in dispatch order. */
  function ApplyAll(fs: FileSys, host: Host, mode: Option<string>, outs: seq<Output>): (r: FileSys)
    ensures mode.None? ==> r.files == fs.files
    ensures fs.dirs <= r.dirs
    decreases |outs|
  {
    if |outs| == 0 then fs
    else ApplyAll(StoreImmediate(fs, host, mode, outs[0]), host, mode, outs[1..])
  }

  /** `store_msgBlocking(msg)`: the filter gate, then the whole message
      (never flattened) written to its file. A null mode throws when the
      directory exists; when it has to be created the exception is caught
      and logged. */
  function StoreMsgBlocking(fu: FilerUtils, host: Host, msg: JObject, fs: FileSys): (r: Res<FileSys>)
    ensures !Admits(fu.config, host, msg) ==> r == Ok(fs)
    ensures Admits(fu.config, host, msg) && Locate(fu.config, host, msg).Throws? ==> r.Throws?
    ensures Admits(fu.config, host, msg) && Locate(fu.config, host, msg).Ok? ==>
              var out := Locate(fu.config, host, msg).value;
              var path := FilePath(out);
              (r.Throws? <==> fu.config.storeMode.None? && Exists(fs, out.dir)) &&
              (r.Ok? ==> OthersUnchanged(fs.files, r.value.files, {path}) &&
                         (fu.config.storeMode == Some(FILE_WRITE) ==>
                            path in r.value.files && r.value.files[path] == host.render(msg)) &&
                         (fu.config.storeMode.Some? && fu.config.storeMode.value != FILE_WRITE ==>
                            path in r.value.files && r.value.files[path] == (if path in fs.files then fs.files[path] else "") + host.render(msg) + "\n"))
  {
    if !Admits(fu.config, host, msg) then Ok(fs)
    else
      var out :- Locate(fu.config, host, msg);
      var content := host.render(msg);
      if Exists(fs, out.dir) then WriteFileBlocking(fs, content, FilePath(out), fu.config.storeMode)
      else
        var made := Mkdirs(fs, out.dir);
        match WriteFileBlocking(made, content, FilePath(out), fu.config.storeMode)
        case Ok(written) => Ok(written)
        case Throws => Ok(made)
  }

  // ---------------------------------------------------------------------
  // Properties of the file effects
  // ---------------------------------------------------------------------

  /** Two overwrites of a path leave the second content in the path and
      the first in `path.prev`. */
  lemma OverwriteTwice(fs: FileSys, path: string, first: string, second: string)
    ensures var after := Overwrite(Overwrite(fs, path, first), path, second);
            after.files[path] == second && after.files[path + PREV_FILE_SUFFIX] == first
  {
  }

  /** The content a sequence of appends adds: each message and a line
      separator. */
  function Lines(msgs: seq<string>): string {
    if |msgs| == 0 then "" else msgs[0] + "\n" + Lines(msgs[1..])
  }

  /** Appending each message in turn. */
  function AppendAll(fs: FileSys, path: string, msgs: seq<string>): FileSys
    decreases |msgs|
  {
    if |msgs| == 0 then fs else AppendAll(Append(fs, path, msgs[0]), path, msgs[1..])
  }

  /** Appends accumulate in call order after the existing content. */
  lemma {:induction false} AppendAllContent(fs: FileSys, path: string, msgs: seq<string>)
    ensures var after := AppendAll(fs, path, msgs);
            (|msgs| > 0 ==> path in after.files) &&
            (path in after.files ==>
               after.files[path] == (if path in fs.files then fs.files[path] else "") + Lines(msgs))
    decreases |msgs|
  {
    if |msgs| > 0 {
      var next := Append(fs, path, msgs[0]);
      AppendAllContent(next, path, msgs[1..]);
      var before := if path in fs.files then fs.files[path] else "";
      assert before + msgs[0] + "\n" + Lines(msgs[1..]) == before + Lines(msgs);
    }
  }

  /** The appended text, split at line separators, is the messages followed
      by the empty rest after the last separator. */
  lemma {:induction false} LinesJoin(msgs: seq<string>)
    ensures Lines(msgs) + "" == Join(msgs + [""], '\n')
    decreases |msgs|
  {
    if |msgs| > 0 {
      LinesJoin(msgs[1..]);
      assert (msgs + [""])[1..] == msgs[1..] + [""];
      JoinCons(msgs[0], msgs[1..] + [""], '\n');
      assert msgs + [""] == [msgs[0]] + (msgs[1..] + [""]);
    }
  }

  /** N appends of one-line messages to a missing file give a file of
      exactly those N lines, in call order. */
  lemma AppendLines(fs: FileSys, path: string, msgs: seq<string>)
    requires path !in fs.files && |msgs| > 0
    requires forall k :: 0 <= k < |msgs| ==> '\n' !in msgs[k]
    ensures var after := AppendAll(fs, path, msgs);
            path in after.files && SplitAll(after.files[path], '\n') == msgs + [""]
  {
    AppendAllContent(fs, path, msgs);
    LinesJoin(msgs);
    assert Lines(msgs) + "" == Lines(msgs) == "" + Lines(msgs);
    SplitAllJoin(msgs + [""], '\n');
  }

  // ---------------------------------------------------------------------
  // The net effect of the dispatched writes
  // ---------------------------------------------------------------------

  /** The rendered records written to `path`, in dispatch order. */
  function RenderedAt(host: Host, outs: seq<Output>, path: string): seq<string>
    decreases |outs|
  {
    if |outs| == 0 then []
    else (if FilePath(outs[0]) == path then [host.render(outs[0].record)] else []) + RenderedAt(host, outs[1..], path)
  }

  function Content(fs: FileSys, path: string): string {
    if path in fs.files then fs.files[path] else ""
  }

  /** In an append mode every file ends up with its old content followed by
      each record written to it and a line separator, in dispatch order;
      a file nothing is written to is unchanged. */
  lemma {:induction false} ApplyAllAppends(fs: FileSys, host: Host, mode: Option<string>, outs: seq<Output>, path: string)
    requires mode.Some? && mode.value != FILE_WRITE
    ensures var after := ApplyAll(fs, host, mode, outs);
            (path in after.files <==> path in fs.files || |RenderedAt(host, outs, path)| > 0) &&
            Content(after, path) == Content(fs, path) + Lines(RenderedAt(host, outs, path))
    decreases |outs|
  {
    if |outs| > 0 {
      var next := StoreImmediate(fs, host, mode, outs[0]);
      ApplyAllAppends(next, host, mode, outs[1..], path);
      var rest := RenderedAt(host, outs[1..], path);
      if FilePath(outs[0]) == path {
        var line := host.render(outs[0].record);
        assert ([line] + rest)[1..] == rest;
        assert Content(next, path) == Content(fs, path) + line + "\n";
      } else {
        assert path in next.files <==> path in fs.files;
        assert Content(next, path) == Content(fs, path);
        assert RenderedAt(host, outs, path) == [] + rest == rest;
      }
    }
  }

  /** In the write mode, when every record goes to the same file, the file
      ends up with the last record and `path.prev` with the one before it. */
  lemma {:induction false} ApplyAllOverwrites(fs: FileSys, host: Host, outs: seq<Output>, path: string)
    requires |outs| >= 1 && forall k :: 0 <= k < |outs| ==> FilePath(outs[k]) == path
    ensures var after := ApplyAll(fs, host, Some(FILE_WRITE), outs);
            path in after.files && after.files[path] == host.render(outs[|outs| - 1].record) &&
            (|outs| >= 2 ==> path + PREV_FILE_SUFFIX in after.files &&
                             after.files[path + PREV_FILE_SUFFIX] == host.render(outs[|outs| - 2].record))
    decreases |outs|
  {
    var next := StoreImmediate(fs, host, Some(FILE_WRITE), outs[0]);
    var tail := outs[1..];
    if |outs| >= 2 {
      assert forall k :: 0 <= k < |tail| ==> tail[k] == outs[k + 1];
      ApplyAllOverwrites(next, host, tail, path);
      if |outs| == 2 {
        assert tail[1..] == [];
      }
    }
  }

  /** Records handed on to the same file in an append mode: the file gains
      each of them and a line separator, in order. */
  lemma StoreMsgAppends(fu: FilerUtils, host: Host, msg: JObject, fs: FileSys, path: string)
    requires fu.config.storeMode.Some? && fu.config.storeMode.value != FILE_WRITE
    requires Admits(fu.config, host, msg)
    requires forall k :: 0 <= k < |Reshape(fu, msg).records| ==>
               Locate(fu.config, host, Reshape(fu, msg).records[k]).Ok? &&
               FilePath(Locate(fu.config, host, Reshape(fu, msg).records[k]).value) == path
    ensures var stored := StoreMsg(fu, host, msg);
            var records := Reshape(fu, msg).records;
            var after := ApplyAll(fs, host, fu.config.storeMode, stored.outputs);
            stored.outputs == seq(|records|, k requires 0 <= k < |records| => Locate(fu.config, host, records[k]).value) &&
            Content(after, path) ==
              Content(fs, path) + Lines(seq(|records|, k requires 0 <= k < |records| => host.render(records[k])))
  {
    var records := Reshape(fu, msg).records;
    var stored := StoreMsg(fu, host, msg);
    var outs := seq(|records|, k requires 0 <= k < |records| => Locate(fu.config, host, records[k]).value);
    assert stored.outputs == outs;
    ApplyAllAppends(fs, host, fu.config.storeMode, outs, path);
    RenderedAtAll(host, outs, path);
    assert seq(|outs|, k requires 0 <= k < |outs| => host.render(outs[k].record)) ==
           seq(|records|, k requires 0 <= k < |records| => host.render(records[k]));
  }

  /** When every write goes to `path`, all the records are rendered there. */
  lemma {:induction false} RenderedAtAll(host: Host, outs: seq<Output>, path: string)
    requires forall k :: 0 <= k < |outs| ==> FilePath(outs[k]) == path
    ensures RenderedAt(host, outs, path) == seq(|outs|, k requires 0 <= k < |outs| => host.render(outs[k].record))
    decreases |outs|
  {
    if |outs| > 0 {
      var tail := outs[1..];
      assert forall k :: 0 <= k < |tail| ==> tail[k] == outs[k + 1];
      RenderedAtAll(host, tail, path);
    }
  }
}

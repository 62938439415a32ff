/**
 The route of one message filer (`FilerConfig`): where its messages come
 from, which of them it keeps, how it reshapes them and where it stores
 them. Every entry is optional in the configuration object; a missing entry
 (or an explicit null) is a Java null here (`None`), and an entry of the
 wrong type makes the constructor throw.
 */
module FilerConfiguration {
  import opened Outcomes
  import opened Json

  datatype FilerConfig = FilerConfig(
    moduleName: Option<string>,
    moduleId: Option<string>,
    sourceAddress: Option<string>,
    /** The settings of the `FilerFilter`, when the route has one. */
    sourceFilter: Option<JObject>,
    flatten: Option<string>,
    recordsData: Option<string>,
    mergeBase: Option<seq<Json>>,
    storePath: Option<string>,
    storeName: Option<string>,
    storeMode: Option<string>)

  /** `new FilerConfig(config)`. */
  function FilerConfigOf(config: JObject): (r: Res<FilerConfig>)
    ensures r.Ok? ==> Ok(r.value.moduleName) == GetString(config, "module_name") &&
                      Ok(r.value.moduleId) == GetString(config, "module_id") &&
                      Ok(r.value.sourceAddress) == GetString(config, "source_address")
    ensures r.Ok? ==> Ok(r.value.sourceFilter) == GetObject(config, "source_filter")
    ensures r.Ok? ==> (r.value.sourceFilter.None? <==>
                         "source_filter" !in config || config["source_filter"] == JNull)
    ensures r.Ok? ==> Ok(r.value.flatten) == GetString(config, "flatten") &&
                      Ok(r.value.recordsData) == GetString(config, "records_data") &&
                      Ok(r.value.mergeBase) == GetArray(config, "merge_base")
    ensures r.Ok? ==> Ok(r.value.storePath) == GetString(config, "store_path") &&
                      Ok(r.value.storeName) == GetString(config, "store_name") &&
                      Ok(r.value.storeMode) == GetString(config, "store_mode")
    ensures r.Throws? <==>
              GetString(config, "module_name").Throws? || GetString(config, "module_id").Throws? ||
              GetString(config, "source_address").Throws? || GetObject(config, "source_filter").Throws? ||
              GetString(config, "flatten").Throws? || GetString(config, "records_data").Throws? ||
              GetArray(config, "merge_base").Throws? || GetString(config, "store_path").Throws? ||
              GetString(config, "store_name").Throws? || GetString(config, "store_mode").Throws?
  {
    var moduleName :- GetString(config, "module_name");
    var moduleId :- GetString(config, "module_id");
    var sourceAddress :- GetString(config, "source_address");
    var filter :- GetObject(config, "source_filter");
    var flatten :- GetString(config, "flatten");
    var recordsData :- GetString(config, "records_data");
    var mergeBase :- GetArray(config, "merge_base");
    var storePath :- GetString(config, "store_path");
    var storeName :- GetString(config, "store_name");
    var storeMode :- GetString(config, "store_mode");
    Ok(FilerConfig(moduleName, moduleId, sourceAddress, filter, flatten, recordsData,
                   mergeBase, storePath, storeName, storeMode))
  }

  /** A value that may be Java null, as `put` stores it. */
  function OrNull(v: Option<Json>): Json {
    match v
    case None => JNull
    case Some(j) => j
  }

  function StrOrNull(v: Option<string>): Json {
    match v
    case None => JNull
    case Some(s) => JStr(s)
  }

  /** The configuration object that describes a route, with an explicit
      null for every absent entry. */
  function ConfigJson(fc: FilerConfig): JObject {
    map[
      "module_name" := StrOrNull(fc.moduleName),
      "module_id" := StrOrNull(fc.moduleId),
      "source_address" := StrOrNull(fc.sourceAddress),
      "source_filter" := OrNull(match fc.sourceFilter case None => None case Some(f) => Some(JObj(f))),
      "flatten" := StrOrNull(fc.flatten),
      "records_data" := StrOrNull(fc.recordsData),
      "merge_base" := OrNull(match fc.mergeBase case None => None case Some(b) => Some(JArr(b))),
      "store_path" := StrOrNull(fc.storePath),
      "store_name" := StrOrNull(fc.storeName),
      "store_mode" := StrOrNull(fc.storeMode)]
  }

  /** Reading a route back from its configuration object gives the route. */
  lemma FilerConfigOfJson(fc: FilerConfig)
    ensures FilerConfigOf(ConfigJson(fc)) == Ok(fc)
  {
    var c := ConfigJson(fc);
    NameEntries(fc, c);
    ShapeEntries(fc, c);
    StoreEntries(fc, c);
  }

  lemma NameEntries(fc: FilerConfig, c: JObject)
    requires c == ConfigJson(fc)
    ensures GetString(c, "module_name") == Ok(fc.moduleName)
    ensures GetString(c, "module_id") == Ok(fc.moduleId)
    ensures GetString(c, "source_address") == Ok(fc.sourceAddress)
  {
  }

  lemma ShapeEntries(fc: FilerConfig, c: JObject)
    requires c == ConfigJson(fc)
    ensures GetObject(c, "source_filter") == Ok(fc.sourceFilter)
    ensures GetString(c, "flatten") == Ok(fc.flatten)
    ensures GetString(c, "records_data") == Ok(fc.recordsData)
    ensures GetArray(c, "merge_base") == Ok(fc.mergeBase)
  {
  }

  lemma StoreEntries(fc: FilerConfig, c: JObject)
    requires c == ConfigJson(fc)
    ensures GetString(c, "store_path") == Ok(fc.storePath)
    ensures GetString(c, "store_name") == Ok(fc.storeName)
    ensures GetString(c, "store_mode") == Ok(fc.storeMode)
  {
  }
}

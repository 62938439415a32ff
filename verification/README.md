# acp_server core, modelled in Dafny

This project models the message-handling core of the Adaptive City Platform
server (`acp_server`). It has four parts:

- **The flat XML feed parser.** `ParseFeedXMLFlat` turns a page of XML into
  `{"request_data": [record, ...]}`. Each `<tag_record>` element becomes one
  flat record. A `tag_map` entry adds a derived field, converted as its
  format says.
- **The message filer.** `FilerUtils` stores a message as one or more JSON
  files.
  - A message the route's `source_filter` rejects is dropped.
  - Otherwise the message is reshaped: `flatten` makes one record per element
    of a field's array; `records_data` makes one record per element of the
    array a `>`-separated path selects, with the `merge_base` fields copied
    in; with neither, the message is stored whole.
  - Each record is written to `store_path/store_name`. Both are templates:
    `{{field}}`, `{{field|int}}`, `{{field|yyyy}}`, `{{field|MM}}` and
    `{{field|dd}}` are filled from the record.
  - The store mode either overwrites, keeping the old content in `.prev`,
    or appends a line.
  - `FilerConfig` reads a route's settings from a configuration object.
- **The real-time monitor filter.** `Filter.test` checks a record against a
  filter: an equality test (`=`), a membership test (`in`), or a test that
  the record's position lies inside a polygon (`inside`).
- **The console status cache.** `StatusCache` keeps the latest status of
  each module, stamping `acp_ts` when a status has none.

JSON follows the Vert.x 3 `JsonObject` conventions:

- a getter of the wrong type throws `ClassCastException`;
- an explicit JSON null and a missing key both read as Java null (`None`);
- `getString(key, default)` returns the default only for a missing key.

Every exception is the `Throws` outcome of `Outcomes.Res`. Work done outside
the modelled code is passed in as function-valued parameters:

- the template environment (the zone offset, `Double.longValue`);
- `FilerFilter.match` and `JsonObject.toString`;
- `Double.parseDouble` and the ISO date-time conversions;
- reading a `Position` and `Polygon.inside`.

The file system is a map from path to content plus a set of directories.
Asynchronous writes are modelled as the list of writes `store_msg` hands on,
applied in that order.

Files:

- `outcomes.dfy`, `json.dfy`, `text.dfy`, `calendar.dfy`: outcomes, JSON
  values and getters, `indexOf`/`split`/number parsing, and the proleptic
  Gregorian calendar.
- `feed_parser.dfy`, `feed_parser_facts.dfy`, `feed_parser_round_trip.dfy`:
  the parser, and the proof that it reads back any page rendered from
  well-formed records.
- `template.dfy`, `template_facts.dfy`: `build_string`, `fill_pattern` and
  `field_to_instant`.
- `records_path.dfy`: `RecordsFinder` and `PathElement`.
- `filer_config.dfy`, `filer.dfy`: `FilerConfig`, `store_msg`,
  `store_msgBlocking` and the file-system effect of the writes.
- `rt_filter.dfy`: `Filter.test`.
- `status_cache.dfy`: `StatusCache.add` and `status`.

## Behaviour worth knowing

The model keeps these behaviours of the code, some of which a reader might
not expect:

- Filter tests can throw. `test_equals` and `test_in` throw on a non-string
  `key`, `value` or record field, and `test_in` throws on a missing
  `values`.
- Path resolution can throw. A missing object makes the next step
  dereference null, and a missing last array makes `store_msg` throw.
- Templates can throw. `{{f|int}}` throws on a string or null field, and
  `{{f|yyyy}}`, `{{f|MM}}` and `{{f|dd}}` throw on a null field or an
  unparsable string. A plain `{{f}}` throws on a non-string field; with a
  null or missing field it renders `null`.
- In the records mode, `immediate_msg.mergeIn(base_msg)` makes the
  `merge_base` values win over the element's own fields
  (`Filer.RecordsMergeBase`).
- A self-closing tag ends the scan of the record with a `break`, so the
  fields after it are not read.

## Model

| member | source | states |
|---|---|---|
| FeedParser.FormatOf | src/main/java/acp_server/feedmaker/ParseFeedXMLFlat.java:273-295 | each recognised format string selects its own conversion, in both directions; any other string copies the value |
| FeedParser.Transform | src/main/java/acp_server/feedmaker/ParseFeedXMLFlat.java:268-300 | a missing output tag or format gives the empty object; the result has at most the output tag as its key; the copy format stores the value as a string |
| FeedParser.TagMapOf | src/main/java/acp_server/feedmaker/ParseFeedXMLFlat.java:80-87 | the map's keys are exactly the non-null original tags; each maps to the transform of its last entry |
| FeedParser.FeedConfigOf | src/main/java/acp_server/feedmaker/ParseFeedXMLFlat.java:65-91 | a ClassCast on `feed_type`, `area_id` or `tag_record` throws; a null or non-array `tag_map` throws; a null `tag_record` becomes the text "null"; missing entries give `""` and an empty map |
| FeedParser.Envelope | src/main/java/acp_server/feedmaker/ParseFeedXMLFlat.java:244-246 | the result has the single key `request_data`, an array of the records in order |
| FeedParser.ScanFieldsLoop | src/main/java/acp_server/feedmaker/ParseFeedXMLFlat.java:144-234 | the inner `while` loop computes the recursive field scan |
| FeedParser.ParseLoop | src/main/java/acp_server/feedmaker/ParseFeedXMLFlat.java:94-248 | the two nested `while` loops of `parse` compute `Parse` |
| FeedParserFacts.ScanStopsAtSelfClosing | src/main/java/acp_server/feedmaker/ParseFeedXMLFlat.java:170-177 | a self-closing tag ends the record's scan with the fields found so far |
| FeedParserFacts.ScanStopsAtRecordEnd | src/main/java/acp_server/feedmaker/ParseFeedXMLFlat.java:149-153 | with no `<` before the closing record tag, the scan ends with the fields found so far |
| FeedParserRoundTrip.ParseRendered | src/main/java/acp_server/feedmaker/ParseFeedXMLFlat.java:94-248 | parsing any page rendered from well-formed records returns those records in document order, each with its fields stored in order and their conversions merged in |
| FeedParserRoundTrip.ParseNoRecord | src/main/java/acp_server/feedmaker/ParseFeedXMLFlat.java:119-126 | a page with no opening record tag parses to an empty `request_data` array |
| FeedParserRoundTrip.UnclosedStops | src/main/java/acp_server/feedmaker/ParseFeedXMLFlat.java:127-133 | a record tag that is never closed ends the outer loop; nothing more is collected |
| FeedParserRoundTrip.TransformIntRoundTrip | src/main/java/acp_server/feedmaker/ParseFeedXMLFlat.java:275-277 | the `int` format gives back every `long` written as decimal text |
| FeedParserRoundTrip.TransformIntRejects | src/main/java/acp_server/feedmaker/ParseFeedXMLFlat.java:271-298 | a value `Long.parseLong` rejects adds no property |
| FeedParserRoundTrip.StoreFieldMapped | src/main/java/acp_server/feedmaker/ParseFeedXMLFlat.java:205-218 | a mapped tag keeps its own string field; the derived property is merged over the record and wins any clash; other keys keep their values |
| FeedParserRoundTrip.FlattenKeeps | src/main/java/acp_server/feedmaker/ParseFeedXMLFlat.java:200-218 | a key that no later field names and no transform writes keeps its value |
| FeedParserRoundTrip.FlattenLastWins | src/main/java/acp_server/feedmaker/ParseFeedXMLFlat.java:200-205 | a tag repeated within a record keeps the value of its last occurrence |
| Text.ParseDecimalOfString | src/main/java/acp_server/feedmaker/ParseFeedXMLFlat.java:276 | parsing the decimal text of any in-range integer gives it back |
| Text.JavaSplitJoin | src/main/java/acp_server/msgfiler/FilerUtils.java:533 | `split` undoes joining when no piece holds the separator and the last piece is not empty |
| Template.FieldToInstant | src/main/java/acp_server/msgfiler/FilerUtils.java:369-379 | a missing field is epoch 0; a null or a non-numeric, non-string field throws; an integer is its epoch second, and throws outside the `Instant` range; a string goes through ISO parsing |
| Template.LocalDateOf | src/main/java/acp_server/msgfiler/FilerUtils.java:331-342 | the local date is valid, its day number is the local epoch day of the instant, and it exists exactly when its year is in the `LocalDate` range |
| Template.YearText | src/main/java/acp_server/msgfiler/FilerUtils.java:331-342 | the year of era is printed: years 1 to 9999 as exactly four digits of that value, year `y <= 0` as the four digits of `1 - y` (down to -9998), and a year of era above 9999 as `+` followed by its digits |
| Template.FillPattern | src/main/java/acp_server/msgfiler/FilerUtils.java:305-366 | without `|` the value is `getString` of the field; an unknown function returns the pattern itself; a successful result with `|` is never null |
| TemplateFacts.BuildStringRendered | src/main/java/acp_server/msgfiler/FilerUtils.java:264-300 | `build_string` of a template rendered from literal text and `{{...}}` spans is the text with each span filled, in order |
| TemplateFacts.BuildStringPlain | src/main/java/acp_server/msgfiler/FilerUtils.java:277-281 | a template without `{{` is copied unchanged |
| TemplateFacts.FillInt | src/main/java/acp_server/msgfiler/FilerUtils.java:322-329 | `|int` of a missing field is "0", of an integer its decimal text, and of a null it throws |
| TemplateFacts.FillDate | src/main/java/acp_server/msgfiler/FilerUtils.java:331-364 | `|yyyy`, `|MM` and `|dd` of a timestamp field give the year, month and day of its local date |
| TemplateFacts.DatedPath | src/main/java/acp_server/msgfiler/FilerUtils.java:264-366 | `{{f|yyyy}}/{{f|MM}}/{{f|dd}}` renders the local date of field `f` as a `/`-separated path |
| Calendar.FromDayNumberOfDayNumber | src/main/java/acp_server/msgfiler/FilerUtils.java:331-364 | the civil date recovered from a day number is the date that has that day number |
| RecordsPath.ParseElement | src/main/java/acp_server/msgfiler/FilerUtils.java:606-635 | a segment not ending in `]` is an array step when last and an object step otherwise; a bracketed segment is an indexed step with the parsed index; a `]` without `[` throws |
| RecordsPath.ParseFromThrows | src/main/java/acp_server/msgfiler/FilerUtils.java:533-540 | compiling throws exactly when some segment does not parse |
| RecordsPath.CompilePathText | src/main/java/acp_server/msgfiler/FilerUtils.java:529-544 | every well-formed path text compiles back to its elements |
| RecordsPath.Step | src/main/java/acp_server/msgfiler/FilerUtils.java:571-589 | a step from a null object throws; an object step keeps the current array |
| RecordsPath.ResolveLastArray | src/main/java/acp_server/msgfiler/FilerUtils.java:558-592 | the result is the array the last step selects from the object the earlier steps reach |
| RecordsPath.ResolveIndexedThenArray | src/main/java/acp_server/msgfiler/FilerUtils.java:583-589 | an indexed step descends into that element of the named array |
| RecordsPath.MissingObjectThrows | src/main/java/acp_server/msgfiler/FilerUtils.java:573-577 | a step through a missing object makes the next step throw |
| RecordsPath.ResolveEmpty | src/main/java/acp_server/msgfiler/FilerUtils.java:562-564 | with no steps, the fresh empty array is returned |
| RecordsPath.ExampleRecordsPath | src/main/java/acp_server/msgfiler/FilerUtils.java:529-592 | the path `request_data[0]>sites` selects the `sites` array of the first `request_data` element |
| FilerConfiguration.FilerConfigOf | src/main/java/acp_server/msgfiler/FilerConfig.java:36-65 | each setting is its getter's value; `source_filter` is absent exactly when missing or null; the constructor throws exactly when some getter throws |
| FilerConfiguration.FilerConfigOfJson | src/main/java/acp_server/msgfiler/FilerConfig.java:36-59 | reading a route back from the configuration object that describes it gives the same route |
| Filer.NewFilerUtils | src/main/java/acp_server/msgfiler/FilerUtils.java:63-72 | the records path is compiled only when there is one; construction throws exactly when it does not compile |
| Filer.MergeIn | src/main/java/acp_server/msgfiler/FilerUtils.java:104-110 | the keys are the union; the merged-in object's values win; the other keys keep their values |
| Filer.MergeEach | src/main/java/acp_server/msgfiler/FilerUtils.java:90-148 | one record per element, each the overlay of its element; the loop throws at the first non-object element |
| Filer.BaseFrom | src/main/java/acp_server/msgfiler/FilerUtils.java:116-148 | `base_msg` has exactly the `merge_base` keys, each with the message's value; a non-string entry throws |
| Filer.Locate | src/main/java/acp_server/msgfiler/FilerUtils.java:157-202 | a record's file is its expanded path and name; this throws exactly when an expansion throws |
| Filer.Dispatch | src/main/java/acp_server/msgfiler/FilerUtils.java:116-152 | the files handed on are those of the leading records that locate; it threw exactly at the first record that does not |
| Filer.StoreMsg | src/main/java/acp_server/msgfiler/FilerUtils.java:82-153 | a rejected message stores nothing; otherwise the reshaped records are located and handed on in order, all of them unless one fails to locate, in which case exactly those before the first failure; it throws exactly when reshaping or some location throws |
| Filer.DispatchThrowsFrom | src/main/java/acp_server/msgfiler/FilerUtils.java:82-153 | storing throws exactly when some record cannot be located |
| Filer.GateDropsMessage | src/main/java/acp_server/msgfiler/FilerUtils.java:85-88 | a filter that rejects the message means neither form of storing changes anything |
| Filer.WholeMessageStored | src/main/java/acp_server/msgfiler/FilerUtils.java:149-152 | without `flatten` or `records_data` the whole message is stored once |
| Filer.FlattenRecords | src/main/java/acp_server/msgfiler/FilerUtils.java:90-115 | flatten mode makes one record per element: the message without the field, overlaid with the element |
| Filer.FlattenStopsAtBadElement | src/main/java/acp_server/msgfiler/FilerUtils.java:90-115 | flatten mode throws at the first non-object element, after the records before it |
| Filer.RecordsMergeBase | src/main/java/acp_server/msgfiler/FilerUtils.java:116-148 | records mode makes one record per element of the selected array; the `merge_base` fields carry the message's values and the element's other fields are kept |
| Filer.Overwrite | src/main/java/acp_server/msgfiler/FilerUtils.java:421-457 | the path holds the new content, `.prev` holds the old content exactly when there was one, and no other file changes |
| Filer.OverwriteBlocking | src/main/java/acp_server/msgfiler/FilerUtils.java:462-473 | the path holds the new content and no other file changes |
| Filer.Append | src/main/java/acp_server/msgfiler/FilerUtils.java:478-500 | the path holds its old content (or nothing), then the new content and a line separator; no other file changes |
| Filer.WriteFile | src/main/java/acp_server/msgfiler/FilerUtils.java:384-398 | a null mode throws; `write` overwrites with rotation; any other mode appends |
| Filer.WriteFileBlocking | src/main/java/acp_server/msgfiler/FilerUtils.java:403-413 | a null mode throws; `write` overwrites without rotation; any other mode appends |
| Filer.StoreImmediate | src/main/java/acp_server/msgfiler/FilerUtils.java:157-202 | the directory exists afterwards; the file is overwritten or appended to as the mode says |
| Filer.ApplyAll | src/main/java/acp_server/msgfiler/FilerUtils.java:116-152 | the dispatched writes only add directories, and change no file under a null mode |
| Filer.StoreMsgBlocking | src/main/java/acp_server/msgfiler/FilerUtils.java:209-251 | a rejected message changes nothing; otherwise the whole message is written to its located file, and a failed expansion throws |
| Filer.OverwriteTwice | src/main/java/acp_server/msgfiler/FilerUtils.java:421-457 | after two overwrites the path holds the second content and `.prev` the first |
| Filer.AppendAllContent | src/main/java/acp_server/msgfiler/FilerUtils.java:478-500 | appends accumulate in call order after the existing content |
| Filer.AppendLines | src/main/java/acp_server/msgfiler/FilerUtils.java:478-500 | appending one-line messages to a missing file gives a file whose lines are the messages |
| Filer.ApplyAllAppends | src/main/java/acp_server/msgfiler/FilerUtils.java:157-202 | in an append mode each file holds its old content followed by the records written to it, one line each, in dispatch order |
| Filer.ApplyAllOverwrites | src/main/java/acp_server/msgfiler/FilerUtils.java:421-457 | when every record goes to one file in the write mode, it holds the last record and `.prev` holds the one before |
| Filer.StoreMsgAppends | src/main/java/acp_server/msgfiler/FilerUtils.java:82-153 | in an append mode, when every record goes to one path, `store_msg` hands all of them on and the file gains one line per record, in order |
| RtFilter.Test | src/main/java/acp_server/rtmonitor/Filter.java:31-58 | a missing test and `=` run the equality test, `in` the membership test and `inside` the polygon test; an unknown test name is false; a non-string test throws |
| RtFilter.TestEquals | src/main/java/acp_server/rtmonitor/Filter.java:63-88 | it passes exactly when key and value are strings and the record's field is that value; a missing key or value never passes |
| RtFilter.TestIn | src/main/java/acp_server/rtmonitor/Filter.java:146-171 | a missing key, or a record without the field, is false; a missing `values` throws; over strings and nulls it passes exactly when the field is listed |
| RtFilter.MemberFrom | src/main/java/acp_server/rtmonitor/Filter.java:163-169 | a pass means the string is listed; a throw means a non-string element; over strings and nulls it is membership |
| RtFilter.GetDouble | src/main/java/acp_server/rtmonitor/Filter.java:176-187 | a null key or a missing field throws; a number is read as a double and a string is parsed |
| RtFilter.Polygon | src/main/java/acp_server/rtmonitor/Filter.java:112-119 | one point per element, in order; it throws exactly at an unreadable point |
| RtFilter.TestInside | src/main/java/acp_server/rtmonitor/Filter.java:93-140 | a missing `points` throws; with readable keys and points it returns a result exactly when every polygon point reads; the result is whether both coordinates read and the position is inside the polygon |
| RtFilter.MissingTestIsEquals | src/main/java/acp_server/rtmonitor/Filter.java:34-38 | a filter without a test behaves as one whose test is `=` |
| RtFilter.EqualsMatches | src/main/java/acp_server/rtmonitor/Filter.java:63-88 | an equality test passes exactly the records whose field holds the value, and throws exactly on a non-string field |
| RtFilter.InMatches | src/main/java/acp_server/rtmonitor/Filter.java:146-171 | a membership test over a list of strings passes exactly the records whose field is listed |
| RtFilter.MatchBeforeBadElement | src/main/java/acp_server/rtmonitor/Filter.java:163-169 | a match before any non-string element passes |
| RtFilter.InsideKeyDefaults | src/main/java/acp_server/rtmonitor/Filter.java:108-110 | without `lat_key` and `lng_key` the position is read from `acp_lat` and `acp_lng` |
| RtFilter.UnreadablePositionIsOutside | src/main/java/acp_server/rtmonitor/Filter.java:124-133 | a position that cannot be read gives false |
| RtFilter.NullLatKeyIsOutside | src/main/java/acp_server/rtmonitor/Filter.java:108-110 | an explicit null `lat_key` does not fall back to the default, so the test is false |
| RtFilter.BadPointThrows | src/main/java/acp_server/rtmonitor/Filter.java:112-119 | an unreadable polygon point makes the test throw |
| RtFilter.NumericPositionTested | src/main/java/acp_server/rtmonitor/Filter.java:93-140 | a record with numeric coordinates is tested against the polygon |
| StatusCache.Matches | src/main/java/acp_server/console/Console.java:255-257 | for two keyed statuses it is "same module"; a pass means both are keyed and of the same module; a cached status without `module_name` throws |
| StatusCache.RemoveFrom | src/main/java/acp_server/console/Console.java:253-261 | the removal loop never grows the cache |
| StatusCache.RemoveLoop | src/main/java/acp_server/console/Console.java:253-261 | the `for` loop with its in-place removal computes `RemoveFrom` |
| StatusCache.Without | src/main/java/acp_server/console/Console.java:252-261 | the reference removal: no kept status is of the module |
| StatusCache.WithoutKeeps | src/main/java/acp_server/console/Console.java:252-261 | every kept status was in the cache |
| StatusCache.RemoveFromValid | src/main/java/acp_server/console/Console.java:253-261 | on a valid cache the loop drops exactly the statuses of the module and throws nothing |
| StatusCache.AdjacentDuplicateSurvives | src/main/java/acp_server/console/Console.java:253-261 | with two adjacent statuses of the sender, the index skip after a removal keeps the second |
| StatusCache.Stamp | src/main/java/acp_server/console/Console.java:267-272 | the stamp exists exactly when the millisecond text has at least three characters |
| StatusCache.StampFormat | src/main/java/acp_server/console/Console.java:269-272 | from 1000 ms on, the stamp is the epoch seconds, a dot and three millisecond digits |
| StatusCache.ShortStampThrows | src/main/java/acp_server/console/Console.java:270-272 | fewer than three characters of milliseconds make `add` throw |
| StatusCache.Stamped | src/main/java/acp_server/console/Console.java:263-275 | a string or null `acp_ts` is kept as is; another type throws; a missing one is stamped |
| StatusCache.Add | src/main/java/acp_server/console/Console.java:250-278 | the stamped status ends the cache, after what the removal loop kept; it throws exactly when the loop or the stamp throws |
| StatusCache.AddValid | src/main/java/acp_server/console/Console.java:250-278 | on a valid cache, `add` keeps the other modules' statuses in order, ends with the new one, and leaves the cache valid with exactly one status of the module |
| StatusCache.StatusAfterAdd | src/main/java/acp_server/console/Console.java:280-283 | `status()` after `add` ends with the stamped status |

## Left out

- Text.ParseDecimal: accepts only the ASCII digits `0`-`9`. `Long.parseLong` and `Integer.parseInt` use `Character.digit`, which accepts every Unicode decimal digit (fullwidth, Arabic-Indic and others). Which ranges count depends on the JDK's Unicode version, so they are not listed.
- FeedParser.Transform: for the same reason, the `int` format rejects a value written in non-ASCII decimal digits, although Java would parse it.
- RecordsPath.Compile: for the same reason, an index written in non-ASCII decimal digits (such as `a[١]`) throws here, although Java would parse it.
- Filer.StoreImmediate: the asynchronous `exists`, `mkdirs`, `writeFile`, `delete` and `move` calls are assumed to complete in dispatch order. In the source two records bound for the same file can race: the second record's move can run before the first record's `writeFile` completes.
- Filer.Overwrite: I/O failures of delete, move and write are not modelled. The source only logs them.
- Filer.OverwriteBlocking: I/O failures are not modelled. The source catches and logs them.
- Filer.Append: I/O failures are not modelled; the source swallows the `IOException`. The line separator is written as `"\n"`, whereas `BufferedWriter.newLine` writes the platform's separator.
- Filer.Host: `JsonObject.toString` is a parameter (`render`), so the serialised form and its field order are not modelled. JSON objects are maps, so the insertion order of their keys is not modelled either.
- Filer.RecordsOf: in the source each record is the array element itself, merged in place. The original message therefore changes as its records are stored. The model builds fresh records and leaves the message unchanged.
- StatusCache.Add: the source stamps `acp_ts` into the caller's object in place; the model returns the stamped copy. The current time is a parameter (`ms`).
- StatusCache.Stamped: the `getString("acp_ts", "42") == "42"` reference comparison is taken to be false for every stored string. A string read from a message is never the interned literal.
- Template.FieldToInstant: the zone is a fixed offset (`Env.zoneOffset`), so daylight-saving changes of the configured zone are not modelled. ISO instant parsing is a parameter.
- Filer.Admits: `FilerFilter.match` is a parameter. FilerFilter.java is not part of this model.
- RtFilter.TestInside: reading a `Position` from a point and `Polygon.inside` are parameters. Position.java and Polygon.java are not part of this model.
- RtFilter.GetDouble: `Double.parseDouble` and `Number.doubleValue` are parameters; floating-point values are opaque.
- FeedParser.Conversions: `Double.parseDouble` and the `DateTimeFormatter.ISO_DATE_TIME` conversions are parameters.
- Logging, the Vert.x event bus and verticle start-up are not modelled. They do not change the stored data.

# Honeypot log flattening and address table, in Dafny

This project models the data-preparation core of the honeypot dashboard:
`data/json_to_csv.py`. The module reads the logs of three sensors: Honeytrap
(h0neytr4p), Dionaea and Tanner. Each log is a blob of newline-separated JSON
events. The module turns each event into one flat record, and each log into one
frame (a table). It then builds the address table `ip_loc`. This table has one row
per honeypot and distinct source address, with the address's number of
appearances and its looked-up location. Finally it labels each count with a
bucket from 1 to 8, the `echelle` column.

The model keeps the source's own shape:

- Python dicts are ordered `seq<(string, V)>`.
  - An assignment to an existing key keeps the key's place.
  - A new key goes last.
  - A decoded JSON object keeps its members in text order. As a dict it has first
    position and last value (`Json.Items`).
- `json.loads` is a parameter `decode: string -> Option<Json>`. The one fact
  assumed about it is that a line made only of JSON whitespace never decodes.
- Each `flat_log` dict literal is a table of (output column, key path) entries.
  It is evaluated entry by entry, and the first subscript that raises aborts it.
- Every loop of the modelled core is a method with loop invariants:
  - the record loops: the one in `LogParser.ParseHoneyLogs`, and
    `LogParser.FlattenEvents`, which `LogParser.ParseDionaeaLogs` and
    `LogParser.ParseTannerLogs` call;
  - the Honeytrap header loop (`Records.FlattenHoney`);
  - the nested loops of `create_ip_location_df` (`Locations.CreateIpLocation`,
    `Locations.AppendHoneypotRows`).

  Each method is proved equal to a specification function. The properties are
  proved about those functions.
- The location request of `create_ip_location_df` is a parameter
  `lookup: Locator`, a `Cell -> Option<seq<string>>`.
  - `None` stands for a request whose status is not 200: no row is emitted.
  - `Some(values)` stands for the text of the page's location cells.

Modules:

| file | module | what it holds |
|---|---|---|
| wrappers.dfy | Wrappers | `Option`, `Result` |
| dicts.dfy | Dicts | ordered-dict lookup and assignment |
| json.dfy | Json | decoded values, subscripts `v[k]`, `get` |
| text.dfy | Text | `strip`, `split('\n')`, `startswith`, `replace(p, '')` |
| records.dfy | Records | the three per-event flatteners, the `trapped` mapping |
| frames.dfy | Frames | `pd.DataFrame(records)`, cells and columns |
| logparser.dfy | LogParser | `parse_honey_logs`, `parse_dionaea_logs`, `parse_tanner_logs` |
| locations.dfy | Locations | `create_ip_location_df` |
| scale.dfy | Scale | the `pd.cut` labelling |
| pipeline.dfy | Pipeline | `main` without the file I/O |

## Model

| member | source | states |
|---|---|---|
| Dicts.Lookup | data/json_to_csv.py:21-27 | `d[k]` finds a value exactly when k is a key, and the value is stored under k |
| Dicts.LastFor | data/json_to_csv.py:34-38 | the last entry for a key exists exactly when the key occurs |
| Dicts.Put | data/json_to_csv.py:40 | `flat_log[k] = v` keeps every existing key in place, leaves other entries unchanged, and appends a new key last |
| Dicts.PutHasKey | data/json_to_csv.py:40 | after `d[k] = v` the keys are exactly the old keys and k |
| Dicts.PutAllKeys | data/json_to_csv.py:39-40 | after a run of assignments the keys are exactly the old keys and the assigned ones |
| Dicts.PutLookup | data/json_to_csv.py:40 | after `d[k] = v`, reading k gives v and every other key reads as before |
| Dicts.PutDistinct | data/json_to_csv.py:40 | an assignment keeps a dict's keys distinct |
| Dicts.PutAllLookup | data/json_to_csv.py:34-40 | after a run of assignments, a key reads its last assigned value, and an unassigned key reads as before |
| Dicts.PutAllDistinct | data/json_to_csv.py:34-40 | a run of assignments keeps keys distinct |
| Dicts.PutAllKeeps | data/json_to_csv.py:20-40 | entries whose key is never reassigned stay at their place with their value |
| Dicts.LastForDistinct | data/json_to_csv.py:34-38 | in a dict, the first and the last entry of a key agree |
| Dicts.LookupAtUnique | data/json_to_csv.py:20-33 | in a dict, the entry at a position is what a lookup of its key returns |
| Dicts.LookupInit | data/json_to_csv.py:39-40 | dropping a last entry with another key does not change a lookup |
| Dicts.HasKeyInit | data/json_to_csv.py:39-40 | a key occurs in a list exactly when it occurs before the last entry or is the last entry's key |
| Json.Items | data/json_to_csv.py:36 | `log.items()` has distinct keys, and each key reads the value of its last occurrence in the JSON text |
| Json.Field | data/json_to_csv.py:21 | `v[k]` succeeds exactly when v is an object holding k; it raises KeyError for a missing key and TypeError for a value that is not an object |
| Json.Path | data/json_to_csv.py:21-27 | `log[a][b]...` can only succeed on an object: a non-empty path that resolves starts at a dict |
| Json.GetOr | data/json_to_csv.py:28 | `log.get(k, default)` gives k's value when present, otherwise the default |
| Json.SingleKeyPath | data/json_to_csv.py:21-27 | a one-key path is a single subscript |
| Json.NestedPathMissing | data/json_to_csv.py:60 | `log['connection']['protocol']` raises KeyError for `protocol` when `connection` lacks it |
| Text.SkipSpace | data/json_to_csv.py:17 | the scan for the first non-whitespace character stops on one, and passes only whitespace on its way |
| Text.TrailStart | data/json_to_csv.py:17 | the trailing whitespace run starts after the last non-whitespace character |
| Text.Strip | data/json_to_csv.py:17 | `strip()` is a middle slice between whitespace runs, neither starts nor ends with whitespace, and is empty exactly when the text is all whitespace |
| Text.Split | data/json_to_csv.py:17 | `split('\n')` gives at least one piece, no piece holds a newline, and joining the pieces with newlines gives the text back |
| Text.SplitNoNewline | data/json_to_csv.py:17 | a text without newline splits into itself |
| Text.SplitAfterPiece | data/json_to_csv.py:17 | `p + '\n' + t` splits into p followed by the pieces of t |
| Text.SplitJoin | data/json_to_csv.py:17 | split inverts join on newline-free pieces |
| Text.RemoveAll | data/json_to_csv.py:35 | `replace('header_', '')` never lengthens a key and leaves a key without `header_` unchanged |
| Text.RemoveAllLeading | data/json_to_csv.py:35 | a leading `header_` is removed and the scan resumes after it |
| Text.FindSpec | data/json_to_csv.py:35 | the leftmost-occurrence search gives an occurrence with none before it, and -1 exactly when there is none |
| Text.RemoveAllReplace | data/json_to_csv.py:35 | the scan equals the reference `replace(p, '')`: the text before the leftmost occurrence, then the same on the text after it |
| Records.FlattenFixed | data/json_to_csv.py:20-33 | a `flat_log` literal that succeeds gives one column per entry |
| Records.ResolvesTail | data/json_to_csv.py:20-33 | a literal's paths all resolve exactly when its first path does and the rest all resolve |
| Records.FlattenFixedResolves | data/json_to_csv.py:20-33 | a `flat_log` literal succeeds exactly when every key path resolves |
| Records.FlattenFixedValues | data/json_to_csv.py:20-33 | a successful literal has one column per entry, in order, each holding the value its path reaches |
| Records.ValuesCons | data/json_to_csv.py:20-33 | the first entry's column followed by the columns of the other entries lines up, position by position, with the whole literal |
| Records.FailsFirstShift | data/json_to_csv.py:20-33 | when the literal's first path resolves, the first failing path of the rest is the first failing path of the whole literal, one place on |
| Records.FlattenFixedFirstError | data/json_to_csv.py:20-33 | a failing literal reports the error of the first path that fails, all earlier paths resolving |
| Records.FlattenFixedSpec | data/json_to_csv.py:20-33 | a `flat_log` literal succeeds exactly when every key path resolves; the record then has one column per entry, in order, holding the path's value; otherwise the error is that of the first failing path |
| Records.FlattenFixedColumns | data/json_to_csv.py:20-33 | a successful literal has exactly the literal's columns in its order |
| Records.DionaeaRecord | data/json_to_csv.py:54-63 | a flattened Dionaea event has exactly the eight Dionaea columns, in literal order |
| Records.DionaeaRecordShape | data/json_to_csv.py:54-63 | a Dionaea event flattens exactly when all eight paths (three under `connection`) resolve, and the record's columns are the eight names in order |
| Records.DionaeaNames | data/json_to_csv.py:54-63 | the Dionaea literal's column names, in order |
| Records.TannerRecord | data/json_to_csv.py:75-86 | a flattened Tanner event has exactly the ten Tanner columns, in literal order |
| Records.TannerRecordShape | data/json_to_csv.py:75-86 | a Tanner event flattens exactly when all ten nested paths resolve; the columns are the ten names in order |
| Records.TannerPeer | data/json_to_csv.py:81-82 | `src_ip` and `src_port` are the sixth and seventh columns and hold `log['peer']['ip']` and `log['peer']['port']` |
| Records.TannerNames | data/json_to_csv.py:75-86 | the Tanner literal's column names, in order |
| Records.FlattenHoney | data/json_to_csv.py:19-40 | the Honeytrap literal followed by the header loop, run as the source runs it, equals the record function |
| Records.HeaderPairsLast | data/json_to_csv.py:34-38 | the header comprehension, read by name, gives the last `header_` item rewritten to that name |
| Records.HeaderForPrefix | data/json_to_csv.py:37 | only keys starting with `header_` produce header columns |
| Records.PrefixedLast | data/json_to_csv.py:39-40 | a `header_` column holds the header dict's value for its name |
| Records.PrefixedNamespace | data/json_to_csv.py:40 | the header loop writes only columns that start with `header_` |
| Records.HoneyColumnsFacts | data/json_to_csv.py:20-33 | the twelve fixed Honeytrap columns are distinct, none starts with `header_`, and they follow the literal's order |
| Records.HoneyPaths | data/json_to_csv.py:21-27 | each required Honeytrap entry is one subscript of its input key (`dst_port` reads `dest_port`) |
| Records.HoneyRecord | data/json_to_csv.py:19-40 | a Honeytrap event flattens only when it is an object, giving at least the seven required columns; any other value raises on `log['timestamp']` |
| Records.HeaderDict | data/json_to_csv.py:34-38 | the `headers` dict has distinct keys, and a name is a key exactly when some `header_` item is rewritten to it |
| Records.HoneyRecordFixed | data/json_to_csv.py:19-40 | a Honeytrap record exists exactly when the event is an object and the literal's fixed part succeeds, failing with that part's error; a non-object fails at `log['timestamp']` |
| Records.HoneyRequiredResolves | data/json_to_csv.py:20-27 | the fixed part's paths all resolve exactly when the event holds all seven required keys |
| Records.HoneyRecordSucceeds | data/json_to_csv.py:20-33 | a Honeytrap event flattens exactly when it is an object holding all seven required keys; a non-object raises on `timestamp` |
| Records.HoneyFirstMissing | data/json_to_csv.py:20-27 | an object event that fails lacks a required key, and the error names the first absent key in literal order |
| Records.HoneyBaseKeys | data/json_to_csv.py:20-33 | the fixed part of a Honeytrap record has the twelve fixed columns, distinct and outside the `header_` namespace |
| Records.PutAllSeparate | data/json_to_csv.py:39-40 | assigning only `header_` columns to a dict without any keeps the dict's entries first and unchanged, keeps keys distinct, and adds only `header_` columns |
| Records.PrefixedKeys | data/json_to_csv.py:39-40 | every assignment of the header loop targets a `header_` column |
| Records.HoneyRecordParts | data/json_to_csv.py:19-40 | a Honeytrap record is the literal's fixed part and `user_agent*` columns, then the header loop's assignments |
| Records.HoneyRecordColumns | data/json_to_csv.py:20-40 | a Honeytrap record starts with the twelve fixed columns, never overwritten, followed only by `header_` columns, with no column twice |
| Records.HoneyRecordLookup | data/json_to_csv.py:20-40 | a `header_` column of a Honeytrap record holds the last input header rewritten to it, or is absent; every other column reads from the literal |
| Records.HeaderAssignLookup | data/json_to_csv.py:34-40 | after the header loop on a dict without `header_` columns, a `header_` column holds the value of the last input item rewritten to it (none if there is none), and every other column reads as before |
| Records.HeaderDictLast | data/json_to_csv.py:34-38 | the `headers` dict gives a name the value of the last `header_` item rewritten to it, and nothing when there is none |
| Records.HoneyFixedColumn | data/json_to_csv.py:20-27 | each of the seven required columns of a Honeytrap record sits at its literal position and holds the value its key reaches |
| Records.HoneyDstPort | data/json_to_csv.py:23 | the `dst_port` column holds the input's `dest_port` value |
| Records.HoneyUserAgents | data/json_to_csv.py:28-32 | in the record, each `user_agent*` column holds its `user-agent*` value or `''` |
| Records.HeaderKeyUnchanged | data/json_to_csv.py:35-40 | `header_` followed by a name without `header_` maps back to the same column |
| Records.HeaderCollision | data/json_to_csv.py:35-40 | `header_x` and `header_header_x` both become column `header_x`, and the later item wins |
| Records.HeaderXKeys | data/json_to_csv.py:35-37 | `header_x` and `header_header_x` are both `header_` keys, and removing every `header_` from them leaves names that give column `header_x` |
| Records.HeaderNotTrapped | data/json_to_csv.py:40 | a header column is never `trapped` |
| Records.CoerceTrapped | data/json_to_csv.py:46 | `map({'true': True, 'false': False})` gives a boolean only for those two strings and NaN for every other value |
| Records.TrappedRoundTrip | data/json_to_csv.py:46 | `'true'` and `'false'` map to the boolean they spell |
| Records.TrappedOtherValues | data/json_to_csv.py:46 | other strings, a JSON boolean and a missing cell all map to NaN |
| Frames.AddColumns | data/json_to_csv.py:44 | adding a record's new keys keeps columns distinct, keeps the earlier columns first, and adds exactly the record's keys |
| Frames.Columns | data/json_to_csv.py:44 | a frame's columns are distinct, and a name is a column exactly when some record has it |
| Frames.ToFrame | data/json_to_csv.py:44 | `pd.DataFrame(records)` keeps the records as rows, in order; its columns are distinct and are exactly the keys some record has |
| Frames.MapTrapped | data/json_to_csv.py:46 | the `trapped` mapping keeps the columns and the number of rows |
| Frames.MapTrappedCell | data/json_to_csv.py:46 | the mapping changes the `trapped` cells through the coercion and no other cell |
| LogParser.MapAllSpec | data/json_to_csv.py:17-19 | a traversal succeeds exactly when every element does; it keeps order and length, and otherwise reports the first failure |
| LogParser.MapAllStep | data/json_to_csv.py:19 | one more loop iteration extends a successful prefix or fails with the element's error |
| LogParser.MapAllFailed | data/json_to_csv.py:17 | once a prefix has failed, the whole traversal fails the same way |
| LogParser.Lines | data/json_to_csv.py:17 | `logs.strip().split('\n')` gives at least one newline-free line, and the lines rejoin to the stripped blob |
| LogParser.DecodeLine | data/json_to_csv.py:17 | a line of JSON whitespace only never decodes |
| LogParser.HoneyLogs | data/json_to_csv.py:16-47 | a parsed Honeytrap log has one row per line of the stripped blob |
| LogParser.DionaeaLogs | data/json_to_csv.py:50-68 | a parsed Dionaea log has one row per line |
| LogParser.TannerLogs | data/json_to_csv.py:71-91 | a parsed Tanner log has one row per line |
| LogParser.ParseHoneyLogs | data/json_to_csv.py:16-47 | the Honeytrap parser's loops compute the Honeytrap frame specification |
| LogParser.FlattenEvents | data/json_to_csv.py:53-64 | the record loop flattens every event in order, stopping at the first failure |
| LogParser.ParseDionaeaLogs | data/json_to_csv.py:50-68 | the Dionaea parser computes the Dionaea frame specification |
| LogParser.ParseTannerLogs | data/json_to_csv.py:71-91 | the Tanner parser computes the Tanner frame specification |
| LogParser.DecodeAllSpec | data/json_to_csv.py:17 | decoding gives one event per line, in order, exactly when every line decodes; otherwise it reports the first line that does not |
| LogParser.FlattenAllSpec | data/json_to_csv.py:19-44 | the record loop gives one record per event, in order, exactly when every event flattens; otherwise it reports the first event that does not, with its error |
| LogParser.ParseRowsSpec | data/json_to_csv.py:17-44 | one record per line, in order; a log parses exactly when every line decodes and every event flattens; otherwise the first undecodable line, or else the first bad event, is reported |
| LogParser.BlankLineFails | data/json_to_csv.py:17 | a blank line inside the log makes decoding fail at or before that line |
| LogParser.BlankLogFails | data/json_to_csv.py:17 | a log of whitespace only fails on its single empty line |
| LogParser.HoneyMissingKeyFails | data/json_to_csv.py:21-27 | one Honeytrap event lacking a required key makes the whole log fail |
| LogParser.HoneyFrameShape | data/json_to_csv.py:44 | a Honeytrap frame has one row per line, and its columns are exactly the keys of its records |
| LogParser.HoneyLine | data/json_to_csv.py:17-44 | each line of a parsed Honeytrap log is an object whose record is that row |
| LogParser.HoneyHeaderCell | data/json_to_csv.py:34-46 | a `header_` cell of a Honeytrap frame holds the line's last header rewritten to it, and is NaN (not `''`) when the line has none |
| LogParser.HeaderCellOfRecord | data/json_to_csv.py:34-46 | the same, for one record of the frame |
| LogParser.HoneyTrappedCell | data/json_to_csv.py:27-46 | the `trapped` cell of a Honeytrap frame is the line's `trapped` value, coerced |
| LogParser.HoneyTrappedValue | data/json_to_csv.py:27 | before the mapping, the `trapped` column holds the input's `trapped` value |
| Locations.UniqueKeys | data/json_to_csv.py:99 | `unique()` keeps only cells of the column, and the Python values (`True` is `1`) of what it keeps are each value of the column once, in first-seen order |
| Locations.DistinctValues | data/json_to_csv.py:99 | each value once, in first-seen order: the values are distinct and are exactly the column's |
| Locations.DistinctFirstSeen | data/json_to_csv.py:99 | the distinct values come in the order of their first occurrence |
| Locations.UniqueClasses | data/json_to_csv.py:99 | no two cells `unique()` keeps are Python-equal, and every cell of the column has a Python-equal kept cell |
| Locations.UniqueFirstObject | data/json_to_csv.py:99 | the cell `unique()` keeps for a value is the first cell of the column equal to it |
| Locations.EqualPair | data/json_to_csv.py:99-100 | two Python-equal addresses are one address: `unique()` keeps the first and `len(df[df['src_ip'] == ip])` counts 2 |
| Locations.TrueIsOne | data/json_to_csv.py:99-100 | `[True, 1]` has the single unique address `True`, counted twice |
| Locations.Appearances | data/json_to_csv.py:100 | `len(df[df['src_ip'] == ip])` is at most the number of rows, and 0 for NaN or None, which equal nothing |
| Locations.FirstIndex | data/json_to_csv.py:99 | the first occurrence of a value in a column |
| Locations.UniqueFirstSeen | data/json_to_csv.py:99 | `unique()` lists its cells in the order in which their Python values first occur |
| Locations.FirstIndexPrefix | data/json_to_csv.py:99 | a value of a prefix first occurs within that prefix |
| Locations.CountPositive | data/json_to_csv.py:100 | an address present in the column is counted at least once |
| Locations.SumAppearancesGrow | data/json_to_csv.py:100 | one more row adds one to its address's count |
| Locations.CountDistinct | data/json_to_csv.py:99-100 | a value listed once among distinct values is counted once |
| Locations.CountAbsent | data/json_to_csv.py:100 | an absent address counts 0 |
| Locations.AppearancesSum | data/json_to_csv.py:99-100 | over the distinct addresses, the counts add up to the number of rows whose address is not NaN or None |
| Locations.CountKnownAll | data/json_to_csv.py:100 | in a column without NaN or None every row counts as known |
| Locations.Answered | data/json_to_csv.py:105-106 | the addresses whose lookup answers, in order |
| Locations.HoneypotRowsIps | data/json_to_csv.py:99-112 | one honeypot's rows visit exactly the addresses whose lookup answers, in `unique()` order; no row is emitted for a failed request |
| Locations.HoneypotRowsFields | data/json_to_csv.py:100-112 | each row carries the honeypot's name, the address's count and the location the lookup gave |
| Locations.HoneypotRowsTotal | data/json_to_csv.py:100-112 | when every request answers, the Appearances column sums the addresses' counts |
| Locations.HoneypotRowsUnanswered | data/json_to_csv.py:106 | a lookup that never answers emits no row for a honeypot |
| Locations.HoneypotRowsStep | data/json_to_csv.py:99-112 | one more address of `unique()` adds its row when its lookup answers, and nothing otherwise |
| Locations.IpLocationRowsStep | data/json_to_csv.py:98-112 | one more honeypot of the dict adds its group of rows after the earlier groups |
| Locations.IpLocationRows | data/json_to_csv.py:98-112 | every row of the table holds the location the request gave for its address |
| Locations.IpLocationRowsAppend | data/json_to_csv.py:98 | rows are grouped by honeypot in dict order: the table of a concatenation of dicts is the concatenation of tables |
| Locations.NoAnswersNoRows | data/json_to_csv.py:98-112 | a lookup that never answers gives an empty table |
| Locations.AllAnsweredIps | data/json_to_csv.py:99-112 | when every request answers, a honeypot's rows list each distinct address exactly once, in first-seen order |
| Locations.AllAnsweredCounts | data/json_to_csv.py:99-112 | when every request answers, every known address is counted at least once, and the counts add up to the rows with a known address |
| Locations.KnownColumnTotal | data/json_to_csv.py:99-112 | when every request answers and no address is NaN or None, a honeypot's Appearances add up to its number of rows |
| Locations.AnsweredAll | data/json_to_csv.py:106 | a lookup that always answers keeps every address |
| Locations.CreateIpLocation | data/json_to_csv.py:93-114 | the outer loop builds exactly the specified table, or stops at the first honeypot whose `unique()` raises TypeError |
| Locations.AppendHoneypotRows | data/json_to_csv.py:99-112 | the inner loop appends exactly the honeypot's specified rows to the table |
| Locations.IpLocationsSucceeds | data/json_to_csv.py:98-99 | `create_ip_location_df` returns exactly when every address is hashable, and then returns the row table |
| Locations.IpLocationsFirstUnhashable | data/json_to_csv.py:98-99 | a TypeError names the first honeypot, in dict order, holding a list or dict address |
| Locations.IpLocationsStep | data/json_to_csv.py:98-99 | one more honeypot adds its rows, or raises when its column holds a list or dict |
| Locations.IpLocationsFailed | data/json_to_csv.py:98-99 | once a honeypot has raised, the later honeypots are never reached |
| Scale.Echelle | data/json_to_csv.py:143-148 | a count gets a label exactly when it is not negative; label k means the count lies in [bound k-1, bound k), the last interval open above |
| Scale.BucketUnique | data/json_to_csv.py:145 | the intervals do not overlap |
| Scale.EchelleIsBucket | data/json_to_csv.py:143-148 | the label of a count is the bucket it lies in |
| Scale.EchelleMonotone | data/json_to_csv.py:143-148 | a larger count never gets a smaller label |
| Scale.EchelleEdges | data/json_to_csv.py:147 | left edges are inclusive: 4 gets 1; 5, 10, 50, 100, 500, 1000 and 5000 get 2 to 8; 4999 gets 7 |
| Scale.WithEchelle | data/json_to_csv.py:143-148 | every row keeps its place and gets the label of its count's bucket |
| Pipeline.SrcIpColumn | data/json_to_csv.py:44 | a log whose every record has `src_ip` gives a frame with a `src_ip` column |
| Pipeline.LocationTable | data/json_to_csv.py:116-150 | every row of `main`'s table is labelled with its count's bucket and holds the location given for its address |
| Pipeline.HoneySrcIp | data/json_to_csv.py:22 | every Honeytrap record has `src_ip` |
| Pipeline.DionaeaSrcIp | data/json_to_csv.py:56 | every Dionaea record has `src_ip` |
| Pipeline.TannerSrcIp | data/json_to_csv.py:81 | every Tanner record has `src_ip` |
| Pipeline.FramesHaveSrcIp | data/json_to_csv.py:99 | each of the three parsed frames has the `src_ip` column that `create_ip_location_df` reads |
| Pipeline.DfsHaveSrcIp | data/json_to_csv.py:133-137 | the `honeypot_dfs` dict holds only frames with a `src_ip` column |
| Pipeline.BuildLocationTable | data/json_to_csv.py:116-150 | `main` computes the specified table: parse the three logs, then build and label the address table |
| Pipeline.LocationTableGroups | data/json_to_csv.py:133-148 | the table lists the Honeytrap rows, then Dionaea's, then Tanner's, each labelled with its count's bucket |
| Pipeline.DictOrder | data/json_to_csv.py:133-137 | the dict's insertion order fixes the order of the honeypot groups |
| Pipeline.LocationTableFails | data/json_to_csv.py:116-139 | with the location request modelled as a lookup that never raises, `main` fails exactly when a log fails or an address cannot be hashed; Honeytrap's error comes first, then Dionaea's, then Tanner's |
| Pipeline.UnhashableAddressFails | data/json_to_csv.py:98-139 | with all three logs parsed and a lookup that never raises, `main` fails exactly when a frame holds a list or dict address, naming the first such honeypot |
| Pipeline.RepeatedAddress | data/json_to_csv.py:99-148 | two rows from one known address give one table row that counts 2 and gets label 1 |

Behaviour of the code that the model keeps:

- A failed location request (status not 200, data/json_to_csv.py:106) emits no
  row at all for that address.
- `pd.cut` (data/json_to_csv.py:143-148) gives no label to a negative count. The
  model's counts are never negative, so this only shows in `Scale.Echelle`.
- The `trapped` mapping (data/json_to_csv.py:46) turns every string other than
  `'true'` and `'false'` into NaN, and so does a JSON boolean `true`.
- `unique()` and `df['src_ip'] == ip` (data/json_to_csv.py:99-100) use Python
  equality: `True` equals `1` and `False` equals `0`, so they are one address,
  kept as whichever came first. NaN and None equal nothing, so they are listed
  by `unique()` but count 0. A list or dict address cannot be hashed, and
  `unique()` raises TypeError; `main` then fails (`UnhashableAddress`).

## Left out

- File reading, the CSV writes and `os.makedirs` (data/json_to_csv.py:13,
  :118-130, :140) are I/O. The log blobs are parameters, and the frames are
  returned instead of written.
- `json.loads` is a parameter. The model assumes only that a blank line does not
  decode. JSON numbers are integers (`JNum(int)`), because floating point is not
  modelled. So Python's `1.0 == 1` in `unique()` and in the count does not
  arise in the model.
- `pd.to_datetime` on `timestamp` (:45, :67, :90) is left out. The column keeps
  the decoded value. Date parsing and its failures belong to pandas and are not
  modelled.
- The HTTP request, the user-agent header and the BeautifulSoup scraping
  (:102-111) are left out. They are the `lookup` parameter, whose `Some` answer
  is the list of the page's location texts. The parameter is a total function,
  so the ways these steps abort `main` are not modelled: `requests.get` (:105)
  raising on a connection error or timeout, and `s.find_all` (:109) raising
  AttributeError when a 200 page has no matching `tbody`. The `values_list`
  loop (:110-111) is part of this left-out scraping.
- Records.CoerceTrapped gives NaN for a list or dict `trapped` value. The dict
  `map` at :46 looks each value up in a hash table, so it plausibly raises
  TypeError on such a value instead, as `unique()` does at :99; that failure of
  `parse_honey_logs` is not modelled.
- Locations.CreateIpLocation requires every answer to have exactly eight values.
  With another number, `ip_loc.loc[...] = values_list` raises. The model states
  this as a precondition rather than modelling the exception.
- Pandas column dtypes are left out: `int` versus `float` after NaN, and
  `category` for `echelle`. A cell is a JSON value or missing.
- `str.isspace` covers the ASCII and Unicode whitespace characters listed in
  `Text.IsSpace`. Other Unicode properties are not modelled.
- The unused imports (geopandas, numpy, plotly, warnings) and the dashboard that
  reads the CSV files are not part of this model.

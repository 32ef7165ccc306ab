# Watermarks and de-duplication of the CloudWatch Logs input

A Dafny model of the bookkeeping in the Logstash `cloudwatch_logs` input plugin.
This is the state that decides where each log group resumes and which events
were already delivered. It covers three parts of the repository:

- **`LogEventTracker` / `GroupEventTracker`** (`group_event_tracker.dfy`).
  - Each group keeps a window made of `@min_time`, `@max_time` and
    `@events_by_ms`, a map from millisecond timestamp to the
    `"stream:event_id"` identities recorded at it.
  - The model covers `is_new_event`, `record_processed_event`, `purge`,
    `min_time`, `get_or_set_min_time`, `update_ranges` and `set_to_tail`.
  - It covers the persisted shape (`to_save_model` / `from_save_model`) and
    the legacy `"identifier position"` loader.
  - Windows are values (`Window`). The functions on them say what each
    operation does. The `GroupEventTracker` and `LogEventTracker` classes
    hold the fields, and their methods are proved to update them exactly as
    those functions say.
- **`LastEvents` / `LastEventTracker`** (`last_event_tracker.dfy`). This is
  the older per-stream scheme keyed by `group + "." + stream`. It remembers
  the latest timestamp and the event ids seen at it. The table holds
  `LastEvents` objects that are updated in place.
- **The plugin's own flat sincedb** (`cloudwatch_logs.dfy`). This part does
  not use either tracker. It covers:
  - the `start_position` check;
  - default positions for unseen groups;
  - the per-group watermark that `process_group` / `process_log` advance to
    `timestamp + 1`;
  - the `@priority` list and the group order it induces;
  - the `"group pos"` text that `serialize_sincedb` writes and
    `_sincedb_open` reads back.

`ruby_text.dfy` gives the Ruby built-ins the persisted formats rely on:
- `String#split(" ", 2)` (awk-style splitting);
- `String#to_i`;
- `Integer#to_s`;
- `Array#join`;
- reading a file line by line with `IO#each`, which keeps each line's "\n".

`common.dfy` holds the event record and small shared definitions.

On these points the model follows the code, where a reader of the plugin's comments might expect otherwise:
- Buckets are arrays that `record_processed_event` pushes onto without
  looking for an equal entry. They are not sets.
- The legacy loader widens the group's range and then collapses it to the
  maximum. A group therefore ends at the greatest position among its lines,
  not at the position of the last line read (`LegacyLoadKeepsGreatestPosition`).
- Save followed by load gives back the buckets. The range comes back only as
  the least and greatest bucket keys. A window without buckets comes back
  empty and loses its watermark (`SaveLoadRoundTrip`,
  `TailWatermarkLostOnReload`).
- `end` stores the current time as the decimal string `strftime('%Q')`
  returns, not as an integer (`Position.MillisText`).

## Model

| member | source | states |
|---|---|---|
| GroupEventTracker.Identify | lib/logstash/inputs/group_event_tracker.rb:207-209 | The identity "stream:event_id"; `IdentifyInjective` states when it tells events apart |
| GroupEventTracker.IdentifyInjective | lib/logstash/inputs/group_event_tracker.rb:207-209 | With stream names free of ':', two events share the identity "stream:event_id" exactly when they share both stream and event id |
| GroupEventTracker.IsNew | lib/logstash/inputs/group_event_tracker.rb:157-172 | `is_new_event` on a window; its three answers are stated by `IsNewCases` |
| GroupEventTracker.MinTimeOr | lib/logstash/inputs/group_event_tracker.rb:139-145 | `min_time(default_time)`: the stored minimum, or the default when none is stored; `DefaultMinTimeSticks` states that a stored one wins over any later default |
| GroupEventTracker.IsNewCases | lib/logstash/inputs/group_event_tracker.rb:157-172 | With no minimum every event is new; below the minimum no event is new, whatever its stream and id; at or above it an event is new exactly when its identity is absent from its timestamp's bucket |
| GroupEventTracker.WithDefaultMinTime | lib/logstash/inputs/group_event_tracker.rb:147-154 | The minimum becomes the default only when unset; maximum and buckets are untouched; the window invariant is kept |
| GroupEventTracker.DefaultMinTimeSticks | lib/logstash/inputs/group_event_tracker.rb:139-154 | Once a minimum is stored, later `get_or_set_min_time` calls change nothing and `min_time` returns the stored value whatever default is passed |
| GroupEventTracker.WidenedTo | lib/logstash/inputs/group_event_tracker.rb:228-235 | The minimum becomes the lesser of the old one and the timestamp, the maximum the greater; buckets unchanged; minimum <= maximum and the window invariant are kept |
| GroupEventTracker.Recorded | lib/logstash/inputs/group_event_tracker.rb:175-184 | Afterwards the event is not new; its bucket gains exactly its identity at the end; every other bucket is unchanged; the minimum and maximum are exactly those of `WidenedTo` the timestamp, so the range never shrinks and contains it |
| GroupEventTracker.RecordKeepsOtherIdentitiesNew | lib/logstash/inputs/group_event_tracker.rb:157-184 | After a record, another identity at the same timestamp is new exactly when it was not already in that bucket |
| GroupEventTracker.RecordOnlyTouchesItsTimestamp | lib/logstash/inputs/group_event_tracker.rb:157-184 | A record leaves the answer for events at other timestamps at or above the old minimum unchanged |
| GroupEventTracker.Purged | lib/logstash/inputs/group_event_tracker.rb:186-205 | No-op when no maximum is set or the minimum is above `max - 60000*minutes`; otherwise the minimum becomes that bound and exactly the buckets below it go; the maximum never changes; no event that was not new becomes new |
| GroupEventTracker.AtTail | lib/logstash/inputs/group_event_tracker.rb:237-242 | `set_to_tail` on a window; `LoadEntriesFrom` states the pinned windows it leaves behind in the legacy loader |
| GroupEventTracker.PurgeExample | spec/inputs/group_event_tracker_spec.rb:60-97 | Events at 1, 60001 and 180002 purged with 3 minutes keep buckets 60001 and 180002, minimum 2, maximum 180002 |
| GroupEventTracker.Restored | lib/logstash/inputs/group_event_tracker.rb:219-226 | `from_save_model` on a window: the saved buckets, with the range lowered and raised over every saved timestamp; `RestoredWf` and `SaveLoadRoundTrip` state what it keeps |
| GroupEventTracker.RestoredWf | lib/logstash/inputs/group_event_tracker.rb:219-226 | Restoring saved buckets keeps every bucket inside the widened range |
| GroupEventTracker.SaveLoadRoundTrip | lib/logstash/inputs/group_event_tracker.rb:211-226 | Save then load into a fresh tracker gives the same buckets, minimum = least key, maximum = greatest key, inside the old range, and the same answer for every event at or above the least key |
| GroupEventTracker.TailWatermarkLostOnReload | lib/logstash/inputs/group_event_tracker.rb:211-242 | A window pinned by `set_to_tail` (no buckets) comes back empty, so an event below its old minimum is new again |
| GroupEventTracker.LoadedWindows | lib/logstash/inputs/group_event_tracker.rb:71-92 | The groups `load` leaves for each kind of file; `SavedTrackerReloads` states the save/load round trip and `LegacyLoadKeepsGreatestPosition` the legacy case |
| GroupEventTracker.SavedTrackerReloads | lib/logstash/inputs/group_event_tracker.rb:54-92 | Loading what `save` wrote (`LoadedWindows(Json(t.SaveModel()))`) gives back exactly the tracker's groups; each gets its buckets back, its range becomes the least and greatest bucket timestamps inside the old range, every event at or above the least one is judged as before, and a group without buckets comes back empty |
| GroupEventTracker.LegacyEntries | lib/logstash/inputs/group_event_tracker.rb:99-104 | One (group, position) entry per legacy line, in file order |
| GroupEventTracker.GroupOfIdentifier | lib/logstash/inputs/group_event_tracker.rb:101-104 | The group of a legacy identifier, the text before its first ':'; `GroupOfStreamIdentifier` states it |
| GroupEventTracker.LegacyEntry | lib/logstash/inputs/group_event_tracker.rb:100-106 | The group and position one legacy line names; `LegacyEntryOf`, `StreamEntryOf` and `GroupEntryOf` state what it reads from a written line |
| GroupEventTracker.LoadEntries | lib/logstash/inputs/group_event_tracker.rb:105-106 | Each entry in turn widens its group to the position and pins it at its tail; `LoadEntriesFrom` states the result |
| GroupEventTracker.LoadEntriesFrom | lib/logstash/inputs/group_event_tracker.rb:95-111 | Applying legacy entries leaves each group pinned (minimum = maximum, no buckets) at the greatest of its earlier maximum and its entries' positions; other groups keep theirs |
| GroupEventTracker.LegacyLoaded | lib/logstash/inputs/group_event_tracker.rb:95-111 | `load_old_format` over the file's lines; `LegacyLoadKeepsGreatestPosition` states its result |
| GroupEventTracker.LegacyLoadKeepsGreatestPosition | lib/logstash/inputs/group_event_tracker.rb:95-111 | A legacy file yields exactly the groups its lines name, each with minimum = maximum = its greatest position and no buckets |
| GroupEventTracker.LegacyEntryOf | lib/logstash/inputs/group_event_tracker.rb:101-104 | A line "identifier position" reads back as the identifier's group and the position |
| GroupEventTracker.GroupOfStreamIdentifier | lib/logstash/inputs/group_event_tracker.rb:102-104 | The group of "group:stream" is the part before the first ':' |
| GroupEventTracker.StreamEntryOf | lib/logstash/inputs/group_event_tracker.rb:101-104 | A stream-scoped legacy line reads back as its group and position |
| GroupEventTracker.GroupEntryOf | lib/logstash/inputs/group_event_tracker.rb:101-104 | A group-scoped legacy line reads back as its group and position |
| GroupEventTracker.LegacyExample | spec/inputs/group_event_tracker_spec.rb:148-177 | Loading the test's five lines ("g1:s1 1", "g1:s2 2", "g1 3", "g2 4", "g2:s1 5", for any two such group names) through `LegacyLoaded` pins the first group at 3 and the second at 5, with no buckets |
| GroupEventTracker.GroupEventTracker.constructor | lib/logstash/inputs/group_event_tracker.rb:127-137 | A new tracker has no minimum, no maximum and no buckets |
| GroupEventTracker.GroupEventTracker.MinTime | lib/logstash/inputs/group_event_tracker.rb:139-145 | `MinTimeOr` of the fields |
| GroupEventTracker.GroupEventTracker.GetOrSetMinTime | lib/logstash/inputs/group_event_tracker.rb:147-154 | Fields become `WithDefaultMinTime`; returns the stored minimum, or the default when none was stored |
| GroupEventTracker.GroupEventTracker.RecordProcessedEvent | lib/logstash/inputs/group_event_tracker.rb:175-184 | Fields become `Recorded` of the old window |
| GroupEventTracker.GroupEventTracker.IsNewEvent | lib/logstash/inputs/group_event_tracker.rb:157-172 | `IsNew` of the fields |
| GroupEventTracker.GroupEventTracker.Purge | lib/logstash/inputs/group_event_tracker.rb:186-205 | Deleting while walking a snapshot of the keys leaves the fields equal to `Purged` of the old window |
| GroupEventTracker.GroupEventTracker.FromSaveModel | lib/logstash/inputs/group_event_tracker.rb:219-226 | Whatever order the saved keys are walked in, the buckets become the saved ones and the range widens over every saved timestamp |
| GroupEventTracker.GroupEventTracker.ToSaveModel | lib/logstash/inputs/group_event_tracker.rb:211-217 | The buckets, as `save` stores them per group; `SavedTrackerReloads` states what loading them gives back |
| GroupEventTracker.GroupEventTracker.UpdateRanges | lib/logstash/inputs/group_event_tracker.rb:228-235 | Fields become `WidenedTo` of the old window |
| GroupEventTracker.GroupEventTracker.SetToTail | lib/logstash/inputs/group_event_tracker.rb:237-242 | When a maximum is set, the minimum becomes it and the buckets are cleared; otherwise nothing changes |
| GroupEventTracker.LogEventTracker.constructor | lib/logstash/inputs/group_event_tracker.rb:21-28 | No group trackers |
| GroupEventTracker.LogEventTracker.EnsureGroup | lib/logstash/inputs/group_event_tracker.rb:114-119 | A missing group gets a fresh window; an existing one is returned unchanged; no other group changes |
| GroupEventTracker.LogEventTracker.IsNewEvent | lib/logstash/inputs/group_event_tracker.rb:31-33 | The group's window decides; only the group's own entry may be created |
| GroupEventTracker.LogEventTracker.MinTime | lib/logstash/inputs/group_event_tracker.rb:46-48 | The group's minimum or the default; only the group's own entry may be created |
| GroupEventTracker.LogEventTracker.RecordProcessedEvent | lib/logstash/inputs/group_event_tracker.rb:36-38 | Only the group's window changes, to `Recorded` |
| GroupEventTracker.LogEventTracker.Purge | lib/logstash/inputs/group_event_tracker.rb:42-44 | Only the group's window changes, to `Purged` with the tracker's minutes |
| GroupEventTracker.LogEventTracker.GetOrSetMinTime | lib/logstash/inputs/group_event_tracker.rb:50-52 | Only the group's window changes, to `WithDefaultMinTime`; returns its minimum |
| GroupEventTracker.LogEventTracker.SaveModel | lib/logstash/inputs/group_event_tracker.rb:54-59 | Each group's buckets, as `save` builds them before the JSON encoding; `SavedTrackerReloads` states what loading them gives back |
| GroupEventTracker.LogEventTracker.Load | lib/logstash/inputs/group_event_tracker.rb:71-81 | JSON gives the restored windows; non-JSON text falls back to the legacy loader; a missing or unreadable file leaves no groups |
| GroupEventTracker.LogEventTracker.LoadNewFormat | lib/logstash/inputs/group_event_tracker.rb:84-92 | The table is cleared and each saved group restored into a fresh tracker |
| GroupEventTracker.LogEventTracker.LoadOldFormat | lib/logstash/inputs/group_event_tracker.rb:95-111 | The table is cleared; then, line by line, each group widens to the line's position and is set to its tail, giving `LegacyLoaded` |
| LastEventTracker.Checked | lib/logstash/inputs/last_event_tracker.rb:27-40 | Same timestamp with a known id: true, unchanged; same timestamp with a new id: false, id appended; any other timestamp: false, snapshot replaced by the timestamp and [id]; afterwards the timestamp is the argument and the id is listed; no duplicates are introduced |
| LastEventTracker.CheckIsIdempotent | lib/logstash/inputs/last_event_tracker.rb:28-31 | Checking the same event twice: the second check answers true and changes nothing |
| LastEventTracker.EarlierEventsAreForgotten | lib/logstash/inputs/last_event_tracker.rb:34-38 | Once the snapshot moved to another timestamp, an event seen at the earlier one is reported as new again |
| LastEventTracker.CheckExamples | spec/inputs/last_event_tracker_spec.rb:11-109 | The four scenarios of the tests: a single event, three at one timestamp, a duplicate, and a new timestamp |
| LastEventTracker.LastEvents.constructor | lib/logstash/inputs/last_event_tracker.rb:10-13 | Holds the given timestamp and events |
| LastEventTracker.LastEvents.CheckEventAlreadyProcessed | lib/logstash/inputs/last_event_tracker.rb:27-40 | Answer and new fields are those of `Checked` on the old fields |
| LastEventTracker.IdentifyCollides | lib/logstash/inputs/last_event_tracker.rb:120-122 | Group "a.b" with stream "c" and group "a" with stream "b.c" share a key |
| LastEventTracker.IdentifyInjective | lib/logstash/inputs/last_event_tracker.rb:120-122 | With group names free of '.', keys differ for different group/stream pairs |
| LastEventTracker.Identify | lib/logstash/inputs/last_event_tracker.rb:120-122 | The key "group.stream"; `IdentifyCollides` and `IdentifyInjective` state when keys collide |
| LastEventTracker.SnapshotOf | lib/logstash/inputs/last_event_tracker.rb:62-69 | A key's snapshot, or that of a new `LastEvents` (0, []) when the key has none |
| LastEventTracker.LoadedSnapshots | lib/logstash/inputs/last_event_tracker.rb:101-116 | The snapshots `load` leaves for each kind of file; `SavedTrackerReloads` states the save/load round trip |
| LastEventTracker.SavedTrackerReloads | lib/logstash/inputs/last_event_tracker.rb:80-116 | Loading what `save` wrote (`LoadedSnapshots(Parsed(t.SaveModel()))`) gives back every key's snapshot, so every later check answers as without the restart and `get` finds the same keys; with no file or an unreadable one every key starts over as (0, []) |
| LastEventTracker.LastEventTracker.constructor | lib/logstash/inputs/last_event_tracker.rb:52-57 | Empty table |
| LastEventTracker.LastEventTracker.CheckEventAlreadyProcessed | lib/logstash/inputs/last_event_tracker.rb:62-69 | A missing key starts as (0, []); the answer is `Checked` on the key's snapshot; every other key keeps its snapshot |
| LastEventTracker.LastEventTracker.Get | lib/logstash/inputs/last_event_tracker.rb:72-75 | Nothing exactly for a key never checked or loaded; otherwise the object holding that key's snapshot |
| LastEventTracker.LastEventTracker.SaveModel | lib/logstash/inputs/last_event_tracker.rb:80-88 | Every key's timestamp and events |
| LastEventTracker.LastEventTracker.Load | lib/logstash/inputs/last_event_tracker.rb:101-116 | The table is cleared and rebuilt with one new object per saved key, so save then load gives every key's snapshot back |
| RubyText.SplitFirstOfWordAndRest | lib/logstash/inputs/cloudwatch_logs.rb:239 | `split(" ", 2)` of a space-free word, a blank and a rest starting with a non-blank gives the word and the rest |
| RubyText.SplitFirst | lib/logstash/inputs/cloudwatch_logs.rb:239 | `String#split(" ", 2)`, awk style; `SplitFirstOfWordAndRest` states what it gives a "group pos" line |
| RubyText.IndexOf | lib/logstash/inputs/group_event_tracker.rb:102-104 | `String#index(c)`, with the length standing for nil: the first position holding `c`, with no `c` before it |
| RubyText.ToIOfIntToS | lib/logstash/inputs/cloudwatch_logs.rb:241 | `to_i` reads back any integer `to_s` wrote, whatever non-digit text follows |
| RubyText.ToI | lib/logstash/inputs/cloudwatch_logs.rb:241 | `String#to_i`: blanks, a sign and decimal digits, 0 when there are none; `ToIOfIntToS` states that it reads back what `to_s` wrote |
| RubyText.IntToS | lib/logstash/inputs/cloudwatch_logs.rb:264-266 | `Integer#to_s` as `join` writes a position: non-empty, starting with no blank, and holding no blank or "\n" |
| RubyText.LinesOfTerminated | lib/logstash/inputs/cloudwatch_logs.rb:238 | Lines each ending in "\n" and holding no other "\n" are read back one by one |
| RubyText.Lines | lib/logstash/inputs/cloudwatch_logs.rb:238 | The lines `IO#each` yields: none is empty, each keeps its "\n"; `LinesOfTerminated` states that terminated lines come back one by one |
| RubyText.JoinThenNewline | lib/logstash/inputs/cloudwatch_logs.rb:264-266 | `join("\n") + "\n"` of a non-empty list is its elements each followed by "\n" |
| RubyText.JoinWith | lib/logstash/inputs/cloudwatch_logs.rb:264-266 | `Array#join(sep)`; `JoinThenNewline` states the text it gives |
| CloudWatchLogs.LinePieces | lib/logstash/inputs/cloudwatch_logs.rb:106 | The lines the regex anchors see; a value without "\n" is one line |
| CloudWatchLogs.LineAnchoredMatch | lib/logstash/inputs/cloudwatch_logs.rb:106 | The regex match of `beginning` or `end` with line anchors: some line of the value is exactly one of them; `LineAnchorsAdmitUnresolvable` and `SingleLineChecksAgree` state what it admits |
| CloudWatchLogs.StartPositionValidityAsWritten | lib/logstash/inputs/cloudwatch_logs.rb:103-110 | The check as written: missing value refused with its own error; Integer accepted; a string accepted when one of its lines is `beginning` or `end` |
| CloudWatchLogs.CheckStartPositionValidity | lib/logstash/inputs/cloudwatch_logs.rb:103-110 | The corrected check: the missing-value error exactly for a missing value; whatever it accepts the check as written accepts too |
| CloudWatchLogs.AcceptedStartPositionResolves | lib/logstash/inputs/cloudwatch_logs.rb:165-180 | The corrected check accepts exactly what `determine_start_position` can resolve: `beginning` gives 0, `end` the current time as text, an Integer n gives now - 1000*n |
| CloudWatchLogs.SingleLineChecksAgree | lib/logstash/inputs/cloudwatch_logs.rb:106 | On a value without "\n" both checks agree |
| CloudWatchLogs.LineAnchorsAdmitUnresolvable | lib/logstash/inputs/cloudwatch_logs.rb:106 | "end\n" passes the check as written, yet no `case` branch resolves it; the corrected check refuses it |
| CloudWatchLogs.CaseOf | lib/logstash/inputs/cloudwatch_logs.rb:169-178 | The branch of `case @start_position` that can store a position; `AcceptedStartPositionResolves` and `LineAnchorsAdmitUnresolvable` state which values reach one |
| CloudWatchLogs.DefaultPosition | lib/logstash/inputs/cloudwatch_logs.rb:168-177 | The position each `case` branch stores; `AcceptedStartPositionResolves` states it for every accepted value |
| CloudWatchLogs.Put | lib/logstash/inputs/cloudwatch_logs.rb:241 | Hash assignment: the key maps to the new value and every other key keeps its value; existing keys keep their places in iteration order and a new key goes after them; a hash whose keys are listed once stays so |
| CloudWatchLogs.DefaultsAssigned | lib/logstash/inputs/cloudwatch_logs.rb:165-180 | The sincedb after `determine_start_position`; `DefaultsKeepExisting` and `DefaultsForFirstListing` state its result |
| CloudWatchLogs.DefaultsKeepExisting | lib/logstash/inputs/cloudwatch_logs.rb:165-180 | Existing entries are untouched and keep their order; afterwards exactly the old keys and the listed groups are present |
| CloudWatchLogs.DefaultsForFirstListing | lib/logstash/inputs/cloudwatch_logs.rb:165-180 | A group the sincedb lacked gets the default position for the clock reading taken when it was first listed |
| CloudWatchLogs.Logged | lib/logstash/inputs/cloudwatch_logs.rb:212-225 | `process_log`: a log whose message yields events moves the group to one past its timestamp; `WatermarkConcat` states that runs compose |
| CloudWatchLogs.PageProcessed | lib/logstash/inputs/cloudwatch_logs.rb:185-199 | One pass of the `process_group` loop; `PageProcessedSpec` states its result |
| CloudWatchLogs.GroupProcessed | lib/logstash/inputs/cloudwatch_logs.rb:183-205 | All passes of the `process_group` loop; `WatermarkIsLastEmitted` states its result |
| CloudWatchLogs.WatermarkConcat | lib/logstash/inputs/cloudwatch_logs.rb:212-225 | Processing logs in two runs leaves the same position as processing them in one |
| CloudWatchLogs.PageProcessedSpec | lib/logstash/inputs/cloudwatch_logs.rb:185-199 | One page sets a missing group to 0 and then one past the last emitted event's timestamp; no other group changes |
| CloudWatchLogs.WatermarkIsLastEmitted | lib/logstash/inputs/cloudwatch_logs.rb:183-208 | After all pages the group stands one past the last emitted event (or where it began, 0 when missing); it is added last when new; no other group changes |
| CloudWatchLogs.PriorityOf | lib/logstash/inputs/cloudwatch_logs.rb:160-162 | The result lies between -1 and the last index |
| CloudWatchLogs.PriorityOfSpec | lib/logstash/inputs/cloudwatch_logs.rb:160-162 | -1 exactly for a group not in the list; otherwise the index of its first occurrence |
| CloudWatchLogs.Removed | lib/logstash/inputs/cloudwatch_logs.rb:206 | `Array#delete`: no occurrence of the group is left; every other element keeps its count; a duplicate-free list stays so |
| CloudWatchLogs.RemovedKeepsOrder | lib/logstash/inputs/cloudwatch_logs.rb:206 | `Array#delete` keeps the other elements in order: deleting from a concatenation deletes from each part, and a single element stays exactly when it is not the deleted group |
| CloudWatchLogs.MovedToEnd | lib/logstash/inputs/cloudwatch_logs.rb:206-207 | After delete and append the group is listed exactly once, last, with a higher priority than every other group; other counts are unchanged |
| CloudWatchLogs.SortByPriority | lib/logstash/inputs/cloudwatch_logs.rb:156 | The same groups, in nondecreasing `priority_of` |
| CloudWatchLogs.RecentlyProcessedGroupSortsLast | lib/logstash/inputs/cloudwatch_logs.rb:206-207 | After the move, the group is the last one the next `find_log_groups` sort puts out |
| CloudWatchLogs.RenderLines | lib/logstash/inputs/cloudwatch_logs.rb:264-266 | One line per sincedb entry |
| CloudWatchLogs.RenderLine | lib/logstash/inputs/cloudwatch_logs.rb:265 | `[group, pos].join(" ")`; `RenderedLineReadsBack` states that it parses back |
| CloudWatchLogs.RenderedLineReadsBack | lib/logstash/inputs/cloudwatch_logs.rb:239-241 | A "group pos" line holds no "\n" and parses back to the group and position |
| CloudWatchLogs.ParseLine | lib/logstash/inputs/cloudwatch_logs.rb:239-241 | `split(" ", 2)` of a line and `to_i` of its position; `RenderedLineReadsBack` states what it reads from a rendered line |
| CloudWatchLogs.SerializeSinceDb | lib/logstash/inputs/cloudwatch_logs.rb:263-267 | `serialize_sincedb`; `SerializedLines` and `SinceDbRoundTrip` state what reading it back gives |
| CloudWatchLogs.ReadInto | lib/logstash/inputs/cloudwatch_logs.rb:234-248 | What `_sincedb_open` leaves after reading the lines; `SinceDbRoundTrip` states it for a written sincedb |
| CloudWatchLogs.SerializedLines | lib/logstash/inputs/cloudwatch_logs.rb:263-267 | The written text reads back as the rendered lines, each with its "\n" |
| CloudWatchLogs.SinceDbRoundTrip | lib/logstash/inputs/cloudwatch_logs.rb:234-267 | For a non-empty sincedb of space-free group names, reading back what was written gives every group, in order, with its position |
| CloudWatchLogs.EmptySinceDbReadsBackPhantomGroup | lib/logstash/inputs/cloudwatch_logs.rb:263-267 | An empty sincedb is written as "\n", which reads back as a group "" at 0 |
| CloudWatchLogs.CloudWatchLogsInput.constructor | lib/logstash/inputs/cloudwatch_logs.rb:57-61 | Settings stored; empty sincedb and priority |
| CloudWatchLogs.CloudWatchLogsInput.Register | lib/logstash/inputs/cloudwatch_logs.rb:57-63 | The sincedb is emptied; the corrected check's error, if any, is returned |
| CloudWatchLogs.CloudWatchLogsInput.SincedbOpen | lib/logstash/inputs/cloudwatch_logs.rb:234-248 | Each line sets its group, later lines overriding earlier ones; a missing file changes nothing |
| CloudWatchLogs.CloudWatchLogsInput.FindLogGroups | lib/logstash/inputs/cloudwatch_logs.rb:137-157 | A permutation of the configured or found groups, ordered by `priority_of`; never-processed groups come before every processed one |
| CloudWatchLogs.CloudWatchLogsInput.DetermineStartPosition | lib/logstash/inputs/cloudwatch_logs.rb:165-180 | With a start position the `case` resolves, the loop leaves the sincedb equal to `DefaultsAssigned`; with any other value, when every listed group is already present, nothing changes |
| CloudWatchLogs.CloudWatchLogsInput.ProcessLog | lib/logstash/inputs/cloudwatch_logs.rb:212-225 | Each decoded event sets the group to the log's timestamp + 1; no event leaves the sincedb unchanged |
| CloudWatchLogs.CloudWatchLogsInput.ProcessGroup | lib/logstash/inputs/cloudwatch_logs.rb:183-208 | The sincedb becomes `GroupProcessed` over the pages, and the group is moved to the end of `@priority` |

## Left out

- AWS calls are not modelled. This covers client construction, `describe_log_groups` pagination, `filter_log_events` and the throttling rescue. The groups found for the prefixes and the pages of logs are parameters instead. There is at least one page, as the loop in `process_group` always fetches one.
- The `run` loop, `stop?`, `Stud.stoppable_sleep` and the resetting of `@priority` in `run` are process lifecycle, not watermark logic.
- The codec, the event fields, `decorate` and the queue are library calls. Only how many events the codec yields for a log is kept (`Log.decoded`).
- `parse_time` is left out. It only builds a `LogStash::Timestamp`.
- The default sincedb path is environment and file-system plumbing. This covers the MD5 of the group list, `SINCEDB_DIR`/`HOME` and `mkdir_p`.
- File reads and writes, JSON text, `Errno::EACCES` handling and logging are left out. Files are given as values: a missing file, its text, its parsed JSON content, or an unreadable file. `_sincedb_write` is only its payload, `serialize_sincedb`.
- `LastEventTracker#purge_old` is private and never called. It indexes `LastEvents` objects as hashes and deletes from an undefined `@sincedb`, so it has no behaviour to state.
- `DateTime.now` is a parameter. There is one clock reading per listed group (`nows`).
- RubyText.ToI: `to_i` is modelled for leading blanks, a sign and decimal digits. Underscores between digits are not read, so `"1_000"` gives 1 where Ruby gives 1000.
- CloudWatchLogs.CloudWatchLogsInput.Register: returns the corrected check's error (see Findings). The source as written accepts any string with a line that is `beginning` or `end`, such as "end\n", and reports no error for it; `StartPositionValidityAsWritten` models that check.
- GroupEventTracker.LogEventTracker.Load: JSON documents of other shapes are not modelled. These are non-hash values, non-array buckets and keys that are not decimal integers. The model assumes keys `k.to_i` reads back as the integers that were saved.
- LastEventTracker.LastEventTracker.Load: entries without "timestamp" or "events" are not modelled.
- CloudWatchLogs.CloudWatchLogsInput.DetermineStartPosition: requires a start position the `case` can resolve, unless every listed group is already in the sincedb (then the `case` never runs). Other values reach the `else` branch. A String then raises at `Integer - String`: `"x" * 1000` is only String repetition. A Float would be stored as a Float position, for which the model has no type. Both are refused at `register` by the corrected check.
- CloudWatchLogs.StartPositionValidityAsWritten: every value other than nothing, a string or an Integer is one `OtherValue`, which both checks refuse. A Symbol, which a Logstash configuration cannot produce, would be matched by `=~` through its name in the source.
- `_sincedb_write` calls `IO.write(path, text, 0)`, which writes at offset 0 without truncating. When the new text is shorter than the file, the old file's tail stays behind and `_sincedb_open` would read it too. The model treats the written text as the whole file.
- What `filter_log_events` does with a text `start_time` (the `end` default) is outside the model. The text is kept as `MillisText`, and `serialize_sincedb` writes its digits.
- CloudWatchLogs.SortByPriority: Ruby's sort makes no promise about the order of groups with equal priority. The model uses a stable insertion sort but states only the permutation and the order by `priority_of`.
- GroupEventTracker.LogEventTracker: each group's tracker is held as the `Window` value its object would hold. Object identity, and aliasing of the tracker objects, are not captured.

## Findings

| source | as written | input that shows it | evidently intended | confidence | as-written member | corrected member |
|---|---|---|---|---|---|---|
| lib/logstash/inputs/cloudwatch_logs.rb:106 | the regex anchors `^` and `$` match at line boundaries, so a string passes when any one of its lines is `beginning` or `end` | `start_position => "end\n"` passes the check; `determine_start_position` then takes the `else` branch, where `"end\n" * 1000` is String repetition and `Integer - String` raises `TypeError` for every listed group not yet in the sincedb | accept exactly `beginning`, `end` or an Integer, as the error message says (`\A…\z`) | low, not executed (a setting rarely holds a newline) | CloudWatchLogs.StartPositionValidityAsWritten (shown by CloudWatchLogs.LineAnchorsAdmitUnresolvable) | CloudWatchLogs.CheckStartPositionValidity (proved by CloudWatchLogs.AcceptedStartPositionResolves, used by CloudWatchLogs.CloudWatchLogsInput.Register) |

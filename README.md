# Hockey video-tagging store and renderer helpers, in Dafny

The application is an Electron desktop tool a coach uses to review game video. The coach
tags events (a shot, a goal, a penalty) at the current time of the video and links each
event to the players involved. Behind it, a main-process module keeps everything in a SQLite
database. The tables are `players`, `event_types`, `videos`, `events` and
`event_player_associations`, and the module answers the renderer's IPC requests through
`ipcMain.handle` handlers. The renderer builds the screens from those answers.

This project models:

- **the store** (src/database/db.js):
  - the five tables, their rowid keys, their foreign keys with `ON DELETE CASCADE`, and the
    composite key of the associations (`Schema`);
  - the seeding of the seven built-in event types and every mutating handler, first as pure
    functions with their lemmas (`Handlers`) and then as the methods of a `Database` class
    whose five table fields they update in place, each proved to match its function (`Db`);
  - the five read handlers as views of the tables (`Queries`);
  - the packing of each event's players into one `id:name;id:name` column and the parse that
    unpacks it (`PlayerList`).
- **the renderer helpers** (src/renderer/renderer.js):
  - the keyboard-shortcut table, the key lookup and the button labels (`Shortcuts`);
  - the `MM:SS` clock (`Clock`);
  - file names and annotation labels (`Display`);
  - the grouping of a player's events into one section per video (`PlayerEventsPanel`);
  - `tagEvent`: its guards, its calls on the store in order, and how it ends (`Tagging`).
- **shared helpers**:
  - `Js` models JavaScript values and truthiness;
  - `Text` models `split`, `join`, `parseInt`, `padStart`, `toUpperCase` and lexicographic
    order;
  - `Seqs` holds the ordering and filtering helpers.

Each handler is one atomic step: the tables before, and the tables after together with the
value its promise settles with. A SQLite constraint failure is an `Err` reply that leaves the
tables unchanged. An argument bound to a NOT NULL column is an `Option`, where `None` stands
for `null`, `undefined` or `NaN`. Each table lists its rows in rowid order. A new row gets one
more than the largest rowid in its table. `ORDER BY` is modelled by a stable sort, but the
contracts promise only that the rows are ordered and are a permutation of the source rows,
because SQLite fixes no order among ties.

## Model

| member | source | states |
|---|---|---|
| Schema.EmptyIsValid | src/database/db.js:44-109 | A freshly created store (five empty tables) satisfies every key and foreign-key rule. |
| Schema.DeletePlayerCascade | src/database/db.js:99-109 | Deleting a player removes that player and exactly the associations with its id. Events, videos and event types are untouched, and the store stays consistent. |
| Schema.DeleteEventCascade | src/database/db.js:99-109 | Deleting an event removes that event and exactly its associations. The other tables are untouched, and the store stays consistent. |
| Schema.CascadeEventsLinks | src/database/db.js:85-109 | When the events of one video or one event type go, exactly their associations go with them, and every surviving association still points at a surviving event. |
| Schema.DeleteVideoCascade | src/database/db.js:73-96 | Deleting a video removes its events and, transitively, their associations, and nothing else. The store stays consistent. |
| Schema.DeleteEventTypeCascade | src/database/db.js:60-96 | Deleting an event type removes its events and their associations, and nothing else. The store stays consistent. |
| Schema.NewRowId | src/database/db.js:178-188 | The rowid given to an inserted row is positive and larger than every id already in the table. |
| Handlers.CountNonCustom | src/database/db.js:130-131 | The count of non-custom types is 0 exactly when every type is custom. |
| Handlers.SeedDefaultEventTypes | src/database/db.js:117-161 | `insertDefaultEventTypes` touches only `event_types`. It changes nothing when a non-custom type exists, and afterwards at least one does (seven when it seeded). Its rows and names are stated by `Handlers.SeedInsertsDefaults` and `Handlers.SeedNamesDefaults`. |
| Handlers.SeedInsertsDefaults | src/database/db.js:117-161 | With a non-custom type present, seeding changes nothing. Otherwise it appends seven rows behind the existing types, keeps those rows in front, touches no other table, and leaves exactly seven non-custom types. |
| Handlers.SeedNamesDefaults | src/database/db.js:119-143 | The seeded rows are Shot, Faceoff, Zone Entry, Turnover, Goal, Penalty and Save, in that order. Each has `is_custom` 0 and an id new to the table. |
| Handlers.SeedIdempotent | src/database/db.js:130-157 | A second seeding changes nothing. After seeding an empty-count table, exactly seven non-custom types exist. |
| Handlers.SeedKeepsValid | src/database/db.js:117-161 | Seeding keeps the store consistent. |
| Handlers.NonCustomAppended | src/database/db.js:139-143 | Inserting names one statement at a time behind tables without non-custom rows adds one row per name, in order, each non-custom with a fresh id. The count of non-custom rows becomes the number of names. |
| Handlers.AddPlayer | src/database/db.js:178-188 | A player with a name gets exactly one new row with an id not in the table, and that row is returned. A missing name violates NOT NULL and changes nothing. |
| Handlers.AddPlayerKeepsValid | src/database/db.js:178-188 | Adding a player keeps the store consistent. |
| Handlers.UpdatePlayerEffect | src/database/db.js:190-200 | Only the name of the row with that id changes. `changes` is 1 exactly when the id existed and 0 exactly when it did not. With 0 changes (or a rejected NULL name) the tables are unchanged, and the store stays consistent. |
| Handlers.DeletePlayerEffect | src/database/db.js:202-212 | The player and exactly its associations go. Events and the other tables are untouched. `changes` is 1 or 0 as the id existed or not, and with 0 nothing changes. |
| Handlers.CustomFlag | src/database/db.js:229-236 | The stored `is_custom` is 1 exactly when the argument is truthy, and 0 otherwise. |
| Handlers.AddEventType | src/database/db.js:227-240 | A named type gets exactly one new row with a fresh id, the given name and the 0/1 flag from the argument's truthiness, and the row is returned. A missing name changes nothing. |
| Handlers.AddEventTypeKeepsValid | src/database/db.js:227-240 | Adding an event type keeps the store consistent. |
| Handlers.FindVideo | src/database/db.js:245-250 | The lookup by path finds a row with that path, or finds nothing exactly when no row has it. |
| Handlers.AddVideoEffect | src/database/db.js:243-267 | A path already present returns that row and adds nothing. A new path adds exactly one row with a fresh id. Only `videos` can change, and the store stays consistent. |
| Handlers.AddVideoTwice | src/database/db.js:243-267 | Adding the same path twice returns the same row both times. The second call changes nothing, and the table gains at most one row. |
| Handlers.AddEventEffect | src/database/db.js:282-300 | An event is stored, with a fresh id and the given fields, exactly when its video and its type exist and the timestamp is present. A rejected insert changes nothing. |
| Handlers.AddAssociationEffect | src/database/db.js:302-319 | The pair is stored with `changes` 1 exactly when it is new and both the event and the player exist. Otherwise (primary key or foreign key) the promise rejects and the tables are unchanged. |
| Db.Database.Open | src/database/db.js:9-35 | Opening a consistent store and seeding it gives a consistent store equal to the seeded tables. |
| Db.Database.InsertEventTypes | src/database/db.js:141-143 | The statement loop appends one row per name, in order, and changes no other table. |
| Db.Database.InsertDefaultEventTypes | src/database/db.js:117-161 | The count-then-insert handler has exactly the effect of the seeding function, and keeps the store consistent. |
| Db.Database.AddPlayer | src/database/db.js:178-188 | The in-place insert matches `Handlers.AddPlayer` (new tables and reply) and keeps the store consistent. |
| Db.Database.UpdatePlayer | src/database/db.js:190-200 | The in-place update matches `Handlers.UpdatePlayer` and keeps the store consistent. |
| Db.Database.DeletePlayer | src/database/db.js:202-212 | The in-place delete and its cascade match `Handlers.DeletePlayer` and keep the store consistent. |
| Db.Database.AddEventType | src/database/db.js:227-240 | The in-place insert matches `Handlers.AddEventType` and keeps the store consistent. |
| Db.Database.AddVideo | src/database/db.js:243-267 | The insert-or-fetch matches `Handlers.AddVideo` and keeps the store consistent. |
| Db.Database.AddEvent | src/database/db.js:282-300 | The in-place insert matches `Handlers.AddEvent` and keeps the store consistent. |
| Db.Database.AddEventPlayerAssociation | src/database/db.js:302-319 | The in-place insert matches `Handlers.AddEventPlayerAssociation` and keeps the store consistent. |
| Queries.GetPlayers | src/database/db.js:166-176 | Every player row is returned once (a permutation of the table), in ascending name order. |
| Queries.GetEventTypes | src/database/db.js:215-225 | Every event-type row is returned once, in ascending name order. |
| Queries.GetVideos | src/database/db.js:269-279 | Every video row is returned once. In a consistent store no two share an id or a file path. |
| Queries.LookupVideo | src/database/db.js:327 | The join finds a video with that id, or finds none exactly when no video has it. |
| Queries.LookupEventType | src/database/db.js:328 | The join finds an event type with that id, or finds none exactly when none has it. |
| Queries.LookupPlayer | src/database/db.js:351 | The join finds a player with that id, or finds none exactly when none has it. |
| Queries.LookupPlayerFinds | src/database/db.js:351 | With unique ids, the join finds the very player with that id. |
| Queries.PlayerEventRowFor | src/database/db.js:323-331 | An event yields a row for a player exactly when they are associated and its video and type exist. The row carries the event's fields, its video's path and its type's name. |
| Queries.GetPlayerEvents | src/database/db.js:321-341 | The rows are ordered by file path and, within one path, by timestamp. |
| Queries.GetPlayerEventsOrigin | src/database/db.js:323-331 | Every returned row is the joined row of an event associated with the player. |
| Queries.GetPlayerEventsCovers | src/database/db.js:323-331 | In a consistent store every event associated with the player appears in the result. |
| Queries.GetPlayerEventsDistinct | src/database/db.js:323-331 | In a consistent store no event appears twice. |
| Queries.PlayersOfExact | src/database/db.js:347-353 | The players joined to an event are exactly the stored players associated with it, each once. |
| Queries.VideoEventRowFor | src/database/db.js:345-354 | An event yields a row for a video exactly when it belongs to the video and its type exists. The row carries the packed column of its players. |
| Queries.SelectVideoEventsOrigin | src/database/db.js:345-354 | Every row of the query is made of an event of the store. |
| Queries.GetVideoEvents | src/database/db.js:343-385 | The events of the video come back in non-decreasing timestamp order. |
| Queries.GetVideoEventsOrigin | src/database/db.js:343-385 | Every returned event is a stored event of that video, with its id, timestamp and type id. Its type name is the name of the stored type the join finds. |
| Queries.GetVideoEventsCovers | src/database/db.js:343-385 | In a consistent store every event of the video is returned. |
| Queries.GetVideoEventsDistinct | src/database/db.js:343-385 | In a consistent store no event is returned twice. |
| Queries.UnassociatedEventHasNoPlayers | src/database/db.js:364-371 | An event without associations comes back with an empty players list. |
| Queries.GetVideoEventsDirect | src/database/db.js:343-385 | The corrected view keeps the timestamp order. Each event's players are exactly the players joined to it, decoded whole. |
| Queries.GetVideoEventsListsPlayers | src/database/db.js:347-371 | While no player name holds ':' or ';', each returned event lists exactly the players associated with it, each once, with their ids and whole names. |
| Queries.VideoEventsAgree | src/database/db.js:347-371 | When no player name holds ':' or ';', the handler as written returns exactly what the corrected view returns. |
| PlayerList.GroupConcat | src/database/db.js:347 | The packed column is NULL exactly when the event has no joined player. |
| PlayerList.ParsePlayers | src/database/db.js:364-371 | The `forEach` loop builds exactly the parsed list: empty for a falsy column, one entry per piece otherwise. |
| PlayerList.ParsePack | src/database/db.js:347-371 | Round trip: unpacking the packed column gives back every joined player, in order, with its id and name, when no name holds ':' or ';'. |
| PlayerList.ColonInNameIsCut | src/database/db.js:347-371 | A name with a ':' comes back cut at its first ':' (as written). |
| PlayerList.SemicolonInNameSplits | src/database/db.js:347-371 | A name with a ';' comes back as two players: the first cut at the ';', the second with no name and whatever id `parseInt` reads after it (as written). |
| Text.SplitJoin | src/database/db.js:347-367 | Splitting on a separator what was joined with it gives back the pieces, when no piece holds the separator. |
| Text.JoinSplit | src/database/db.js:367 | Joining the pieces of a split with the same separator gives back the text. |
| Text.ParseIntOfIntToString | src/database/db.js:347-369 | `parseInt` reads back the decimal text SQLite writes for every integer id. |
| Text.SplitLast | src/renderer/renderer.js:114 | The last piece of a split is a suffix of the text, holds no separator, follows a separator unless it is the whole text, and is the whole text when there is no separator. |
| Text.PadStart | src/renderer/renderer.js:603 | `padStart` keeps the text at the end, fills only the front with the fill character, and gives the length `max(width, length)`. |
| Shortcuts.IndexOf | src/renderer/renderer.js:225 | `indexOf` gives the first position holding the key, or -1 (`None`) exactly when the key is absent. |
| Shortcuts.ShortcutKeysDistinct | src/renderer/renderer.js:78-81 | The twenty shortcut keys are distinct, one character each and already upper case. |
| Shortcuts.KeydownTarget | src/renderer/renderer.js:214-228 | A key tags an event type exactly when the video tab is active, a video is loaded, the upper-cased key is a shortcut and its position is below the number of event types. The type tagged is the one at that position. |
| Shortcuts.ShortcutLabel | src/renderer/renderer.js:392-393 | A button has a shortcut label exactly when its index is below 20. The label is the key in brackets, and looking that key up gives back the button's index. `Shortcuts.LabelledKeyTagsItsButton` shows that pressing it tags the button's type. |
| Shortcuts.ButtonTitle | src/renderer/renderer.js:392-394 | A button has a tooltip exactly when it has a shortcut label. The tooltip names the button's key and ends with the type name in parentheses. |
| Shortcuts.LabelledKeyTagsItsButton | src/renderer/renderer.js:392-395 | A button gets a `[K]` label exactly when its index is below 20. Pressing the key it shows, in either case, tags that button's event type. |
| Shortcuts.KeydownTagsStoredType | src/renderer/renderer.js:214-228 | With buttons built from the stored event types, a shortcut only ever tags a stored type. |
| Clock.MinutesSeconds | src/renderer/renderer.js:601-602 | For t >= 0 the minutes are the whole seconds divided by 60, and the seconds their remainder. |
| Clock.PaddedNumber | src/renderer/renderer.js:603 | A padded number is at least two decimal digits that read back as the number, and exactly two below 100. |
| Clock.FormatTimeReadsBack | src/renderer/renderer.js:601-603 | For t >= 0 the `MM:SS` text is the clock of the whole seconds of t, and reading it back gives those whole seconds. |
| Clock.WholeSecondsReadBack | src/renderer/renderer.js:646-648 | The clock of n whole seconds reads back as n. |
| Clock.ClockShape | src/renderer/renderer.js:789-791 | With seconds below 60 the text ends in ':' and exactly two digits standing for the seconds. |
| Clock.ClockReadsBack | src/renderer/renderer.js:603 | A clock of minutes and seconds reads back as 60 * minutes + seconds. |
| Display.FileNameIsLastSegment | src/renderer/renderer.js:114 | The file name holds no '/' or '\', ends the path, follows a separator unless it is the whole path, and is the whole path when the path has no separator. |
| Display.SelectedNames | src/renderer/renderer.js:161-168 | One name per checked id: the name of the player with that id, or '' when no player has it. |
| Display.TagLabel | src/renderer/renderer.js:170-177 | The tag-time label starts with the type name. It is the name alone exactly when the checked players' names join to nothing, and otherwise the name, ": " and the joined names. `Display.LabelsWithoutPlayers` and `Display.LabelsAgree` relate it to the reload label. |
| Display.ReloadLabel | src/renderer/renderer.js:553-563 | The reload label is always the type name, ": " and the joined names, so it is never the bare type name. `Display.LabelsWithoutPlayers` and `Display.LabelsAgree` relate it to the tag-time label. |
| Display.LabelsWithoutPlayers | src/renderer/renderer.js:170-177 | With no player, the tag-time label is the type name alone, while the reload label is the name followed by ": ". The two differ. |
| Display.LabelsAgree | src/renderer/renderer.js:553-563 | When the reloaded players are the tagged players decoded faithfully and their names do not join to nothing, the reload label equals the tag-time label. |
| PlayerEventsPanel.LoadPlayerEvents | src/renderer/renderer.js:744-800 | A falsy player id leaves the panel alone, and no rows give the empty message. Otherwise the sections, read top to bottom, hold exactly the rows' items in order. Each section is a maximal run of one video, headed by that video's file name. |
| PlayerEventsPanel.PlaceRowStep | src/renderer/renderer.js:760-780 | One turn of the grouping loop extends what was built by one row. |
| PlayerEventsPanel.PlaceRowFlatten | src/renderer/renderer.js:783-797 | Placing a row puts its item after every item placed before it. |
| PlayerEventsPanel.PlaceRowRuns | src/renderer/renderer.js:765-766 | Placing a row keeps the sections maximal runs, and the last one is of the row's video. |
| PlayerEventsPanel.PlaceRowTitled | src/renderer/renderer.js:769-776 | Placing a row keeps every heading the file name of a row of its video. |
| PlayerEventsPanel.RunsOfContiguousAreDistinct | src/renderer/renderer.js:760-780 | When each video's items are contiguous, the maximal runs give each video one section. |
| PlayerEventsPanel.PlayerEventsContiguous | src/database/db.js:321-341 | In a consistent store the player-event rows of one video are contiguous, because rows are ordered by path and paths and video ids determine each other. |
| PlayerEventsPanel.SameVideoSamePath | src/database/db.js:243-267 | In a consistent store one video id has one path. |
| PlayerEventsPanel.SamePathSameVideo | src/database/db.js:243-267 | In a consistent store one path has one video id. |
| PlayerEventsPanel.OneSectionPerVideo | src/renderer/renderer.js:744-800 | For a consistent store, the panel has exactly one section per video. |
| Tagging.AssociateEach | src/renderer/renderer.js:153-157 | The awaited loop makes at most one call per player, all of them unless one is rejected, and stops right after a rejected call. |
| Tagging.AssociateEachKeepsValid | src/renderer/renderer.js:153-157 | The association loop keeps the store consistent. |
| Tagging.AssociateEachEffect | src/renderer/renderer.js:153-157 | The loop stores, in order, the pairs of the calls that succeeded and nothing else. A rejected call is the last one made, and nothing is rolled back. |
| Tagging.AssociateEachLinksEvery | src/renderer/renderer.js:153-157 | A loop that ends without a rejection stores one pair per player, in order. |
| Tagging.AssociateEachStopsAtRejection | src/renderer/renderer.js:153-157 | A loop that ends at a rejection stores the pairs of the calls before it, and its last call is rejected on those tables. |
| Tagging.AssociateEachLinksAll | src/renderer/renderer.js:153-157 | When the event and every checked player exist, no player is checked twice and no pair is stored yet, every call succeeds. |
| Tagging.FreshEventUnlinked | src/database/db.js:99-109 | A new event id has no association in a consistent store. |
| Tagging.Tag | src/renderer/renderer.js:130-192 | No store call is made exactly when no video is loaded or the type id is NaN, and then nothing changes and the matching alert ends it. Otherwise the first call is `db-add-event` with the current video, type and time. Every later call associates the new event's id (the next rowid of `events`) with the checked players, in checkbox order. |
| Tagging.TagKeepsValid | src/renderer/renderer.js:130-192 | Tagging keeps the store consistent, whatever happens. |
| Tagging.TagStoresEventAndLinks | src/renderer/renderer.js:130-157 | With a stored video and type, existing players and none checked twice, tagging stores one new event at the current time and links it to every checked player, in order. The calls are that insert followed by one association per player. |
| Tagging.TagRejectedEvent | src/renderer/renderer.js:145 | When the video or the type is not stored, the event insert is the only call, it is rejected by a foreign key, and nothing is stored. |
| Tagging.TagStopsAtMissingPlayer | src/renderer/renderer.js:153-157 | When the first checked player no longer exists, its call is rejected and the loop stops. The new event stays stored. |
| Tagging.AnnotateLabel | src/renderer/renderer.js:159-177 | The tagging fails at the label exactly when the plugin is present and the type is not in the renderer's list. A label is produced only with the plugin. It is the type name, followed by ": " and the joined names when those are not empty. |
| Tagging.TagEvent | src/renderer/renderer.js:130-192 | Run against the `Database` object, the guards, the event insert, the association loop and the label have exactly the effect, outcome and call sequence of `Tag`. |
| Tagging.AssociatePlayers | src/renderer/renderer.js:153-157 | The awaited loop over the `Database` object makes the calls and leaves the tables that `AssociateEach` describes. |

## Left out

- The Electron main process (window lifecycle, native file dialog) and the preload bridge are not part of this model. They hold no logic of their own.
- The preload bridge also exposes `db-get-event`, `db-update-event-players` and `db-delete-event`. src/database/db.js has no handler for them, so they are not modelled as operations.
- No handler deletes videos, event types or events. Their `ON DELETE CASCADE` rules are modelled as the pure `Schema` delete functions and lemmas only.
- SQLite itself is abstracted: the file location, opening the connection, the callback and Promise plumbing, and an I/O error rejecting a promise. Only constraint failures are modelled as errors.
- Two `db-add-video` calls with the same path can overlap, because the lookup and the insert run in separate callbacks, and then both insert. The model runs each handler atomically, so its one-row-per-path invariant assumes no such overlap.
- `createTables` can resolve before its statements report, racing with `insertDefaultEventTypes`. This is not modelled: opening is one step.
- Foreign-key arguments (`videoId`, `eventTypeId`, `eventId`, `playerId`) are integers. A `null` there (which SQLite stores as NULL and a foreign key then accepts) is not modelled.
- Rows that tie under `ORDER BY` come back in some order SQLite does not fix. The model uses one stable sort, but its contracts state only order and permutation. The order of the items inside `GROUP_CONCAT` is taken to be association order.
- Text.ParseInt: reads an optional sign and decimal digits only. Leading white space, `0x` prefixes and numbers too large for a double are not modelled.
- Text.ToUpper: maps only ASCII 'a'-'z'. Unicode case mapping is not modelled.
- Clock.FormatTimeReadsBack: proved only for timestamps not below zero, which is what a video player reports. Negative input is modelled (`Math.trunc`-based `%`) but nothing is proved about it.
- Timestamps are Dafny `real`s. Floating-point rounding is not modelled.
- The DOM building, modals, tab switching, CSS, the video.js player and the annotation plugin are not part of this model. The model keeps only the plugin's presence (a flag) and the label text. The annotation's range, `meta` and `datetime` fields, and the reload of the video's events after tagging, are not modelled.
- The click handlers that call `tagEvent`, and the module-level `currentVideoId`, `players` and `eventTypes` variables, become parameters of `Tag` and `TagEvent`.

## Findings

| source | as written | input that shows it | evidently intended | confidence | as-written member | corrected member |
|---|---|---|---|---|---|---|
| src/database/db.js:347, 364-371 | `db-get-video-events` packs each event's players as `GROUP_CONCAT(p.id \|\| ':' \|\| p.name, ';')` and unpacks them with `split(';')` and then `split(':')`, keeping two fields | a player named `A;7` linked to an event comes back as two players, `{id, name: "A"}` and `{id: 7, name: undefined}`; a player named `a:b` comes back as `a` | every associated player comes back once, with its whole name | not executed | `Queries.GetVideoEvents`, with `PlayerList.SemicolonInNameSplits` and `PlayerList.ColonInNameIsCut` | `Queries.GetVideoEventsDirect`, with `Queries.VideoEventsAgree` and `Queries.PlayersOfExact` |

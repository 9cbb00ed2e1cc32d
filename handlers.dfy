/** What each state-changing handler of src/database/db.js does to the tables, as one atomic
    step: `insertDefaultEventTypes` and the `ipcMain.handle` bodies for adding, renaming and
    deleting players, adding event types, videos, events and event-player associations. */
module Handlers {
  import opened Js
  import opened Seqs
  import opened Schema

  /** Why SQLite rejects a statement; the handler rejects its promise with it. */
  datatype DbError =
    | NotNullFailed(column: string)  // NOT NULL constraint failed
    | ForeignKeyFailed               // FOREIGN KEY constraint failed (foreign_keys = ON)
    | PrimaryKeyFailed               // UNIQUE constraint failed on (event_id, player_id)

  datatype Result<T> = Ok(value: T) | Err(error: DbError)

  /** One handler call: the tables afterwards and what the promise settles with. */
  datatype Step<R> = Step(tables: Tables, reply: R)

  /** `{id, name, changes}` from `db-update-player`; `name` is echoed as it was passed. */
  datatype UpdateReply = UpdateReply(id: int, name: Option<string>, changes: int)

  /** `{id, changes}` from `db-delete-player`. */
  datatype DeleteReply = DeleteReply(id: int, changes: int)

  /** `{event_id, player_id, changes}` from `db-add-event-player-association`. */
  datatype AssociationReply = AssociationReply(eventId: int, playerId: int, changes: int)

  /** The seven built-in event types, in the order `insertDefaultEventTypes` inserts them. */
  const DefaultEventTypeNames: seq<string> :=
    ["Shot", "Faceoff", "Zone Entry", "Turnover", "Goal", "Penalty", "Save"]

  /** `SELECT COUNT(*) FROM event_types WHERE is_custom = 0` */
  function CountNonCustom(types: seq<EventType>): (n: nat)
    ensures n <= |types|
    ensures n == 0 <==> forall et :: et in types ==> et.isCustom != 0
  {
    if types == [] then 0
    else
      assert forall et :: et in types <==> et == types[0] || et in types[1..];
      (if types[0].isCustom == 0 then 1 else 0) + CountNonCustom(types[1..])
  }

  lemma {:induction false} CountNonCustomAppend(a: seq<EventType>, b: seq<EventType>)
    ensures CountNonCustom(a + b) == CountNonCustom(a) + CountNonCustom(b)
  {
    if a != [] {
      assert (a + b)[0] == a[0] && (a + b)[1..] == a[1..] + b;
      CountNonCustomAppend(a[1..], b);
    } else {
      assert a + b == b;
    }
  }

  /** The rows that running `INSERT INTO event_types (name, is_custom) VALUES (?, ?)` once per
      name, in order, appends: each gets the next rowid. */
  function AppendEventTypes(types: seq<EventType>, names: seq<string>, isCustom: int): seq<EventType>
    decreases |names|
  {
    if names == [] then types
    else
      var row := EventType(NewRowId(types, EventTypeId), names[0], isCustom);
      AppendEventTypes(types + [row], names[1..], isCustom)
  }

  /** Appending keeps the earlier rows in front and adds one row per name. */
  lemma {:induction false} AppendEventTypesPrefix(types: seq<EventType>, names: seq<string>, isCustom: int)
    ensures var r := AppendEventTypes(types, names, isCustom);
      |r| == |types| + |names| && r[..|types|] == types
    decreases |names|
  {
    if names != [] {
      var next := types + [EventType(NewRowId(types, EventTypeId), names[0], isCustom)];
      AppendEventTypesPrefix(next, names[1..], isCustom);
      var r := AppendEventTypes(next, names[1..], isCustom);
      assert r[..|types|] == r[..|next|][..|types|];
    }
  }

  /** The appended rows carry the names in order and the given flag. */
  lemma {:induction false} AppendEventTypesNames(types: seq<EventType>, names: seq<string>, isCustom: int)
    ensures var r := AppendEventTypes(types, names, isCustom);
      |r| == |types| + |names| &&
      forall i :: |types| <= i < |r| ==> r[i].name == names[i - |types|] && r[i].isCustom == isCustom
    decreases |names|
  {
    AppendEventTypesPrefix(types, names, isCustom);
    if names != [] {
      var next := types + [EventType(NewRowId(types, EventTypeId), names[0], isCustom)];
      AppendEventTypesNames(next, names[1..], isCustom);
      AppendEventTypesPrefix(next, names[1..], isCustom);
      var r := AppendEventTypes(next, names[1..], isCustom);
      assert r[|types|] == r[..|next|][|types|];
    }
  }

  /** Every appended row has an id above every earlier row's, and ids keep ascending. */
  lemma {:induction false} AppendEventTypesIds(types: seq<EventType>, names: seq<string>, isCustom: int)
    ensures var r := AppendEventTypes(types, names, isCustom);
      && (forall x, y :: x in types && y in r && y !in types ==> x.id < y.id)
      && (forall x :: x in types ==> x in r)
      && (Pairwise(types, EventTypeIdBefore) ==> Pairwise(r, EventTypeIdBefore))
    decreases |names|
  {
    if names != [] {
      var row := EventType(NewRowId(types, EventTypeId), names[0], isCustom);
      var next := types + [row];
      AppendEventTypesIds(next, names[1..], isCustom);
      if Pairwise(types, EventTypeIdBefore) {
        AppendKeepsPairwise(types, row, EventTypeIdBefore);
      }
    }
  }

  /** `insertDefaultEventTypes`: when no non-custom type exists, insert the seven defaults in
      order with `is_custom = 0`; otherwise leave the store alone. */
  function SeedDefaultEventTypes(t: Tables): (r: Tables)
    ensures r == t.(eventTypes := r.eventTypes)
    ensures CountNonCustom(t.eventTypes) != 0 ==> r == t
    ensures CountNonCustom(r.eventTypes) == if CountNonCustom(t.eventTypes) == 0 then 7 else CountNonCustom(t.eventTypes)
  {
    if CountNonCustom(t.eventTypes) == 0 then
      CountNonCustomGrows(t.eventTypes, DefaultEventTypeNames);
      t.(eventTypes := AppendEventTypes(t.eventTypes, DefaultEventTypeNames, 0))
    else t
  }

  /** Non-custom rows appended behind types none of which is non-custom: the names in order,
      each with an id none of the earlier rows has, and all of them counted. */
  lemma {:induction false} NonCustomAppended(types: seq<EventType>, names: seq<string>)
    requires CountNonCustom(types) == 0
    ensures |AppendEventTypes(types, names, 0)| == |types| + |names|
    ensures AppendEventTypes(types, names, 0)[..|types|] == types
    ensures forall i :: |types| <= i < |AppendEventTypes(types, names, 0)| ==>
      && AppendEventTypes(types, names, 0)[i].name == names[i - |types|]
      && AppendEventTypes(types, names, 0)[i].isCustom == 0
      && AppendEventTypes(types, names, 0)[i].id !in EventTypeIds(types)
    ensures CountNonCustom(AppendEventTypes(types, names, 0)) == |names|
  {
    var r := AppendEventTypes(types, names, 0);
    assert |r| == |types| + |names| && r[..|types|] == types by {
      AppendEventTypesPrefix(types, names, 0);
    }
    assert forall i :: |types| <= i < |r| ==> r[i].name == names[i - |types|] && r[i].isCustom == 0 by {
      AppendEventTypesNames(types, names, 0);
    }
    assert forall i :: |types| <= i < |r| ==> r[i].id !in EventTypeIds(types) by {
      AppendEventTypesIds(types, names, 0);
      forall i | |types| <= i < |r|
        ensures r[i].id !in EventTypeIds(types)
      {
        assert r[i] !in types;
      }
    }
    CountNonCustomGrows(types, names);
  }

  /** Each appended non-custom row adds one to the count. */
  lemma {:induction false} CountNonCustomGrows(types: seq<EventType>, names: seq<string>)
    ensures CountNonCustom(AppendEventTypes(types, names, 0)) == CountNonCustom(types) + |names|
    decreases |names|
  {
    if names != [] {
      var row := EventType(NewRowId(types, EventTypeId), names[0], 0);
      CountNonCustomAppend(types, [row]);
      assert CountNonCustom([row]) == 1;
      CountNonCustomGrows(types + [row], names[1..]);
    }
  }

  /** Seeding appends seven rows behind the existing event types, touching no other table,
      exactly when there was no non-custom type; afterwards there are exactly seven non-custom
      types. Otherwise it changes nothing. */
  lemma SeedInsertsDefaults(t: Tables)
    ensures CountNonCustom(t.eventTypes) != 0 ==> SeedDefaultEventTypes(t) == t
    ensures CountNonCustom(t.eventTypes) == 0 ==>
      SeedDefaultEventTypes(t) == t.(eventTypes := SeedDefaultEventTypes(t).eventTypes)
    ensures CountNonCustom(t.eventTypes) == 0 ==>
      && |SeedDefaultEventTypes(t).eventTypes| == |t.eventTypes| + 7
      && SeedDefaultEventTypes(t).eventTypes[..|t.eventTypes|] == t.eventTypes
      && CountNonCustom(SeedDefaultEventTypes(t).eventTypes) == 7
  {
    if CountNonCustom(t.eventTypes) == 0 {
      NonCustomAppended(t.eventTypes, DefaultEventTypeNames);
    }
  }

  /** The seeded rows are Shot, Faceoff, Zone Entry, Turnover, Goal, Penalty and Save, in that
      order, each non-custom and with an id no earlier row has. */
  lemma SeedNamesDefaults(t: Tables)
    requires CountNonCustom(t.eventTypes) == 0
    ensures forall i :: |t.eventTypes| <= i < |SeedDefaultEventTypes(t).eventTypes| ==>
        && SeedDefaultEventTypes(t).eventTypes[i].name == DefaultEventTypeNames[i - |t.eventTypes|]
        && SeedDefaultEventTypes(t).eventTypes[i].isCustom == 0
        && SeedDefaultEventTypes(t).eventTypes[i].id !in EventTypeIds(t.eventTypes)
  {
    NonCustomAppended(t.eventTypes, DefaultEventTypeNames);
  }

  /** Seeding is idempotent: a second run (the next start of the application) changes nothing,
      so a store seeded twice still holds exactly seven non-custom types. */
  lemma SeedIdempotent(t: Tables)
    ensures SeedDefaultEventTypes(SeedDefaultEventTypes(t)) == SeedDefaultEventTypes(t)
    ensures CountNonCustom(t.eventTypes) == 0 ==>
      CountNonCustom(SeedDefaultEventTypes(SeedDefaultEventTypes(t)).eventTypes) == 7
  {
    SeedInsertsDefaults(t);
  }

  lemma SeedKeepsValid(t: Tables)
    requires Valid(t)
    ensures Valid(SeedDefaultEventTypes(t))
  {
    AppendEventTypesIds(t.eventTypes, DefaultEventTypeNames, 0);
    var r := SeedDefaultEventTypes(t);
    assert EventTypeIds(t.eventTypes) <= EventTypeIds(r.eventTypes);
  }

  /** `db-add-player`: `INSERT INTO players (name) VALUES (?)`, resolving `{id: this.lastID, name}`.
      A missing name violates NOT NULL and changes nothing. */
  function AddPlayer(t: Tables, name: Option<string>): (s: Step<Result<Player>>)
    ensures name.None? ==> s == Step(t, Err(NotNullFailed("players.name")))
    ensures name.Some? ==>
      && s.reply.Ok? && s.reply.value.name == name.value
      && s.reply.value.id !in PlayerIds(t.players)
      && s.tables == t.(players := t.players + [s.reply.value])
  {
    if name.None? then Step(t, Err(NotNullFailed("players.name")))
    else
      var p := Player(NewRowId(t.players, PlayerId), name.value);
      Step(t.(players := t.players + [p]), Ok(p))
  }

  lemma AddPlayerKeepsValid(t: Tables, name: Option<string>)
    requires Valid(t)
    ensures Valid(AddPlayer(t, name).tables)
  {
    if name.Some? {
      var p := AddPlayer(t, name).reply.value;
      AppendKeepsPairwise(t.players, p, PlayerIdBefore);
    }
  }

  /** The `players` rows with the name of the row whose id is `id` replaced. */
  function Rename(ps: seq<Player>, id: int, name: string): (r: seq<Player>)
    ensures |r| == |ps|
    ensures forall i :: 0 <= i < |ps| ==> r[i].id == ps[i].id
  {
    seq(|ps|, i requires 0 <= i < |ps| => if ps[i].id == id then Player(id, name) else ps[i])
  }

  /** `db-update-player`: `UPDATE players SET name = ? WHERE id = ?`, resolving `{id, name,
      changes: this.changes}`. An absent id matches no row: no error, `changes` is 0. */
  function UpdatePlayer(t: Tables, id: int, name: Option<string>): Step<Result<UpdateReply>>
  {
    if id !in PlayerIds(t.players) then Step(t, Ok(UpdateReply(id, name, 0)))
    else if name.None? then Step(t, Err(NotNullFailed("players.name")))
    else Step(t.(players := Rename(t.players, id, name.value)), Ok(UpdateReply(id, name, 1)))
  }

  /** Renaming changes only the name of the row with that id: `changes` is 1 when the id
      existed and 0 otherwise, and with 0 nothing changes. The store stays consistent. */
  lemma UpdatePlayerEffect(t: Tables, id: int, name: Option<string>)
    requires Valid(t)
    ensures var s := UpdatePlayer(t, id, name);
      && Valid(s.tables)
      && (s.reply.Ok? ==>
            && s.reply.value.id == id && s.reply.value.name == name
            && (s.reply.value.changes == 1 <==> id in PlayerIds(t.players))
            && (s.reply.value.changes == 0 <==> id !in PlayerIds(t.players)))
      && (s.reply.Err? <==> id in PlayerIds(t.players) && name.None?)
      && (s.reply.Err? || s.reply.value.changes == 0 ==> s.tables == t)
      && s.tables == t.(players := s.tables.players)
      && |s.tables.players| == |t.players|
      && (forall i :: 0 <= i < |t.players| ==>
            && s.tables.players[i].id == t.players[i].id
            && (t.players[i].id != id ==> s.tables.players[i] == t.players[i])
            && (t.players[i].id == id && s.reply.Ok? ==> s.tables.players[i].name == name.value))
  {
    var s := UpdatePlayer(t, id, name);
    if s.tables != t {
      var r := s.tables;
      assert Pairwise(r.players, PlayerIdBefore) by {
        forall i, j | 0 <= i < j < |r.players|
          ensures PlayerIdBefore(r.players[i], r.players[j])
        {
          assert PlayerIdBefore(t.players[i], t.players[j]);
        }
      }
      assert PlayerIds(r.players) == PlayerIds(t.players) by {
        forall x | x in PlayerIds(t.players)
          ensures x in PlayerIds(r.players)
        {
          var p :| p in t.players && p.id == x;
          var k :| 0 <= k < |t.players| && t.players[k] == p;
          assert r.players[k].id == x;
        }
      }
    }
  }

  /** `db-delete-player`: `DELETE FROM players WHERE id = ?`, resolving `{id, changes}`. The cascade
      on `event_player_associations.player_id` removes the player's associations; SQLite does
      not count rows removed by a cascade in `changes`. */
  function DeletePlayer(t: Tables, id: int): Step<DeleteReply>
  {
    Step(DeletePlayerRows(t, id), DeleteReply(id, if id in PlayerIds(t.players) then 1 else 0))
  }

  /** Removing no row leaves a table as it was. */
  lemma {:induction false} RowsWithoutAbsent<T(!new)>(rows: seq<T>, key: T -> int, ids: set<int>)
    requires forall x :: x in rows ==> key(x) !in ids
    ensures RowsWithout(rows, key, ids) == rows
  {
    if rows != [] {
      RowsWithoutAbsent(rows[1..], key, ids);
      assert rows == [rows[0]] + rows[1..];
    }
  }

  /** Deleting a player removes it and, by the cascade, exactly the associations with its id;
      events and the other tables are untouched. `changes` is 1 when the id existed and 0
      otherwise, and with 0 nothing changes. */
  lemma DeletePlayerEffect(t: Tables, id: int)
    requires Valid(t)
    ensures var s := DeletePlayer(t, id);
      && Valid(s.tables)
      && s.reply.id == id
      && (s.reply.changes == 1 <==> id in PlayerIds(t.players))
      && (s.reply.changes == 0 <==> id !in PlayerIds(t.players))
      && (s.reply.changes == 0 ==> s.tables == t)
      && (forall p :: p in s.tables.players <==> p in t.players && p.id != id)
      && (forall a :: a in s.tables.associations <==> a in t.associations && a.playerId != id)
      && s.tables.events == t.events && s.tables.videos == t.videos
      && s.tables.eventTypes == t.eventTypes
  {
    DeletePlayerCascade(t, id);
    if id !in PlayerIds(t.players) {
      RowsWithoutAbsent(t.players, PlayerId, {id});
      RowsWithoutAbsent(t.associations, AssociationPlayer, {id});
    }
  }

  /** `isCustom ? 1 : 0` */
  function CustomFlag(isCustom: Value): (flag: int)
    ensures flag == 0 || flag == 1
    ensures flag == 1 <==> Truthy(isCustom)
  {
    if Truthy(isCustom) then 1 else 0
  }

  /** `db-add-event-type`: `INSERT INTO event_types (name, is_custom) VALUES (?, ?)` with the
      truthiness of `isCustom` stored as 1 or 0, resolving `{id: this.lastID, name, is_custom}`. */
  function AddEventType(t: Tables, name: Option<string>, isCustom: Value): (s: Step<Result<EventType>>)
    ensures name.None? ==> s == Step(t, Err(NotNullFailed("event_types.name")))
    ensures name.Some? ==>
      && s.reply.Ok? && s.reply.value.name == name.value
      && (s.reply.value.isCustom == 1 <==> Truthy(isCustom))
      && (s.reply.value.isCustom == 0 <==> !Truthy(isCustom))
      && s.reply.value.id !in EventTypeIds(t.eventTypes)
      && s.tables == t.(eventTypes := t.eventTypes + [s.reply.value])
  {
    if name.None? then Step(t, Err(NotNullFailed("event_types.name")))
    else
      var et := EventType(NewRowId(t.eventTypes, EventTypeId), name.value, CustomFlag(isCustom));
      Step(t.(eventTypes := t.eventTypes + [et]), Ok(et))
  }

  lemma AddEventTypeKeepsValid(t: Tables, name: Option<string>, isCustom: Value)
    requires Valid(t)
    ensures Valid(AddEventType(t, name, isCustom).tables)
  {
    var s := AddEventType(t, name, isCustom);
    if name.Some? {
      AppendKeepsPairwise(t.eventTypes, s.reply.value, EventTypeIdBefore);
      assert forall x :: x in t.eventTypes ==> x in s.tables.eventTypes;
    }
  }

  /** `db.get('SELECT id FROM videos WHERE file_path = ?')`: the first matching row, if any. */
  function FindVideo(vs: seq<Video>, path: string): (r: Option<Video>)
    ensures r.Some? ==> r.value in vs && r.value.filePath == path
    ensures r.None? <==> forall v :: v in vs ==> v.filePath != path
  {
    if vs == [] then None
    else if vs[0].filePath == path then Some(vs[0])
    else
      assert forall v :: v in vs <==> v == vs[0] || v in vs[1..];
      FindVideo(vs[1..], path)
  }

  /** `db-add-video`: insert-or-fetch by file path. A path already present resolves the existing
      row's id and inserts nothing; otherwise one row is inserted with a new id. A missing path
      matches no row and then violates NOT NULL. */
  function AddVideo(t: Tables, path: Option<string>): Step<Result<Video>>
  {
    if path.None? then Step(t, Err(NotNullFailed("videos.file_path")))
    else
      match FindVideo(t.videos, path.value)
      case Some(v) => Step(t, Ok(Video(v.id, path.value)))
      case None =>
        var v := Video(NewRowId(t.videos, VideoId), path.value);
        Step(t.(videos := t.videos + [v]), Ok(v))
  }

  /** Insert-or-fetch: the reply names the one video with that path, the table grows by at most
      one row, and only when the path was new. The store stays consistent. */
  lemma AddVideoEffect(t: Tables, path: string)
    requires Valid(t)
    ensures var s := AddVideo(t, Some(path));
      && Valid(s.tables)
      && s.reply.Ok? && s.reply.value.filePath == path
      && s.reply.value in s.tables.videos
      && s.tables == t.(videos := s.tables.videos)
      && ((exists v :: v in t.videos && v.filePath == path) ==> s.tables == t && s.reply.value in t.videos)
      && ((forall v :: v in t.videos ==> v.filePath != path) ==>
            s.tables.videos == t.videos + [s.reply.value] && s.reply.value.id !in VideoIds(t.videos))
  {
    var s := AddVideo(t, Some(path));
    if FindVideo(t.videos, path).None? {
      var v := s.reply.value;
      AppendKeepsPairwise(t.videos, v, VideoIdBefore);
      AppendKeepsPairwise(t.videos, v, PathsDiffer);
      assert forall x :: x in t.videos ==> x in s.tables.videos;
    }
  }

  /** Adding the same path twice resolves the same id both times, and the second call changes
      nothing: the table gains at most one row. */
  lemma AddVideoTwice(t: Tables, path: string)
    requires Valid(t)
    ensures var first := AddVideo(t, Some(path));
      var second := AddVideo(first.tables, Some(path));
      && second.tables == first.tables
      && second.reply == first.reply
      && |second.tables.videos| <= |t.videos| + 1
  {
    var first := AddVideo(t, Some(path));
    AddVideoEffect(t, path);
    AddVideoEffect(first.tables, path);
    var v := first.reply.value;
    assert v in first.tables.videos;
    var w := AddVideo(first.tables, Some(path)).reply.value;
    // one row per path: the row found the second time is the row of the first reply
    assert w in first.tables.videos && w.filePath == path;
    var i :| 0 <= i < |first.tables.videos| && first.tables.videos[i] == v;
    var j :| 0 <= j < |first.tables.videos| && first.tables.videos[j] == w;
    assert i == j;
  }

  /** `db-add-event`: `INSERT INTO events (video_id, event_type_id, timestamp) VALUES (?, ?, ?)`,
      resolving `{id: this.lastID, video_id, event_type_id, timestamp}`. With foreign keys on, an
      unknown video or event type rejects the insert. */
  function AddEvent(t: Tables, videoId: int, eventTypeId: int, timestamp: Option<real>): Step<Result<Event>>
  {
    if timestamp.None? then Step(t, Err(NotNullFailed("events.timestamp")))
    else if videoId !in VideoIds(t.videos) || eventTypeId !in EventTypeIds(t.eventTypes) then
      Step(t, Err(ForeignKeyFailed))
    else
      var e := Event(NewRowId(t.events, EventId), videoId, eventTypeId, timestamp.value);
      Step(t.(events := t.events + [e]), Ok(e))
  }

  /** An event is added, with a new id and the given fields, exactly when its video and its type
      exist (and it has a timestamp); a rejected insert changes nothing. */
  lemma AddEventEffect(t: Tables, videoId: int, eventTypeId: int, timestamp: Option<real>)
    requires Valid(t)
    ensures var s := AddEvent(t, videoId, eventTypeId, timestamp);
      && Valid(s.tables)
      && (s.reply.Ok? <==>
            timestamp.Some? && videoId in VideoIds(t.videos) && eventTypeId in EventTypeIds(t.eventTypes))
      && (s.reply.Err? ==> s.tables == t)
      && (s.reply.Ok? ==>
            && s.reply.value == Event(s.reply.value.id, videoId, eventTypeId, timestamp.value)
            && s.reply.value.id !in EventIds(t.events)
            && s.tables == t.(events := t.events + [s.reply.value]))
  {
    var s := AddEvent(t, videoId, eventTypeId, timestamp);
    if s.reply.Ok? {
      AppendKeepsPairwise(t.events, s.reply.value, EventIdBefore);
      assert forall x :: x in t.events ==> x in s.tables.events;
    }
  }

  /** `db-add-event-player-association`: `INSERT INTO event_player_associations (event_id,
      player_id) VALUES (?, ?)`, resolving `{event_id, player_id, changes}`. A pair already present
      violates the primary key; an unknown event or player violates a foreign key. */
  function AddEventPlayerAssociation(t: Tables, eventId: int, playerId: int): Step<Result<AssociationReply>>
  {
    if Association(eventId, playerId) in t.associations then Step(t, Err(PrimaryKeyFailed))
    else if eventId !in EventIds(t.events) || playerId !in PlayerIds(t.players) then
      Step(t, Err(ForeignKeyFailed))
    else
      Step(t.(associations := t.associations + [Association(eventId, playerId)]),
           Ok(AssociationReply(eventId, playerId, 1)))
  }

  /** The association is added, with `changes` 1, exactly when the pair is new and both the event
      and the player exist; otherwise the promise rejects and the table is unchanged. */
  lemma AddAssociationEffect(t: Tables, eventId: int, playerId: int)
    requires Valid(t)
    ensures var s := AddEventPlayerAssociation(t, eventId, playerId);
      && Valid(s.tables)
      && (s.reply.Ok? <==>
            && Association(eventId, playerId) !in t.associations
            && eventId in EventIds(t.events) && playerId in PlayerIds(t.players))
      && (s.reply.Err? ==> s.tables == t)
      && (s.reply.Ok? ==>
            && s.reply.value == AssociationReply(eventId, playerId, 1)
            && s.tables == t.(associations := t.associations + [Association(eventId, playerId)]))
  {
    var s := AddEventPlayerAssociation(t, eventId, playerId);
    if s.reply.Ok? {
      AppendKeepsPairwise(t.associations, Association(eventId, playerId), AssociationsDiffer);
    }
  }
}

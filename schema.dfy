/** The five tables created by `createTables` (src/database/db.js), their keys, their foreign keys
    with `ON DELETE CASCADE`, and what a delete on each parent table does under those rules. */
module Schema {
  import opened Seqs

  /** `players(id INTEGER PRIMARY KEY, name TEXT NOT NULL)` */
  datatype Player = Player(id: int, name: string)

  /** `event_types(id INTEGER PRIMARY KEY, name TEXT NOT NULL, is_custom BOOLEAN NOT NULL)`;
      `is_custom` holds 0 or 1. */
  datatype EventType = EventType(id: int, name: string, isCustom: int)

  /** `videos(id INTEGER PRIMARY KEY, file_path TEXT NOT NULL)` */
  datatype Video = Video(id: int, filePath: string)

  /** `events(id INTEGER PRIMARY KEY, video_id REFERENCES videos(id) ON DELETE CASCADE,
      event_type_id REFERENCES event_types(id) ON DELETE CASCADE, timestamp REAL NOT NULL)` */
  datatype Event = Event(id: int, videoId: int, eventTypeId: int, timestamp: real)

  /** `event_player_associations(event_id REFERENCES events(id) ON DELETE CASCADE,
      player_id REFERENCES players(id) ON DELETE CASCADE, PRIMARY KEY (event_id, player_id))` */
  datatype Association = Association(eventId: int, playerId: int)

  /** The whole store. Each table lists its rows in rowid order, the order a plain `SELECT *`
      scans them in. */
  datatype Tables = Tables(
    players: seq<Player>,
    eventTypes: seq<EventType>,
    videos: seq<Video>,
    events: seq<Event>,
    associations: seq<Association>)

  /** The store as `CREATE TABLE IF NOT EXISTS` leaves a fresh database file. */
  function Empty(): Tables
  {
    Tables([], [], [], [], [])
  }

  function PlayerId(p: Player): int { p.id }
  function EventTypeId(t: EventType): int { t.id }
  function VideoId(v: Video): int { v.id }
  function EventId(e: Event): int { e.id }
  function EventVideo(e: Event): int { e.videoId }
  function EventTypeOf(e: Event): int { e.eventTypeId }
  function AssociationEvent(a: Association): int { a.eventId }
  function AssociationPlayer(a: Association): int { a.playerId }

  function PlayerIds(ps: seq<Player>): set<int> { set p | p in ps :: p.id }
  function EventTypeIds(ts: seq<EventType>): set<int> { set t | t in ts :: t.id }
  function VideoIds(vs: seq<Video>): set<int> { set v | v in vs :: v.id }
  function EventIds(es: seq<Event>): set<int> { set e | e in es :: e.id }

  predicate PlayerIdBefore(a: Player, b: Player) { a.id < b.id }
  predicate EventTypeIdBefore(a: EventType, b: EventType) { a.id < b.id }
  predicate VideoIdBefore(a: Video, b: Video) { a.id < b.id }
  predicate EventIdBefore(a: Event, b: Event) { a.id < b.id }
  predicate AssociationsDiffer(a: Association, b: Association) { a != b }
  predicate PathsDiffer(a: Video, b: Video) { a.filePath != b.filePath }

  /** The rowid SQLite gives a row inserted without one: one more than the largest rowid in the
      table, or 1 in an empty table. It is new to the table. */
  function NewRowId<T(!new)>(rows: seq<T>, key: T -> int): (id: int)
    ensures id >= 1
    ensures forall x :: x in rows ==> key(x) < id
  {
    MaxKey(rows, key) + 1
  }

  /** The rows of `rows` whose `key` is not in `ids`, in their order: a `DELETE ... WHERE`
      on that key, or the cascade it triggers. */
  function RowsWithout<T(!new)>(rows: seq<T>, key: T -> int, ids: set<int>): (r: seq<T>)
    ensures forall x :: x in r <==> x in rows && key(x) !in ids
  {
    if rows == [] then []
    else
      assert forall x :: x in rows <==> x == rows[0] || x in rows[1..];
      (if key(rows[0]) in ids then [] else [rows[0]]) + RowsWithout(rows[1..], key, ids)
  }

  /** Removing rows keeps any relation between earlier and later rows (ascending ids,
      distinct rows, distinct paths). */
  lemma {:induction false} RowsWithoutKeepsPairwise<T(!new)>(rows: seq<T>, key: T -> int, ids: set<int>, rel: (T, T) -> bool)
    requires Pairwise(rows, rel)
    ensures Pairwise(RowsWithout(rows, key, ids), rel)
  {
    if rows != [] {
      RowsWithoutKeepsPairwise(rows[1..], key, ids, rel);
      var rest := RowsWithout(rows[1..], key, ids);
      if key(rows[0]) !in ids {
        forall y | y in rest
          ensures rel(rows[0], y)
        {
          var k :| 0 <= k < |rows| - 1 && rows[1..][k] == y;
          assert rows[k + 1] == y;
        }
        forall j | 0 <= j < |rest| ensures rel(rows[0], rest[j]) {
          assert rest[j] in rest;
        }
        PrependKeepsPairwise(rows[0], rest, rel);
      }
    }
  }

  /** What the store keeps true between operations. SQLite enforces the first three kinds of
      fact (rowid keys, `PRAGMA foreign_keys = ON`, the composite primary key); the last,
      one row per file path, is kept by `db-add-video`'s insert-or-fetch as long as no two calls
      of it overlap. */
  predicate Valid(t: Tables)
  {
    // INTEGER PRIMARY KEY: unique ids, and each table lists its rows in rowid order
    && Pairwise(t.players, PlayerIdBefore)
    && Pairwise(t.eventTypes, EventTypeIdBefore)
    && Pairwise(t.videos, VideoIdBefore)
    && Pairwise(t.events, EventIdBefore)
    // foreign keys
    && (forall e :: e in t.events ==>
          e.videoId in VideoIds(t.videos) && e.eventTypeId in EventTypeIds(t.eventTypes))
    && (forall a :: a in t.associations ==>
          a.eventId in EventIds(t.events) && a.playerId in PlayerIds(t.players))
    // PRIMARY KEY (event_id, player_id)
    && Pairwise(t.associations, AssociationsDiffer)
    // file paths are deduplicated by db-add-video
    && Pairwise(t.videos, PathsDiffer)
  }

  lemma EmptyIsValid()
    ensures Valid(Empty())
  {
  }

  /** `DELETE FROM players WHERE id = ?`: the player goes, and with it (cascade on
      `event_player_associations.player_id`) exactly that player's associations. */
  function DeletePlayerRows(t: Tables, id: int): Tables
  {
    t.(players := RowsWithout(t.players, PlayerId, {id}),
       associations := RowsWithout(t.associations, AssociationPlayer, {id}))
  }

  /** `DELETE FROM events WHERE id = ?`: the event goes, and with it (cascade on
      `event_player_associations.event_id`) its associations. */
  function DeleteEventRows(t: Tables, id: int): Tables
  {
    t.(events := RowsWithout(t.events, EventId, {id}),
       associations := RowsWithout(t.associations, AssociationEvent, {id}))
  }

  /** The ids of the events whose `key` (video or event type) is `id`. */
  function EventIdsWhere(es: seq<Event>, key: Event -> int, id: int): set<int>
  {
    set e | e in es && key(e) == id :: e.id
  }

  /** Removes the events whose `key` is `id` and, by the cascade on
      `event_player_associations.event_id`, their associations. */
  function CascadeEvents(t: Tables, key: Event -> int, id: int): Tables
  {
    t.(events := RowsWithout(t.events, key, {id}),
       associations := RowsWithout(t.associations, AssociationEvent, EventIdsWhere(t.events, key, id)))
  }

  /** `DELETE FROM videos WHERE id = ?`: the video goes, its events go (cascade on
      `events.video_id`), and so do their associations. */
  function DeleteVideoRows(t: Tables, id: int): Tables
  {
    CascadeEvents(t.(videos := RowsWithout(t.videos, VideoId, {id})), EventVideo, id)
  }

  /** `DELETE FROM event_types WHERE id = ?`: the type goes, its events go (cascade on
      `events.event_type_id`), and so do their associations. */
  function DeleteEventTypeRows(t: Tables, id: int): Tables
  {
    CascadeEvents(t.(eventTypes := RowsWithout(t.eventTypes, EventTypeId, {id})), EventTypeOf, id)
  }

  /** Deleting a player removes exactly its associations; events and every other table are
      untouched, and the store stays consistent. */
  lemma DeletePlayerCascade(t: Tables, id: int)
    requires Valid(t)
    ensures var r := DeletePlayerRows(t, id);
      && Valid(r)
      && (forall p :: p in r.players <==> p in t.players && p.id != id)
      && (forall a :: a in r.associations <==> a in t.associations && a.playerId != id)
      && r.events == t.events && r.videos == t.videos && r.eventTypes == t.eventTypes
  {
    var r := DeletePlayerRows(t, id);
    RowsWithoutKeepsPairwise(t.players, PlayerId, {id}, PlayerIdBefore);
    RowsWithoutKeepsPairwise(t.associations, AssociationPlayer, {id}, AssociationsDiffer);
    forall a | a in r.associations
      ensures a.playerId in PlayerIds(r.players)
    {
      var p :| p in t.players && p.id == a.playerId;
      assert p in r.players;
    }
  }

  /** Deleting an event removes exactly its associations and keeps the store consistent. */
  lemma DeleteEventCascade(t: Tables, id: int)
    requires Valid(t)
    ensures var r := DeleteEventRows(t, id);
      && Valid(r)
      && (forall e :: e in r.events <==> e in t.events && e.id != id)
      && (forall a :: a in r.associations <==> a in t.associations && a.eventId != id)
      && r.players == t.players && r.videos == t.videos && r.eventTypes == t.eventTypes
  {
    var r := DeleteEventRows(t, id);
    RowsWithoutKeepsPairwise(t.events, EventId, {id}, EventIdBefore);
    RowsWithoutKeepsPairwise(t.associations, AssociationEvent, {id}, AssociationsDiffer);
    forall a | a in r.associations
      ensures a.eventId in EventIds(r.events)
    {
      var e :| e in t.events && e.id == a.eventId;
      assert e in r.events;
    }
  }

  /** Removing the events of one video or one event type takes exactly the associations of
      those events, and leaves every surviving association pointing at a surviving event. */
  lemma CascadeEventsLinks(t: Tables, key: Event -> int, id: int)
    requires Pairwise(t.events, EventIdBefore) && Pairwise(t.associations, AssociationsDiffer)
    requires forall a :: a in t.associations ==> a.eventId in EventIds(t.events)
    ensures var r := CascadeEvents(t, key, id);
      && (forall a :: a in r.associations <==>
            a in t.associations && forall e :: e in t.events && e.id == a.eventId ==> key(e) != id)
      && (forall a :: a in r.associations ==> a.eventId in EventIds(r.events))
      && Pairwise(r.events, EventIdBefore)
      && Pairwise(r.associations, AssociationsDiffer)
  {
    var r := CascadeEvents(t, key, id);
    var gone := EventIdsWhere(t.events, key, id);
    RowsWithoutKeepsPairwise(t.events, key, {id}, EventIdBefore);
    RowsWithoutKeepsPairwise(t.associations, AssociationEvent, gone, AssociationsDiffer);
    forall a | a in t.associations
      ensures a.eventId !in gone <==> forall e :: e in t.events && e.id == a.eventId ==> key(e) != id
    {
      if a.eventId in gone {
        var e :| e in t.events && key(e) == id && e.id == a.eventId;
      }
    }
    forall a | a in r.associations
      ensures a.eventId in EventIds(r.events)
    {
      var e :| e in t.events && e.id == a.eventId;
      assert e in r.events;
    }
  }

  /** Deleting a video removes its events and, transitively, every association of those
      events, and nothing else; the store stays consistent. */
  lemma DeleteVideoCascade(t: Tables, id: int)
    requires Valid(t)
    ensures var r := DeleteVideoRows(t, id);
      && Valid(r)
      && (forall v :: v in r.videos <==> v in t.videos && v.id != id)
      && (forall e :: e in r.events <==> e in t.events && e.videoId != id)
      && (forall a :: a in r.associations <==>
            a in t.associations && forall e :: e in t.events && e.id == a.eventId ==> e.videoId != id)
      && r.players == t.players && r.eventTypes == t.eventTypes
  {
    var t' := t.(videos := RowsWithout(t.videos, VideoId, {id}));
    var r := DeleteVideoRows(t, id);
    RowsWithoutKeepsPairwise(t.videos, VideoId, {id}, VideoIdBefore);
    RowsWithoutKeepsPairwise(t.videos, VideoId, {id}, PathsDiffer);
    CascadeEventsLinks(t', EventVideo, id);
    forall e | e in r.events
      ensures e.videoId in VideoIds(r.videos)
    {
      var v :| v in t.videos && v.id == e.videoId;
      assert v in r.videos;
    }
  }

  /** Deleting an event type removes its events and, transitively, their associations, and
      nothing else; the store stays consistent. */
  lemma DeleteEventTypeCascade(t: Tables, id: int)
    requires Valid(t)
    ensures var r := DeleteEventTypeRows(t, id);
      && Valid(r)
      && (forall et :: et in r.eventTypes <==> et in t.eventTypes && et.id != id)
      && (forall e :: e in r.events <==> e in t.events && e.eventTypeId != id)
      && (forall a :: a in r.associations <==>
            a in t.associations && forall e :: e in t.events && e.id == a.eventId ==> e.eventTypeId != id)
      && r.players == t.players && r.videos == t.videos
  {
    var t' := t.(eventTypes := RowsWithout(t.eventTypes, EventTypeId, {id}));
    var r := DeleteEventTypeRows(t, id);
    RowsWithoutKeepsPairwise(t.eventTypes, EventTypeId, {id}, EventTypeIdBefore);
    CascadeEventsLinks(t', EventTypeOf, id);
    forall e | e in r.events
      ensures e.eventTypeId in EventTypeIds(r.eventTypes)
    {
      var et :| et in t.eventTypes && et.id == e.eventTypeId;
      assert et in r.eventTypes;
    }
  }
}

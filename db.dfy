/** The module-level `db` handle of src/database/db.js as an object whose five tables the
    handlers update in place, one statement at a time. Each method is one `ipcMain.handle`
    body (or `insertDefaultEventTypes`) and is proved to have exactly the effect the
    corresponding function of `Handlers` describes, so every lemma proved there holds of it. */
module Db {
  import opened Js
  import opened Seqs
  import opened Schema
  import opened Handlers

  class Database {
    var players: seq<Player>
    var eventTypes: seq<EventType>
    var videos: seq<Video>
    var events: seq<Event>
    var associations: seq<Association>

    /** The five tables as one value. */
    function State(): Tables
      reads this
    {
      Tables(players, eventTypes, videos, events, associations)
    }

    /** Keys ascend, foreign keys hold, association pairs and video paths are distinct. */
    ghost predicate Valid()
      reads this
    {
      Schema.Valid(State())
    }

    /** `initDatabase`: open the file with the tables it already holds (`CREATE TABLE IF NOT
        EXISTS` leaves them alone), then run `insertDefaultEventTypes`. */
    constructor Open(stored: Tables)
      requires Schema.Valid(stored)
      ensures Valid()
      ensures State() == SeedDefaultEventTypes(stored)
    {
      players := stored.players;
      eventTypes := stored.eventTypes;
      videos := stored.videos;
      events := stored.events;
      associations := stored.associations;
      new;
      InsertDefaultEventTypes();
    }

    /** One `stmt.run(name, isCustom)` of `INSERT INTO event_types (name, is_custom)`: the row
        gets the next rowid. */
    method InsertEventType(name: string, isCustom: int) returns (row: EventType)
      modifies this
      ensures row == EventType(NewRowId(old(eventTypes), EventTypeId), name, isCustom)
      ensures eventTypes == old(eventTypes) + [row]
      ensures State() == old(State()).(eventTypes := eventTypes)
    {
      row := EventType(NewRowId(eventTypes, EventTypeId), name, isCustom);
      eventTypes := eventTypes + [row];
    }

    /** `names.forEach(name => stmt.run(name, isCustom))`: one insert per name, in order. */
    method InsertEventTypes(names: seq<string>, isCustom: int)
      modifies this
      ensures State() == old(State()).(eventTypes := AppendEventTypes(old(eventTypes), names, isCustom))
    {
      for i := 0 to |names|
        invariant AppendEventTypes(eventTypes, names[i..], isCustom) == AppendEventTypes(old(eventTypes), names, isCustom)
        invariant State() == old(State()).(eventTypes := eventTypes)
      {
        assert names[i..][1..] == names[i + 1..];
        var _ := InsertEventType(names[i], isCustom);
      }
    }

    /** `insertDefaultEventTypes`: count the non-custom types; when there are none, insert
        the seven defaults one statement at a time, in order. */
    method InsertDefaultEventTypes()
      requires Valid()
      modifies this
      ensures Valid()
      ensures State() == SeedDefaultEventTypes(old(State()))
    {
      var count := CountNonCustom(eventTypes);
      if count == 0 {
        InsertEventTypes(DefaultEventTypeNames, 0);
      }
      SeedKeepsValid(old(State()));
    }

    /** `db-add-player` */
    method AddPlayer(name: Option<string>) returns (reply: Result<Player>)
      requires Valid()
      modifies this
      ensures Valid()
      ensures Step(State(), reply) == Handlers.AddPlayer(old(State()), name)
    {
      match name
      case None =>
        reply := Err(NotNullFailed("players.name"));
      case Some(n) =>
        var p := Player(NewRowId(players, PlayerId), n);
        players := players + [p];
        reply := Ok(p);
      AddPlayerKeepsValid(old(State()), name);
    }

    /** `db-update-player` */
    method UpdatePlayer(id: int, name: Option<string>) returns (reply: Result<UpdateReply>)
      requires Valid()
      modifies this
      ensures Valid()
      ensures Step(State(), reply) == Handlers.UpdatePlayer(old(State()), id, name)
    {
      var changes := if id in PlayerIds(players) then 1 else 0;
      if changes == 1 && name.None? {
        reply := Err(NotNullFailed("players.name"));
      } else {
        if changes == 1 {
          players := Rename(players, id, name.value);
        }
        reply := Ok(UpdateReply(id, name, changes));
      }
      UpdatePlayerEffect(old(State()), id, name);
    }

    /** `db-delete-player`: the delete and its cascade on the player's associations. */
    method DeletePlayer(id: int) returns (reply: DeleteReply)
      requires Valid()
      modifies this
      ensures Valid()
      ensures Step(State(), reply) == Handlers.DeletePlayer(old(State()), id)
    {
      var changes := if id in PlayerIds(players) then 1 else 0;
      players := RowsWithout(players, PlayerId, {id});
      associations := RowsWithout(associations, AssociationPlayer, {id});
      reply := DeleteReply(id, changes);
      DeletePlayerEffect(old(State()), id);
    }

    /** `db-add-event-type` */
    method AddEventType(name: Option<string>, isCustom: Value) returns (reply: Result<EventType>)
      requires Valid()
      modifies this
      ensures Valid()
      ensures Step(State(), reply) == Handlers.AddEventType(old(State()), name, isCustom)
    {
      if name.None? {
        reply := Err(NotNullFailed("event_types.name"));
      } else {
        var row := InsertEventType(name.value, CustomFlag(isCustom));
        reply := Ok(row);
      }
      AddEventTypeKeepsValid(old(State()), name, isCustom);
    }

    /** `db-add-video`: look the path up first and insert only when it is not there. */
    method AddVideo(filePath: Option<string>) returns (reply: Result<Video>)
      requires Valid()
      modifies this
      ensures Valid()
      ensures Step(State(), reply) == Handlers.AddVideo(old(State()), filePath)
    {
      if filePath.None? {
        reply := Err(NotNullFailed("videos.file_path"));
      } else {
        var path := filePath.value;
        var found := FindVideo(videos, path);
        if found.Some? {
          reply := Ok(Video(found.value.id, path));
        } else {
          var v := Video(NewRowId(videos, VideoId), path);
          videos := videos + [v];
          reply := Ok(v);
        }
        AddVideoEffect(old(State()), path);
      }
    }

    /** `db-add-event` */
    method AddEvent(videoId: int, eventTypeId: int, timestamp: Option<real>) returns (reply: Result<Event>)
      requires Valid()
      modifies this
      ensures Valid()
      ensures Step(State(), reply) == Handlers.AddEvent(old(State()), videoId, eventTypeId, timestamp)
    {
      if timestamp.None? {
        reply := Err(NotNullFailed("events.timestamp"));
      } else if videoId !in VideoIds(videos) || eventTypeId !in EventTypeIds(eventTypes) {
        reply := Err(ForeignKeyFailed);
      } else {
        var e := Event(NewRowId(events, EventId), videoId, eventTypeId, timestamp.value);
        events := events + [e];
        reply := Ok(e);
      }
      AddEventEffect(old(State()), videoId, eventTypeId, timestamp);
    }

    /** `db-add-event-player-association` */
    method AddEventPlayerAssociation(eventId: int, playerId: int) returns (reply: Result<AssociationReply>)
      requires Valid()
      modifies this
      ensures Valid()
      ensures Step(State(), reply) == Handlers.AddEventPlayerAssociation(old(State()), eventId, playerId)
    {
      var pair := Association(eventId, playerId);
      if pair in associations {
        reply := Err(PrimaryKeyFailed);
      } else if eventId !in EventIds(events) || playerId !in PlayerIds(players) {
        reply := Err(ForeignKeyFailed);
      } else {
        associations := associations + [pair];
        reply := Ok(AssociationReply(eventId, playerId, 1));
      }
      AddAssociationEffect(old(State()), eventId, playerId);
    }
  }
}

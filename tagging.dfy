/** Tagging an event from the video-review tab (`tagEvent` in src/renderer/renderer.js): two
    guards, then `db-add-event`, then one `db-add-event-player-association` per checked player,
    awaited one after the other, then the annotation label. A rejected call ends the tagging
    where it stands: nothing is rolled back. */
module Tagging {
  import opened Js
  import opened Text
  import opened Seqs
  import opened Schema
  import opened Handlers
  import opened Queries
  import opened Display
  import Db

  /** A call the renderer makes on the store, in the order made. */
  datatype StoreCall =
    | AddEventCall(videoId: int, eventTypeId: int, timestamp: real)
    | AddAssociationCall(eventId: int, playerId: int)

  /** How `tagEvent` ends. */
  datatype TagOutcome =
    | NoVideo                                      // alert 'Please load a video first'
    | NoEventType                                  // alert 'Please select an event type'
    | StoreFailed(error: DbError)                  // a call rejected: alert 'Failed to tag event'
    | LabelFailed                                  // `eventType.name` of an unknown type threw
    | Tagged(eventId: int, annotation: Option<string>)  // stored; the annotation label, if the plugin is there

  /** The `db-add-event-player-association` calls for `playerIds`, in order. */
  function AssociationCalls(eventId: int, playerIds: seq<int>): (calls: seq<StoreCall>)
    ensures |calls| == |playerIds|
  {
    seq(|playerIds|, k requires 0 <= k < |playerIds| => AddAssociationCall(eventId, playerIds[k]))
  }

  /** The association rows for `playerIds`, in order. */
  function Links(eventId: int, playerIds: seq<int>): (links: seq<Association>)
    ensures |links| == |playerIds|
  {
    seq(|playerIds|, k requires 0 <= k < |playerIds| => Association(eventId, playerIds[k]))
  }

  /** After the association loop: the tables, how many calls were made, and the error of the
      last one if it was rejected. */
  datatype Associated = Associated(tables: Tables, made: nat, error: Option<DbError>)

  /** `for (const playerId of selectedPlayers) await addEventPlayerAssociation(eventId, playerId)`:
      the first rejection ends the loop. */
  function AssociateEach(t: Tables, eventId: int, playerIds: seq<int>): (r: Associated)
    ensures r.made <= |playerIds|
    ensures r.error.None? ==> r.made == |playerIds|
    ensures r.error.Some? ==> r.made >= 1
    decreases |playerIds|
  {
    if playerIds == [] then Associated(t, 0, None)
    else
      var s := AddEventPlayerAssociation(t, eventId, playerIds[0]);
      match s.reply
      case Err(e) => Associated(s.tables, 1, Some(e))
      case Ok(_) =>
        var r := AssociateEach(s.tables, eventId, playerIds[1..]);
        Associated(r.tables, r.made + 1, r.error)
  }

  /** The association loop keeps the store consistent. */
  lemma {:induction false} AssociateEachKeepsValid(t: Tables, eventId: int, playerIds: seq<int>)
    requires Valid(t)
    ensures Valid(AssociateEach(t, eventId, playerIds).tables)
    decreases |playerIds|
  {
    if playerIds != [] {
      var s := AddEventPlayerAssociation(t, eventId, playerIds[0]);
      AddAssociationEffect(t, eventId, playerIds[0]);
      AssociateEachStep(t, eventId, playerIds);
      if s.reply.Ok? {
        AssociateEachKeepsValid(s.tables, eventId, playerIds[1..]);
      }
    }
  }

  /** The association loop adds, in order, the pairs of the calls that succeeded and nothing
      else; when a call is rejected, it is the last one made and the store refused exactly that
      pair. */
  lemma {:induction false} AssociateEachEffect(t: Tables, eventId: int, playerIds: seq<int>)
    requires Valid(t)
    ensures Valid(AssociateEach(t, eventId, playerIds).tables)
    ensures AssociateEach(t, eventId, playerIds).error.None? ==>
      AssociateEach(t, eventId, playerIds).tables ==
        t.(associations := t.associations + Links(eventId, playerIds))
    ensures AssociateEach(t, eventId, playerIds).error.Some? ==>
      && AssociateEach(t, eventId, playerIds).tables ==
           t.(associations := t.associations + Links(eventId, playerIds[..AssociateEach(t, eventId, playerIds).made - 1]))
      && AddEventPlayerAssociation(AssociateEach(t, eventId, playerIds).tables, eventId,
                                   playerIds[AssociateEach(t, eventId, playerIds).made - 1]).reply ==
           Err(AssociateEach(t, eventId, playerIds).error.value)
    decreases |playerIds|
  {
    AssociateEachKeepsValid(t, eventId, playerIds);
    if AssociateEach(t, eventId, playerIds).error.None? {
      AssociateEachLinksEvery(t, eventId, playerIds);
    } else {
      AssociateEachStopsAtRejection(t, eventId, playerIds);
    }
  }

  /** A loop that ends without a rejection adds one pair per player, in order. */
  lemma {:induction false} AssociateEachLinksEvery(t: Tables, eventId: int, playerIds: seq<int>)
    requires Valid(t) && AssociateEach(t, eventId, playerIds).error.None?
    ensures AssociateEach(t, eventId, playerIds).tables ==
      t.(associations := t.associations + Links(eventId, playerIds))
    decreases |playerIds|
  {
    if playerIds == [] {
      assert t.associations + Links(eventId, []) == t.associations;
    } else {
      var s := AddEventPlayerAssociation(t, eventId, playerIds[0]);
      AddAssociationEffect(t, eventId, playerIds[0]);
      AssociateEachStep(t, eventId, playerIds);
      var rest := playerIds[1..];
      AssociateEachLinksEvery(s.tables, eventId, rest);
      assert Links(eventId, playerIds) == [Association(eventId, playerIds[0])] + Links(eventId, rest);
    }
  }

  /** A loop that ends at a rejection adds the pairs of the calls before it, and the store
      refuses the pair of the last call made. */
  lemma {:induction false} AssociateEachStopsAtRejection(t: Tables, eventId: int, playerIds: seq<int>)
    requires Valid(t) && AssociateEach(t, eventId, playerIds).error.Some?
    ensures AssociateEach(t, eventId, playerIds).tables ==
      t.(associations := t.associations + Links(eventId, playerIds[..AssociateEach(t, eventId, playerIds).made - 1]))
    ensures AddEventPlayerAssociation(AssociateEach(t, eventId, playerIds).tables, eventId,
                                      playerIds[AssociateEach(t, eventId, playerIds).made - 1]).reply ==
      Err(AssociateEach(t, eventId, playerIds).error.value)
    decreases |playerIds|
  {
    var s := AddEventPlayerAssociation(t, eventId, playerIds[0]);
    AddAssociationEffect(t, eventId, playerIds[0]);
    AssociateEachStep(t, eventId, playerIds);
    if s.reply.Err? {
      assert t.associations + Links(eventId, playerIds[..0]) == t.associations;
    } else {
      var rest := playerIds[1..];
      var r := AssociateEach(s.tables, eventId, rest);
      AssociateEachStopsAtRejection(s.tables, eventId, rest);
      var done := r.made - 1;
      assert playerIds[..done + 1] == [playerIds[0]] + rest[..done];
      assert Links(eventId, playerIds[..done + 1]) == [Association(eventId, playerIds[0])] + Links(eventId, rest[..done]);
      assert playerIds[done + 1] == rest[done];
    }
  }

  /** Each checked player is linked when the event exists, the players exist, none is checked
      twice and none is linked to the event yet: every call succeeds. */
  lemma {:induction false} AssociateEachLinksAll(t: Tables, eventId: int, playerIds: seq<int>)
    requires Valid(t) && eventId in EventIds(t.events)
    requires forall k :: 0 <= k < |playerIds| ==> playerIds[k] in PlayerIds(t.players)
    requires forall j, k :: 0 <= j < k < |playerIds| ==> playerIds[j] != playerIds[k]
    requires forall k :: 0 <= k < |playerIds| ==> Association(eventId, playerIds[k]) !in t.associations
    ensures AssociateEach(t, eventId, playerIds).error.None?
    decreases |playerIds|
  {
    if playerIds != [] {
      var s := AddEventPlayerAssociation(t, eventId, playerIds[0]);
      AddAssociationEffect(t, eventId, playerIds[0]);
      var rest := playerIds[1..];
      assert s.tables == t.(associations := t.associations + [Association(eventId, playerIds[0])]);
      forall k | 0 <= k < |rest|
        ensures Association(eventId, rest[k]) !in s.tables.associations
      {
        assert rest[k] == playerIds[k + 1] && playerIds[0] != playerIds[k + 1];
      }
      assert EventIds(s.tables.events) == EventIds(t.events);
      AssociateEachLinksAll(s.tables, eventId, rest);
    }
  }

  /** A new event id has no association in a consistent store. */
  lemma FreshEventUnlinked(t: Tables, eventId: int, playerId: int)
    requires Valid(t) && eventId !in EventIds(t.events)
    ensures Association(eventId, playerId) !in t.associations
  {
  }

  /** Everything `tagEvent` does: the tables afterwards, how it ends, and the store calls made. */
  datatype TagRun = TagRun(tables: Tables, outcome: TagOutcome, calls: seq<StoreCall>)

  /** The annotation step, once every call succeeded: no label without the annotation plugin;
      with it, the label of the type found in `eventTypes`, or a `TypeError` when none has the
      id. */
  function Annotate(eventId: int, eventTypeId: int, selected: seq<int>, eventTypes: seq<EventType>,
                    players: seq<Player>, annotations: bool): TagOutcome
  {
    if !annotations then Tagged(eventId, None)
    else
      match LookupEventType(eventTypes, eventTypeId)
      case None => LabelFailed
      case Some(et) => Tagged(eventId, Some(TagLabel(et.name, SelectedNames(selected, players))))
  }

  /** `tagEvent(eventTypeId)` with `currentVideoId`, the player's current time, the checked
      player ids in checkbox order, and the renderer's `eventTypes` and `players` lists; `None`
      as the type id stands for `NaN`. */
  function Tag(t: Tables, currentVideoId: Option<int>, eventTypeId: Option<int>, timestamp: real,
               selected: seq<int>, eventTypes: seq<EventType>, players: seq<Player>, annotations: bool): (r: TagRun)
    ensures r.calls == [] <==> !TruthyId(currentVideoId) || eventTypeId.None?
    ensures r.calls == [] ==> r.tables == t
    ensures !TruthyId(currentVideoId) ==> r.outcome == NoVideo
    ensures TruthyId(currentVideoId) && eventTypeId.None? ==> r.outcome == NoEventType
    ensures r.calls != [] ==>
      && r.calls[0] == AddEventCall(currentVideoId.value, eventTypeId.value, timestamp)
      && |r.calls| <= 1 + |selected|
      && (|r.calls| > 1 ==> r.calls[1].AddAssociationCall? && r.calls[1].eventId == NewRowId(t.events, EventId))
      && (|r.calls| > 1 ==> forall k :: 1 <= k < |r.calls| ==>
            r.calls[k] == AddAssociationCall(r.calls[1].eventId, selected[k - 1]))
  {
    if !TruthyId(currentVideoId) then TagRun(t, NoVideo, [])
    else if eventTypeId.None? then TagRun(t, NoEventType, [])
    else
      var videoId, typeId := currentVideoId.value, eventTypeId.value;
      var first := AddEventCall(videoId, typeId, timestamp);
      var s := AddEvent(t, videoId, typeId, Some(timestamp));
      match s.reply
      case Err(e) => TagRun(s.tables, StoreFailed(e), [first])
      case Ok(event) =>
        var r := AssociateEach(s.tables, event.id, selected);
        var calls := [first] + AssociationCalls(event.id, selected[..r.made]);
        if r.error.Some? then TagRun(r.tables, StoreFailed(r.error.value), calls)
        else TagRun(r.tables, Annotate(event.id, typeId, selected, eventTypes, players, annotations), calls)
  }

  /** Tagging keeps the store consistent, whatever happens. */
  lemma TagKeepsValid(t: Tables, currentVideoId: Option<int>, eventTypeId: Option<int>, timestamp: real,
                      selected: seq<int>, eventTypes: seq<EventType>, players: seq<Player>, annotations: bool)
    requires Valid(t)
    ensures Valid(Tag(t, currentVideoId, eventTypeId, timestamp, selected, eventTypes, players, annotations).tables)
  {
    if TruthyId(currentVideoId) && eventTypeId.Some? {
      var s := AddEvent(t, currentVideoId.value, eventTypeId.value, Some(timestamp));
      AddEventEffect(t, currentVideoId.value, eventTypeId.value, Some(timestamp));
      if s.reply.Ok? {
        AssociateEachEffect(s.tables, s.reply.value.id, selected);
      }
    }
  }

  /** With a loaded video and a type that are both stored, tagging stores one new event at the
      current time and links it, in checkbox order, to every checked player, provided the
      players exist and none is checked twice; the calls are that one `db-add-event` and one
      `db-add-event-player-association` per player, each with the new event's id. */
  lemma TagStoresEventAndLinks(t: Tables, videoId: int, eventTypeId: int, timestamp: real,
                               selected: seq<int>, eventTypes: seq<EventType>, players: seq<Player>, annotations: bool)
    requires Valid(t) && videoId != 0
    requires videoId in VideoIds(t.videos) && eventTypeId in EventTypeIds(t.eventTypes)
    requires forall k :: 0 <= k < |selected| ==> selected[k] in PlayerIds(t.players)
    requires forall j, k :: 0 <= j < k < |selected| ==> selected[j] != selected[k]
    ensures var r := Tag(t, Some(videoId), Some(eventTypeId), timestamp, selected, eventTypes, players, annotations);
      var id := NewRowId(t.events, EventId);
      && id !in EventIds(t.events)
      && r.tables == t.(events := t.events + [Event(id, videoId, eventTypeId, timestamp)],
                        associations := t.associations + Links(id, selected))
      && r.calls == [AddEventCall(videoId, eventTypeId, timestamp)] + AssociationCalls(id, selected)
      && r.outcome == Annotate(id, eventTypeId, selected, eventTypes, players, annotations)
  {
    var s := AddEvent(t, videoId, eventTypeId, Some(timestamp));
    AddEventEffect(t, videoId, eventTypeId, Some(timestamp));
    var id := s.reply.value.id;
    assert id == NewRowId(t.events, EventId);
    forall k | 0 <= k < |selected|
      ensures Association(id, selected[k]) !in s.tables.associations
    {
      FreshEventUnlinked(t, id, selected[k]);
    }
    assert id in EventIds(s.tables.events) by {
      assert s.reply.value in s.tables.events;
    }
    AssociateEachLinksAll(s.tables, id, selected);
    AssociateEachEffect(s.tables, id, selected);
    assert selected[..|selected|] == selected;
  }

  /** When the video or the type is not stored, `db-add-event` is rejected by a foreign key:
      it is the only call, and nothing is stored. */
  lemma TagRejectedEvent(t: Tables, videoId: int, eventTypeId: int, timestamp: real,
                         selected: seq<int>, eventTypes: seq<EventType>, players: seq<Player>, annotations: bool)
    requires Valid(t) && videoId != 0
    requires videoId !in VideoIds(t.videos) || eventTypeId !in EventTypeIds(t.eventTypes)
    ensures Tag(t, Some(videoId), Some(eventTypeId), timestamp, selected, eventTypes, players, annotations) ==
      TagRun(t, StoreFailed(ForeignKeyFailed), [AddEventCall(videoId, eventTypeId, timestamp)])
  {
    AddEventEffect(t, videoId, eventTypeId, Some(timestamp));
  }

  /** When a checked player has been deleted meanwhile, its call is rejected and the loop stops
      there; the new event and the links made before it stay stored. */
  lemma TagStopsAtMissingPlayer(t: Tables, videoId: int, eventTypeId: int, timestamp: real,
                                selected: seq<int>, eventTypes: seq<EventType>, players: seq<Player>, annotations: bool)
    requires Valid(t) && videoId != 0
    requires videoId in VideoIds(t.videos) && eventTypeId in EventTypeIds(t.eventTypes)
    requires |selected| >= 1 && selected[0] !in PlayerIds(t.players)
    ensures var id := NewRowId(t.events, EventId);
      Tag(t, Some(videoId), Some(eventTypeId), timestamp, selected, eventTypes, players, annotations) ==
        TagRun(t.(events := t.events + [Event(id, videoId, eventTypeId, timestamp)]),
               StoreFailed(ForeignKeyFailed),
               [AddEventCall(videoId, eventTypeId, timestamp), AddAssociationCall(id, selected[0])])
  {
    var s := AddEvent(t, videoId, eventTypeId, Some(timestamp));
    AddEventEffect(t, videoId, eventTypeId, Some(timestamp));
    var id := s.reply.value.id;
    AddAssociationEffect(s.tables, id, selected[0]);
    assert PlayerIds(s.tables.players) == PlayerIds(t.players);
    FreshEventUnlinked(t, id, selected[0]);
    assert selected[..1] == [selected[0]];
  }

  /** The annotation label, when there is one, is the tagged type's name followed by the
      checked players' names, or the name alone when those names join to nothing. */
  lemma AnnotateLabel(eventId: int, eventTypeId: int, selected: seq<int>, eventTypes: seq<EventType>,
                      players: seq<Player>, annotations: bool)
    ensures var o := Annotate(eventId, eventTypeId, selected, eventTypes, players, annotations);
      && (o == LabelFailed <==> annotations && eventTypeId !in EventTypeIds(eventTypes))
      && (o.Tagged? ==> o.eventId == eventId && (o.annotation.Some? <==> annotations))
      && (o.Tagged? && o.annotation.Some? ==>
            exists et :: et in eventTypes && et.id == eventTypeId &&
              o.annotation.value == (if Join(SelectedNames(selected, players), ", ") == "" then et.name
                                else et.name + ": " + Join(SelectedNames(selected, players), ", ")))
      && (o.Tagged? && o.annotation.Some? && selected == [] ==>
            exists et :: et in eventTypes && et.id == eventTypeId && o.annotation.value == et.name)
  {
    assert Join([], ", ") == "";
  }

  /** `tagEvent` run against the store: the guards, `db-add-event`, the association loop that
      a rejection leaves, and the annotation. It does exactly what `Tag` describes. */
  method TagEvent(db: Db.Database, currentVideoId: Option<int>, eventTypeId: Option<int>, timestamp: real,
                  selected: seq<int>, eventTypes: seq<EventType>, players: seq<Player>, annotations: bool)
    returns (outcome: TagOutcome, calls: seq<StoreCall>)
    requires db.Valid()
    modifies db
    ensures db.Valid()
    ensures TagRun(db.State(), outcome, calls) ==
      Tag(old(db.State()), currentVideoId, eventTypeId, timestamp, selected, eventTypes, players, annotations)
  {
    if !TruthyId(currentVideoId) {
      return NoVideo, [];
    }
    if eventTypeId.None? {
      return NoEventType, [];
    }
    var videoId, typeId := currentVideoId.value, eventTypeId.value;
    calls := [AddEventCall(videoId, typeId, timestamp)];
    var added := db.AddEvent(videoId, typeId, Some(timestamp));
    if added.Err? {
      return StoreFailed(added.error), calls;
    }
    var eventId := added.value.id;
    var error, linked := AssociatePlayers(db, eventId, selected);
    calls := calls + linked;
    if error.Some? {
      return StoreFailed(error.value), calls;
    }
    outcome := Annotate(eventId, typeId, selected, eventTypes, players, annotations);
  }

  /** The association loop of `tagEvent`: one awaited `db-add-event-player-association` per
      checked player, in order, stopping at the first rejection. It does what `AssociateEach`
      describes, and the calls made are those for the players it reached. */
  method AssociatePlayers(db: Db.Database, eventId: int, playerIds: seq<int>)
    returns (error: Option<DbError>, calls: seq<StoreCall>)
    requires db.Valid()
    modifies db
    ensures db.Valid()
    ensures AssociateEach(old(db.State()), eventId, playerIds) == Associated(db.State(), |calls|, error)
    ensures |calls| <= |playerIds| && calls == AssociationCalls(eventId, playerIds[..|calls|])
  {
    ghost var whole := AssociateEach(db.State(), eventId, playerIds);
    calls := [];
    for k := 0 to |playerIds|
      invariant db.Valid()
      invariant calls == AssociationCalls(eventId, playerIds[..k])
      invariant whole == Shifted(AssociateEach(db.State(), eventId, playerIds[k..]), k)
    {
      ghost var before := db.State();
      AssociateEachStep(before, eventId, playerIds[k..]);
      assert playerIds[k..][0] == playerIds[k] && playerIds[k..][1..] == playerIds[k + 1..];
      var reply := db.AddEventPlayerAssociation(eventId, playerIds[k]);
      assert playerIds[..k + 1] == playerIds[..k] + [playerIds[k]];
      calls := calls + [AddAssociationCall(eventId, playerIds[k])];
      if reply.Err? {
        return Some(reply.error), calls;
      }
    }
    assert playerIds[..|playerIds|] == playerIds;
    error := None;
  }

  /** The outcome of a loop that had already made `k` calls before it began. */
  function Shifted(r: Associated, k: nat): Associated
  {
    Associated(r.tables, r.made + k, r.error)
  }

  /** One turn of the association loop: the first call's rejection ends it after one call;
      otherwise the rest runs on the store that call left. */
  lemma AssociateEachStep(t: Tables, eventId: int, playerIds: seq<int>)
    requires playerIds != []
    ensures AddEventPlayerAssociation(t, eventId, playerIds[0]).reply.Err? ==>
      AssociateEach(t, eventId, playerIds) ==
        Associated(AddEventPlayerAssociation(t, eventId, playerIds[0]).tables, 1,
                   Some(AddEventPlayerAssociation(t, eventId, playerIds[0]).reply.error))
    ensures AddEventPlayerAssociation(t, eventId, playerIds[0]).reply.Ok? ==>
      AssociateEach(t, eventId, playerIds) ==
        Shifted(AssociateEach(AddEventPlayerAssociation(t, eventId, playerIds[0]).tables, eventId, playerIds[1..]), 1)
  {
  }
}

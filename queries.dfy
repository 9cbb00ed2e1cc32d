/** The read-only handlers of src/database/db.js: `db-get-players`, `db-get-event-types`,
    `db-get-videos`, `db-get-player-events` and `db-get-video-events`, each a view of the
    tables computed by a scan, joins and an `ORDER BY`. */
module Queries {
  import opened Js
  import opened Text
  import opened Seqs
  import opened Schema
  import opened PlayerList

  predicate PlayerNameLe(a: Player, b: Player)
  {
    LexLe(a.name, b.name)
  }

  predicate EventTypeNameLe(a: EventType, b: EventType)
  {
    LexLe(a.name, b.name)
  }

  lemma PlayerNameLeIsOrder()
    ensures TotalPreorder(PlayerNameLe)
  {
    forall a: Player, b: Player
      ensures PlayerNameLe(a, b) || PlayerNameLe(b, a)
    {
      LexLeTotal(a.name, b.name);
    }
    forall a: Player, b: Player, c: Player | PlayerNameLe(a, b) && PlayerNameLe(b, c)
      ensures PlayerNameLe(a, c)
    {
      LexLeTransitive(a.name, b.name, c.name);
    }
  }

  lemma EventTypeNameLeIsOrder()
    ensures TotalPreorder(EventTypeNameLe)
  {
    forall a: EventType, b: EventType
      ensures EventTypeNameLe(a, b) || EventTypeNameLe(b, a)
    {
      LexLeTotal(a.name, b.name);
    }
    forall a: EventType, b: EventType, c: EventType | EventTypeNameLe(a, b) && EventTypeNameLe(b, c)
      ensures EventTypeNameLe(a, c)
    {
      LexLeTransitive(a.name, b.name, c.name);
    }
  }

  /** `db-get-players`: `SELECT * FROM players ORDER BY name` returns every row once, in
      ascending name order. */
  function GetPlayers(t: Tables): (rows: seq<Player>)
    ensures multiset(rows) == multiset(t.players)
    ensures forall i, j :: 0 <= i < j < |rows| ==> LexLe(rows[i].name, rows[j].name)
  {
    PlayerNameLeIsOrder();
    Sort(t.players, PlayerNameLe)
  }

  /** `db-get-event-types`: `SELECT * FROM event_types ORDER BY name` returns every row once,
      in ascending name order. */
  function GetEventTypes(t: Tables): (rows: seq<EventType>)
    ensures multiset(rows) == multiset(t.eventTypes)
    ensures forall i, j :: 0 <= i < j < |rows| ==> LexLe(rows[i].name, rows[j].name)
  {
    EventTypeNameLeIsOrder();
    Sort(t.eventTypes, EventTypeNameLe)
  }

  /** `db-get-videos`: `SELECT * FROM videos` with no `ORDER BY`, a scan of the table in rowid
      order. In a consistent store no two rows share an id or a file path. */
  function GetVideos(t: Tables): (rows: seq<Video>)
    ensures multiset(rows) == multiset(t.videos)
    ensures Valid(t) ==>
      forall i, j :: 0 <= i < j < |rows| ==> rows[i].id < rows[j].id && rows[i].filePath != rows[j].filePath
  {
    t.videos
  }

  /** The row a join on `v.id = e.video_id` pairs an event with. */
  function LookupVideo(vs: seq<Video>, id: int): (r: Option<Video>)
    ensures r.Some? ==> r.value in vs && r.value.id == id
    ensures r.None? <==> id !in VideoIds(vs)
  {
    if vs == [] then None
    else if vs[0].id == id then Some(vs[0])
    else
      assert forall v :: v in vs <==> v == vs[0] || v in vs[1..];
      LookupVideo(vs[1..], id)
  }

  /** The row a join on `et.id = e.event_type_id` pairs an event with. */
  function LookupEventType(ts: seq<EventType>, id: int): (r: Option<EventType>)
    ensures r.Some? ==> r.value in ts && r.value.id == id
    ensures r.None? <==> id !in EventTypeIds(ts)
  {
    if ts == [] then None
    else if ts[0].id == id then Some(ts[0])
    else
      assert forall et :: et in ts <==> et == ts[0] || et in ts[1..];
      LookupEventType(ts[1..], id)
  }

  /** The row a join on `p.id = epa.player_id` pairs an association with. */
  function LookupPlayer(ps: seq<Player>, id: int): (r: Option<Player>)
    ensures r.Some? ==> r.value in ps && r.value.id == id
    ensures r.None? <==> id !in PlayerIds(ps)
  {
    if ps == [] then None
    else if ps[0].id == id then Some(ps[0])
    else
      assert forall p :: p in ps <==> p == ps[0] || p in ps[1..];
      LookupPlayer(ps[1..], id)
  }

  /** With ascending ids the join finds the one player with that id. */
  lemma LookupPlayerFinds(ps: seq<Player>, p: Player)
    requires Pairwise(ps, PlayerIdBefore)
    requires p in ps
    ensures LookupPlayer(ps, p.id) == Some(p)
  {
    var q := LookupPlayer(ps, p.id).value;
    var i :| 0 <= i < |ps| && ps[i] == p;
    var j :| 0 <= j < |ps| && ps[j] == q;
    assert i == j;
  }

  // ---------------------------------------------------------------------------------------
  // db-get-player-events

  /** One row of `db-get-player-events`. */
  datatype PlayerEventRow = PlayerEventRow(
    id: int, timestamp: real, videoId: int, filePath: string, eventTypeName: string, eventTypeId: int)

  function PlayerEventRowId(r: PlayerEventRow): int { r.id }

  /** The row the join of `events`, `event_player_associations`, `videos` and `event_types`
      with `epa.player_id = playerId` makes of event `e`: one when the player is associated
      with it and its video and type exist, none otherwise (the pair `(e.id, playerId)` is a
      primary key, so there is never more than one). */
  function PlayerEventRowFor(t: Tables, playerId: int, e: Event): (r: Option<PlayerEventRow>)
    ensures r.Some? <==>
      Association(e.id, playerId) in t.associations
      && e.videoId in VideoIds(t.videos) && e.eventTypeId in EventTypeIds(t.eventTypes)
    ensures r.Some? ==>
      && r.value.id == e.id && r.value.timestamp == e.timestamp
      && r.value.videoId == e.videoId && r.value.eventTypeId == e.eventTypeId
      && Video(e.videoId, r.value.filePath) in t.videos
      && EventType(e.eventTypeId, r.value.eventTypeName, LookupEventType(t.eventTypes, e.eventTypeId).value.isCustom) in t.eventTypes
  {
    if Association(e.id, playerId) !in t.associations then None
    else
      match (LookupVideo(t.videos, e.videoId), LookupEventType(t.eventTypes, e.eventTypeId))
      case (Some(v), Some(et)) =>
        Some(PlayerEventRow(e.id, e.timestamp, e.videoId, v.filePath, et.name, et.id))
      case _ => None
  }

  function PlayerEventRows(t: Tables, playerId: int): Event -> Option<PlayerEventRow>
  {
    e => PlayerEventRowFor(t, playerId, e)
  }

  /** `ORDER BY v.file_path, e.timestamp` */
  predicate PathTimeLe(a: PlayerEventRow, b: PlayerEventRow)
  {
    if a.filePath == b.filePath then a.timestamp <= b.timestamp else LexLe(a.filePath, b.filePath)
  }

  lemma PathTimeLeIsOrder()
    ensures TotalPreorder(PathTimeLe)
  {
    forall a: PlayerEventRow, b: PlayerEventRow
      ensures PathTimeLe(a, b) || PathTimeLe(b, a)
    {
      LexLeTotal(a.filePath, b.filePath);
    }
    forall a: PlayerEventRow, b: PlayerEventRow, c: PlayerEventRow | PathTimeLe(a, b) && PathTimeLe(b, c)
      ensures PathTimeLe(a, c)
    {
      if a.filePath != b.filePath && b.filePath != c.filePath {
        LexLeTransitive(a.filePath, b.filePath, c.filePath);
        if a.filePath == c.filePath {
          LexLeAntisymmetric(a.filePath, b.filePath);
        }
      }
    }
  }

  /** `db-get-player-events`: the player's events with their video's path and their type's
      name, ordered by path and, within a path, by timestamp. */
  function GetPlayerEvents(t: Tables, playerId: int): (rows: seq<PlayerEventRow>)
    ensures forall i, j :: 0 <= i < j < |rows| ==>
      LexLe(rows[i].filePath, rows[j].filePath)
      && (rows[i].filePath == rows[j].filePath ==> rows[i].timestamp <= rows[j].timestamp)
  {
    PathTimeLeIsOrder();
    var rows := Sort(Collect(t.events, PlayerEventRows(t, playerId)), PathTimeLe);
    assert forall i, j :: 0 <= i < j < |rows| ==> PathTimeLe(rows[i], rows[j]);
    forall i, j | 0 <= i < j < |rows|
      ensures LexLe(rows[i].filePath, rows[j].filePath)
    {
      if rows[i].filePath == rows[j].filePath {
        LexLeTotal(rows[i].filePath, rows[j].filePath);
      }
    }
    rows
  }

  /** In a consistent store every event has its video and its type. */
  lemma EventsJoin(t: Tables, e: Event)
    requires Valid(t) && e in t.events
    ensures e.videoId in VideoIds(t.videos) && e.eventTypeId in EventTypeIds(t.eventTypes)
  {
  }

  /** Every row of `db-get-player-events` is made of an event the player is associated with. */
  lemma GetPlayerEventsOrigin(t: Tables, playerId: int, k: int)
    requires 0 <= k < |GetPlayerEvents(t, playerId)|
    ensures exists e :: e in t.events && PlayerEventRowFor(t, playerId, e) == Some(GetPlayerEvents(t, playerId)[k])
  {
    var f := PlayerEventRows(t, playerId);
    var scan := Collect(t.events, f);
    var rows := GetPlayerEvents(t, playerId);
    PathTimeLeIsOrder();
    assert multiset(rows) == multiset(scan);
    assert rows[k] in multiset(scan);
    CollectMembers(t.events, f);
    assert rows[k] in scan;
    var e :| e in t.events && f(e) == Some(rows[k]);
  }

  /** Every event the player is associated with comes back. */
  lemma GetPlayerEventsCovers(t: Tables, playerId: int, e: Event)
    requires Valid(t) && e in t.events && Association(e.id, playerId) in t.associations
    ensures exists k :: (0 <= k < |GetPlayerEvents(t, playerId)|
      && PlayerEventRowFor(t, playerId, e) == Some(GetPlayerEvents(t, playerId)[k]))
  {
    var f := PlayerEventRows(t, playerId);
    var scan := Collect(t.events, f);
    var rows := GetPlayerEvents(t, playerId);
    PathTimeLeIsOrder();
    assert multiset(rows) == multiset(scan);
    CollectMembers(t.events, f);
    var r := PlayerEventRowFor(t, playerId, e).value;
    assert f(e) == Some(r);
    assert r in multiset(rows);
    var k :| 0 <= k < |rows| && rows[k] == r;
  }

  /** No event comes back twice. */
  lemma GetPlayerEventsDistinct(t: Tables, playerId: int)
    requires Valid(t)
    ensures var rows := GetPlayerEvents(t, playerId);
      forall i, j :: 0 <= i < j < |rows| ==> rows[i].id != rows[j].id
  {
    var f := PlayerEventRows(t, playerId);
    var scan := Collect(t.events, f);
    var rows := GetPlayerEvents(t, playerId);
    PathTimeLeIsOrder();
    assert multiset(rows) == multiset(scan);
    CollectKeys(t.events, f, EventId, PlayerEventRowId);
    PermutedKeysDistinct(scan, rows, PlayerEventRowId);
  }

  // ---------------------------------------------------------------------------------------
  // db-get-video-events

  /** One row of the SQL part of `db-get-video-events`; `players` is the packed column. */
  datatype VideoEventRow = VideoEventRow(
    id: int, timestamp: real, eventTypeId: int, eventTypeName: string, players: Option<string>)

  /** One element of what `db-get-video-events` resolves with. */
  datatype VideoEvent = VideoEvent(
    id: int, timestamp: real, eventTypeId: int, eventTypeName: string, players: seq<ParsedPlayer>)

  /** The player an association of event `eventId` contributes through `LEFT JOIN players`. */
  function PlayerRefFor(t: Tables, eventId: int, a: Association): (r: Option<PlayerRef>)
    ensures r.Some? ==> a.eventId == eventId && r.value.id == a.playerId && Player(r.value.id, r.value.name) in t.players
  {
    if a.eventId != eventId then None
    else
      match LookupPlayer(t.players, a.playerId)
      case Some(p) => Some(PlayerRef(p.id, p.name))
      case None => None
  }

  function PlayerRefs(t: Tables, eventId: int): Association -> Option<PlayerRef>
  {
    a => PlayerRefFor(t, eventId, a)
  }

  /** The players joined to event `eventId`, in association order. An association whose player
      is missing contributes nothing: its `p.id || ':' || p.name` is NULL, which
      `GROUP_CONCAT` skips. */
  function PlayersOf(t: Tables, eventId: int): seq<PlayerRef>
  {
    Collect(t.associations, PlayerRefs(t, eventId))
  }

  /** The players joined to an event are exactly the players associated with it, each once. */
  lemma PlayersOfExact(t: Tables, eventId: int)
    requires Valid(t)
    ensures var ps := PlayersOf(t, eventId);
      && (forall p: PlayerRef :: p in ps <==>
            Player(p.id, p.name) in t.players && Association(eventId, p.id) in t.associations)
      && (forall i, j :: 0 <= i < j < |ps| ==> ps[i].id != ps[j].id)
  {
    var f := PlayerRefs(t, eventId);
    CollectMembers(t.associations, f);
    forall p: PlayerRef | Player(p.id, p.name) in t.players && Association(eventId, p.id) in t.associations
      ensures p in PlayersOf(t, eventId)
    {
      LookupPlayerFinds(t.players, Player(p.id, p.name));
      assert f(Association(eventId, p.id)) == Some(p);
    }
    PlayersOfDistinct(t, eventId, t.associations);
    assert PlayersOf(t, eventId) == Collect(t.associations, f);
  }

  lemma {:induction false} PlayersOfDistinct(t: Tables, eventId: int, assocs: seq<Association>)
    requires Pairwise(assocs, AssociationsDiffer)
    ensures forall i, j :: 0 <= i < j < |Collect(assocs, PlayerRefs(t, eventId))| ==>
      Collect(assocs, PlayerRefs(t, eventId))[i].id != Collect(assocs, PlayerRefs(t, eventId))[j].id
  {
    if assocs != [] {
      var f := PlayerRefs(t, eventId);
      var tail := assocs[1..];
      assert Pairwise(tail, AssociationsDiffer) by {
        forall i, j | 0 <= i < j < |tail|
          ensures AssociationsDiffer(tail[i], tail[j])
        {
          assert tail[i] == assocs[i + 1] && tail[j] == assocs[j + 1];
        }
      }
      PlayersOfDistinct(t, eventId, tail);
      var rest := Collect(tail, f);
      var ps := Collect(assocs, f);
      if f(assocs[0]).Some? {
        forall i, j | 0 <= i < j < |ps|
          ensures ps[i].id != ps[j].id
        {
          assert ps[j] == rest[j - 1];
          if i == 0 {
            CollectOrigin(tail, f, j - 1);
            var m :| 0 <= m < |tail| && f(tail[m]) == Some(rest[j - 1]);
            assert tail[m] == assocs[m + 1];
            assert AssociationsDiffer(assocs[0], assocs[m + 1]);
            var p0 := PlayerRefFor(t, eventId, assocs[0]);
            var pm := PlayerRefFor(t, eventId, tail[m]);
            assert f(assocs[0]) == p0 && f(tail[m]) == pm;
            assert ps[0] == p0.value && rest[j - 1] == pm.value;
            assert p0.value.id == assocs[0].playerId && pm.value.id == tail[m].playerId;
            assert assocs[0].eventId == eventId && tail[m].eventId == eventId;
          } else {
            assert ps[i] == rest[i - 1];
          }
        }
      }
    }
  }

  /** The row `GROUP BY e.id` makes of event `e` of the video: none for another video's event
      or one whose type is missing (the inner join on `event_types`). */
  function VideoEventRowFor(t: Tables, videoId: int, e: Event): (r: Option<VideoEventRow>)
    ensures r.Some? <==> e.videoId == videoId && e.eventTypeId in EventTypeIds(t.eventTypes)
    ensures r.Some? ==>
      && r.value.id == e.id && r.value.timestamp == e.timestamp && r.value.eventTypeId == e.eventTypeId
      && r.value.players == Pack(PlayersOf(t, e.id))
      && EventType(e.eventTypeId, r.value.eventTypeName, LookupEventType(t.eventTypes, e.eventTypeId).value.isCustom) in t.eventTypes
  {
    if e.videoId != videoId then None
    else
      match LookupEventType(t.eventTypes, e.eventTypeId)
      case Some(et) => Some(VideoEventRow(e.id, e.timestamp, e.eventTypeId, et.name, Pack(PlayersOf(t, e.id))))
      case None => None
  }

  function VideoEventRows(t: Tables, videoId: int): Event -> Option<VideoEventRow>
  {
    e => VideoEventRowFor(t, videoId, e)
  }

  function VideoEventRowId(r: VideoEventRow): int { r.id }

  /** `ORDER BY e.timestamp` */
  predicate TimestampLe(a: VideoEventRow, b: VideoEventRow)
  {
    a.timestamp <= b.timestamp
  }

  /** The query of `db-get-video-events`: one row per event of the video, in timestamp order. */
  function SelectVideoEvents(t: Tables, videoId: int): (rows: seq<VideoEventRow>)
    ensures forall i, j :: 0 <= i < j < |rows| ==> rows[i].timestamp <= rows[j].timestamp
  {
    assert TotalPreorder(TimestampLe);
    Sort(Collect(t.events, VideoEventRows(t, videoId)), TimestampLe)
  }

  /** The `rows.map(...)` step: the packed column becomes a list of `{id, name}`. */
  function Unpack(row: VideoEventRow): VideoEvent
  {
    VideoEvent(row.id, row.timestamp, row.eventTypeId, row.eventTypeName, Parse(row.players))
  }

  /** `db-get-video-events`, as written: the players come from unpacking the packed column. */
  function GetVideoEvents(t: Tables, videoId: int): (events: seq<VideoEvent>)
    ensures forall i, j :: 0 <= i < j < |events| ==> events[i].timestamp <= events[j].timestamp
  {
    var rows := SelectVideoEvents(t, videoId);
    seq(|rows|, k requires 0 <= k < |rows| => Unpack(rows[k]))
  }

  /** `db-get-video-events` as evidently intended: each event's players taken from the joined
      rows themselves, so every name comes back whole whatever characters it holds. */
  function GetVideoEventsDirect(t: Tables, videoId: int): (events: seq<VideoEvent>)
    ensures forall i, j :: 0 <= i < j < |events| ==> events[i].timestamp <= events[j].timestamp
    ensures forall k :: 0 <= k < |events| ==> events[k].players == DecodedAll(PlayersOf(t, events[k].id))
  {
    var rows := SelectVideoEvents(t, videoId);
    seq(|rows|, k requires 0 <= k < |rows| =>
      VideoEvent(rows[k].id, rows[k].timestamp, rows[k].eventTypeId, rows[k].eventTypeName,
                 DecodedAll(PlayersOf(t, rows[k].id))))
  }

  /** Every row of the query is made of an event of the video. */
  lemma SelectVideoEventsOrigin(t: Tables, videoId: int, k: int)
    requires 0 <= k < |SelectVideoEvents(t, videoId)|
    ensures exists e :: e in t.events && VideoEventRowFor(t, videoId, e) == Some(SelectVideoEvents(t, videoId)[k])
  {
    var f := VideoEventRows(t, videoId);
    var rows := SelectVideoEvents(t, videoId);
    var scan := Collect(t.events, f);
    assert TotalPreorder(TimestampLe);
    assert multiset(rows) == multiset(scan);
    assert rows[k] in multiset(scan);
    CollectMembers(t.events, f);
    assert rows[k] in scan;
    var e :| e in t.events && f(e) == Some(rows[k]);
  }

  /** Every element of `db-get-video-events` is made of an event of the video. */
  lemma GetVideoEventsOrigin(t: Tables, videoId: int, k: int)
    requires 0 <= k < |GetVideoEvents(t, videoId)|
    ensures exists e :: (e in t.events && e.videoId == videoId
      && GetVideoEvents(t, videoId)[k].id == e.id
      && GetVideoEvents(t, videoId)[k].timestamp == e.timestamp
      && GetVideoEvents(t, videoId)[k].eventTypeId == e.eventTypeId
      && LookupEventType(t.eventTypes, e.eventTypeId).Some?
      && LookupEventType(t.eventTypes, e.eventTypeId).value.name == GetVideoEvents(t, videoId)[k].eventTypeName)
  {
    var rows := SelectVideoEvents(t, videoId);
    SelectVideoEventsOrigin(t, videoId, k);
    var e :| e in t.events && VideoEventRowFor(t, videoId, e) == Some(rows[k]);
    var ev := GetVideoEvents(t, videoId)[k];
    assert ev == Unpack(rows[k]);
  }

  /** Every event of the video comes back, with its timestamp and type. */
  lemma GetVideoEventsCovers(t: Tables, videoId: int, e: Event)
    requires Valid(t) && e in t.events && e.videoId == videoId
    ensures exists k :: (0 <= k < |GetVideoEvents(t, videoId)|
      && GetVideoEvents(t, videoId)[k].id == e.id
      && GetVideoEvents(t, videoId)[k].timestamp == e.timestamp
      && GetVideoEvents(t, videoId)[k].eventTypeId == e.eventTypeId)
  {
    var f := VideoEventRows(t, videoId);
    var scan := Collect(t.events, f);
    var rows := SelectVideoEvents(t, videoId);
    assert TotalPreorder(TimestampLe);
    assert multiset(rows) == multiset(scan);
    CollectMembers(t.events, f);
    var r := VideoEventRowFor(t, videoId, e).value;
    assert f(e) == Some(r);
    assert r in multiset(rows);
    var k :| 0 <= k < |rows| && rows[k] == r;
    assert GetVideoEvents(t, videoId)[k] == Unpack(r);
  }

  /** No event has two rows in the query. */
  lemma SelectVideoEventsDistinct(t: Tables, videoId: int)
    requires Valid(t)
    ensures forall i, j :: 0 <= i < j < |SelectVideoEvents(t, videoId)| ==>
      SelectVideoEvents(t, videoId)[i].id != SelectVideoEvents(t, videoId)[j].id
  {
    var f := VideoEventRows(t, videoId);
    var scan := Collect(t.events, f);
    var rows := SelectVideoEvents(t, videoId);
    assert TotalPreorder(TimestampLe);
    assert multiset(rows) == multiset(scan);
    CollectKeys(t.events, f, EventId, VideoEventRowId);
    PermutedKeysDistinct(scan, rows, VideoEventRowId);
  }

  /** No event comes back twice. */
  lemma GetVideoEventsDistinct(t: Tables, videoId: int)
    requires Valid(t)
    ensures forall i, j :: 0 <= i < j < |GetVideoEvents(t, videoId)| ==>
      GetVideoEvents(t, videoId)[i].id != GetVideoEvents(t, videoId)[j].id
  {
    SelectVideoEventsDistinct(t, videoId);
  }

  /** An event nobody is associated with comes back with an empty `players` list: its packed
      column is NULL, which the handler leaves as `[]`. */
  lemma UnassociatedEventHasNoPlayers(t: Tables, videoId: int, k: int)
    requires 0 <= k < |GetVideoEvents(t, videoId)|
    requires forall a :: a in t.associations ==> a.eventId != GetVideoEvents(t, videoId)[k].id
    ensures GetVideoEvents(t, videoId)[k].players == []
  {
    var rows := SelectVideoEvents(t, videoId);
    SelectVideoEventsOrigin(t, videoId, k);
    var e :| e in t.events && VideoEventRowFor(t, videoId, e) == Some(rows[k]);
    var f := PlayerRefs(t, e.id);
    CollectNone(t.associations, f);
  }

  /** Round trip of tagging and reloading: while no player's name holds ':' or ';', each event of
      the video comes back with exactly the players associated with it, each once, in association
      order, with their ids and whole names. */
  lemma GetVideoEventsListsPlayers(t: Tables, videoId: int, k: int)
    requires forall p :: p in t.players ==> CleanName(p.name)
    requires 0 <= k < |GetVideoEvents(t, videoId)|
    ensures GetVideoEvents(t, videoId)[k].players == DecodedAll(PlayersOf(t, GetVideoEvents(t, videoId)[k].id))
  {
    VideoEventsAgree(t, videoId);
  }

  /** Agreement: while no player's name holds ':' or ';', the view as written returns exactly
      what the direct one does; the packed column then loses nothing. */
  lemma VideoEventsAgree(t: Tables, videoId: int)
    requires forall p :: p in t.players ==> CleanName(p.name)
    ensures GetVideoEvents(t, videoId) == GetVideoEventsDirect(t, videoId)
  {
    var rows := SelectVideoEvents(t, videoId);
    var asWritten := GetVideoEvents(t, videoId);
    var direct := GetVideoEventsDirect(t, videoId);
    forall k | 0 <= k < |rows|
      ensures asWritten[k] == direct[k]
    {
      SelectVideoEventsOrigin(t, videoId, k);
      var e :| e in t.events && VideoEventRowFor(t, videoId, e) == Some(rows[k]);
      var ps := PlayersOf(t, e.id);
      forall i | 0 <= i < |ps|
        ensures CleanName(ps[i].name)
      {
        CollectOrigin(t.associations, PlayerRefs(t, e.id), i);
      }
      ParsePack(ps);
    }
  }
}

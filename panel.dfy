/** The player-events panel of src/renderer/renderer.js (`loadPlayerEvents`): the rows of
    `db-get-player-events` shown under one heading per run of rows of the same video. */
module PlayerEventsPanel {
  import opened Js
  import opened Text
  import opened Seqs
  import opened Schema
  import opened Queries
  import opened Display
  import opened Clock

  /** One `.player-event-item`: its `data-video-id`, its `data-timestamp` and the event type's
      name; the item shows the timestamp as `Shown(item)`. */
  datatype Item = Item(videoId: int, timestamp: real, typeName: string)

  /** One `.player-event-video-container`: the video whose run it holds (the loop's
      `currentVideoId`), its heading and its items. */
  datatype Section = Section(videoId: int, title: string, items: seq<Item>)

  /** What `loadPlayerEvents` leaves in the panel: nothing touched, the empty message
      `No events found for this player`, or the sections. */
  datatype Panel = Unchanged | NoEvents | Sections(sections: seq<Section>)

  function ItemOf(r: PlayerEventRow): Item
  {
    Item(r.videoId, r.timestamp, r.eventTypeName)
  }

  /** The `.event-timestamp` text of an item: its timestamp as `MM:SS`. */
  function Shown(item: Item): string
  {
    FormatTime(item.timestamp)
  }

  function Items(rows: seq<PlayerEventRow>): (items: seq<Item>)
    ensures |items| == |rows|
  {
    seq(|rows|, i requires 0 <= i < |rows| => ItemOf(rows[i]))
  }

  /** The items of the sections, top to bottom. */
  function Flatten(sections: seq<Section>): seq<Item>
  {
    if sections == [] then [] else Flatten(sections[..|sections| - 1]) + sections[|sections| - 1].items
  }

  /** Every section holds a non-empty run of items of its own video and neighbouring sections
      are of different videos: the sections are the maximal runs of one video. */
  predicate Runs(sections: seq<Section>)
  {
    && (forall k :: 0 <= k < |sections| ==> sections[k].items != [])
    && (forall k, m :: 0 <= k < |sections| && 0 <= m < |sections[k].items| ==>
          sections[k].items[m].videoId == sections[k].videoId)
    && (forall k :: 0 < k < |sections| ==> sections[k - 1].videoId != sections[k].videoId)
  }

  /** The file names of the paths the rows give for video `videoId`. */
  function TitlesFor(rows: seq<PlayerEventRow>, videoId: int): set<string>
  {
    set i | 0 <= i < |rows| && rows[i].videoId == videoId :: FileName(rows[i].filePath)
  }

  /** Every heading is the file name of the path of a row of the section's video. */
  predicate Titled(sections: seq<Section>, rows: seq<PlayerEventRow>)
  {
    forall k :: 0 <= k < |sections| ==> sections[k].title in TitlesFor(rows, sections[k].videoId)
  }

  /** `loadPlayerEvents(playerId)` given the rows `db-get-player-events` returns: nothing when
      the id is falsy, the empty message when there is no row, and otherwise the rows in their
      order, a new section opened whenever a row's video differs from the previous row's. */
  method LoadPlayerEvents(playerId: Option<int>, rows: seq<PlayerEventRow>) returns (panel: Panel)
    ensures panel == Unchanged <==> !TruthyId(playerId)
    ensures panel == NoEvents <==> TruthyId(playerId) && rows == []
    ensures panel.Sections? ==>
      Flatten(panel.sections) == Items(rows) && Runs(panel.sections) && Titled(panel.sections, rows)
  {
    if !TruthyId(playerId) {
      return Unchanged;
    }
    if |rows| == 0 {
      return NoEvents;
    }
    var sections: seq<Section> := [];
    var currentVideoId: Option<int> := None;
    for i := 0 to |rows|
      invariant Built(sections, rows, i)
      invariant currentVideoId == if i == 0 then None else Some(rows[i - 1].videoId)
    {
      var row := rows[i];
      ghost var before := sections;
      assert currentVideoId == Some(row.videoId) <==>
        before != [] && before[|before| - 1].videoId == row.videoId;
      if currentVideoId != Some(row.videoId) {
        // a new `.player-event-video-container` headed by the file name, holding the item
        currentVideoId := Some(row.videoId);
        sections := sections + [Section(row.videoId, FileName(row.filePath), [ItemOf(row)])];
      } else {
        // the item goes into the current container
        var n := |sections| - 1;
        sections := sections[..n] + [sections[n].(items := sections[n].items + [ItemOf(row)])];
      }
      assert sections == PlaceRow(before, row);
      PlaceRowStep(before, rows, i);
    }
    assert rows[..|rows|] == rows;
    return Sections(sections);
  }

  /** The sections built from the first `i` rows: their items in order, as maximal runs with
      headings from the rows, the last of the video of the last row placed. */
  predicate Built(sections: seq<Section>, rows: seq<PlayerEventRow>, i: nat)
    requires i <= |rows|
  {
    && Flatten(sections) == Items(rows[..i])
    && Runs(sections) && Titled(sections, rows)
    && (sections == [] <==> i == 0)
    && (i > 0 ==> sections[|sections| - 1].videoId == rows[i - 1].videoId)
  }

  /** Placing the next row extends what was built by one row. */
  lemma PlaceRowStep(sections: seq<Section>, rows: seq<PlayerEventRow>, i: nat)
    requires i < |rows| && Built(sections, rows, i)
    ensures Built(PlaceRow(sections, rows[i]), rows, i + 1)
  {
    PlaceRowFlatten(sections, rows[i]);
    PlaceRowRuns(sections, rows[i]);
    PlaceRowTitled(sections, rows, i);
    assert Items(rows[..i + 1]) == Items(rows[..i]) + [ItemOf(rows[i])];
  }

  /** The sections after `row` is placed: appended to the last section when that is of the
      row's video, otherwise in a new section headed by the row's file name. */
  function PlaceRow(sections: seq<Section>, row: PlayerEventRow): seq<Section>
  {
    if sections != [] && sections[|sections| - 1].videoId == row.videoId then
      var n := |sections| - 1;
      sections[..n] + [sections[n].(items := sections[n].items + [ItemOf(row)])]
    else
      sections + [Section(row.videoId, FileName(row.filePath), [ItemOf(row)])]
  }

  /** Placing a row puts its item after all items placed before. */
  lemma PlaceRowFlatten(sections: seq<Section>, row: PlayerEventRow)
    ensures Flatten(PlaceRow(sections, row)) == Flatten(sections) + [ItemOf(row)]
  {
    var placed := PlaceRow(sections, row);
    if sections != [] && sections[|sections| - 1].videoId == row.videoId {
      var n := |sections| - 1;
      assert placed[..n] == sections[..n];
    } else {
      assert placed[..|sections|] == sections;
    }
  }

  /** Placing a row keeps the sections maximal runs, the last one of the row's video. */
  lemma PlaceRowRuns(sections: seq<Section>, row: PlayerEventRow)
    requires Runs(sections)
    ensures Runs(PlaceRow(sections, row))
    ensures PlaceRow(sections, row)[|PlaceRow(sections, row)| - 1].videoId == row.videoId
  {
    var placed := PlaceRow(sections, row);
    if sections != [] && sections[|sections| - 1].videoId == row.videoId {
      var n := |sections| - 1;
      assert forall k :: 0 <= k < n ==> placed[k] == sections[k];
    } else {
      assert forall k :: 0 <= k < |sections| ==> placed[k] == sections[k];
    }
  }

  /** Placing a row of `rows` keeps every heading the file name of a row of its video. */
  lemma PlaceRowTitled(sections: seq<Section>, rows: seq<PlayerEventRow>, i: nat)
    requires i < |rows| && Titled(sections, rows)
    ensures Titled(PlaceRow(sections, rows[i]), rows)
  {
    var placed := PlaceRow(sections, rows[i]);
    assert FileName(rows[i].filePath) in TitlesFor(rows, rows[i].videoId);
    forall k | 0 <= k < |placed|
      ensures placed[k].title in TitlesFor(rows, placed[k].videoId)
    {
      if k < |sections| {
        assert placed[k].videoId == sections[k].videoId && placed[k].title == sections[k].title;
      }
    }
  }

  /** Any two items of the same video enclose only items of that video. */
  predicate Contiguous(items: seq<Item>)
  {
    forall a, b, c :: 0 <= a < b < c < |items| && items[a].videoId == items[c].videoId ==>
      items[b].videoId == items[a].videoId
  }

  /** The first item of a non-empty section is somewhere in the flattened panel. */
  lemma {:induction false} FlattenHolds(sections: seq<Section>, k: nat)
    requires k < |sections| && sections[k].items != []
    ensures exists a :: 0 <= a < |Flatten(sections)| && Flatten(sections)[a] == sections[k].items[0]
    decreases |sections|
  {
    var n := |sections| - 1;
    var front := sections[..n];
    var init := Flatten(front);
    if k < n {
      assert front[k] == sections[k];
      FlattenHolds(front, k);
      var a :| 0 <= a < |init| && init[a] == sections[k].items[0];
      assert Flatten(sections)[a] == init[a];
    } else {
      assert Flatten(sections)[|init|] == sections[k].items[0];
    }
  }

  /** When the items of a video are contiguous, the maximal runs give each video one section. */
  lemma {:induction false} RunsOfContiguousAreDistinct(sections: seq<Section>)
    requires Runs(sections) && Contiguous(Flatten(sections))
    ensures forall j, k :: 0 <= j < k < |sections| ==> sections[j].videoId != sections[k].videoId
    decreases |sections|
  {
    if sections != [] {
      var n := |sections| - 1;
      var front := sections[..n];
      var all := Flatten(sections);
      var init := Flatten(front);
      assert all == init + sections[n].items;
      assert Runs(front);
      assert Contiguous(init) by {
        forall a, b, c | 0 <= a < b < c < |init| && init[a].videoId == init[c].videoId
          ensures init[b].videoId == init[a].videoId
        {
          assert all[a] == init[a] && all[b] == init[b] && all[c] == init[c];
        }
      }
      RunsOfContiguousAreDistinct(front);
      forall j | 0 <= j < n
        ensures sections[j].videoId != sections[n].videoId
      {
        if j < n - 1 {
          var beforeLast := front[..n - 1];
          var early := Flatten(beforeLast);
          assert front[j] == beforeLast[j];
          assert init == early + sections[n - 1].items;
          FlattenHolds(beforeLast, j);
          var a :| 0 <= a < |early| && early[a] == sections[j].items[0];
          var b := |init| - 1;
          var c := |init|;
          assert all[a].videoId == sections[j].videoId by {
            assert all[a] == early[a];
          }
          assert all[b].videoId == sections[n - 1].videoId by {
            assert all[b] == sections[n - 1].items[|sections[n - 1].items| - 1];
          }
          assert all[c].videoId == sections[n].videoId by {
            assert all[c] == sections[n].items[0];
          }
          assert all[b].videoId != all[c].videoId;
        }
      }
    }
  }

  /** In a consistent store the rows of `db-get-player-events` for one video are contiguous:
      they are ordered by path, and a video and its path determine each other. */
  lemma PlayerEventsContiguous(t: Tables, playerId: int)
    requires Valid(t)
    ensures Contiguous(Items(GetPlayerEvents(t, playerId)))
  {
    var rows := GetPlayerEvents(t, playerId);
    var items := Items(rows);
    forall x | 0 <= x < |rows|
      ensures Video(rows[x].videoId, rows[x].filePath) in t.videos
    {
      GetPlayerEventsOrigin(t, playerId, x);
    }
    forall a, b, c | 0 <= a < b < c < |items| && items[a].videoId == items[c].videoId
      ensures items[b].videoId == items[a].videoId
    {
      SameVideoSamePath(t, rows[a].videoId, rows[a].filePath, rows[c].filePath);
      LexLeAntisymmetric(rows[a].filePath, rows[b].filePath);
      SamePathSameVideo(t, rows[a].videoId, rows[b].videoId, rows[a].filePath);
    }
  }

  lemma SameVideoSamePath(t: Tables, id: int, p: string, q: string)
    requires Valid(t) && Video(id, p) in t.videos && Video(id, q) in t.videos
    ensures p == q
  {
    var i :| 0 <= i < |t.videos| && t.videos[i] == Video(id, p);
    var j :| 0 <= j < |t.videos| && t.videos[j] == Video(id, q);
    VideoRowsDiffer(t, i, j);
  }

  lemma SamePathSameVideo(t: Tables, id: int, id': int, p: string)
    requires Valid(t) && Video(id, p) in t.videos && Video(id', p) in t.videos
    ensures id == id'
  {
    var i :| 0 <= i < |t.videos| && t.videos[i] == Video(id, p);
    var j :| 0 <= j < |t.videos| && t.videos[j] == Video(id', p);
    VideoRowsDiffer(t, i, j);
  }

  /** Two different rows of `videos` differ in their id and in their path. */
  lemma VideoRowsDiffer(t: Tables, i: int, j: int)
    requires Valid(t) && 0 <= i < |t.videos| && 0 <= j < |t.videos|
    ensures t.videos[i].id == t.videos[j].id ==> i == j
    ensures t.videos[i].filePath == t.videos[j].filePath ==> i == j
  {
    if i < j {
      assert VideoIdBefore(t.videos[i], t.videos[j]) && PathsDiffer(t.videos[i], t.videos[j]);
    } else if j < i {
      assert VideoIdBefore(t.videos[j], t.videos[i]) && PathsDiffer(t.videos[j], t.videos[i]);
    }
  }

  /** The panel for a player of a consistent store has exactly one section per video: no two
      sections are of the same video. */
  lemma OneSectionPerVideo(t: Tables, playerId: int, sections: seq<Section>)
    requires Valid(t)
    requires Flatten(sections) == Items(GetPlayerEvents(t, playerId)) && Runs(sections)
    ensures forall j, k :: 0 <= j < k < |sections| ==> sections[j].videoId != sections[k].videoId
  {
    PlayerEventsContiguous(t, playerId);
    RunsOfContiguousAreDistinct(sections);
  }
}

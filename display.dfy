/** Text the renderer (src/renderer/renderer.js) shows: the file name of a video and the
    annotation label of an event. */
module Display {
  import opened Js
  import opened Text
  import opened PlayerList
  import opened Schema
  import opened Queries

  const PathSeparators: set<char> := {'/', '\\'}

  /** `path.split(/[\\/]/).pop()`: what follows the last '/' or '\', or the whole path when it
      holds neither. */
  function FileName(path: string): string
  {
    LastPiece(path, PathSeparators)
  }

  /** The file name holds no separator, ends the path, and is either the whole path or comes
      right after a separator. */
  lemma FileNameIsLastSegment(path: string)
    ensures var name := FileName(path);
      && Excludes(name, PathSeparators)
      && |name| <= |path| && path[|path| - |name|..] == name
      && (|name| < |path| ==> path[|path| - |name| - 1] in PathSeparators)
      && (Excludes(path, PathSeparators) ==> name == path)
  {
    SplitLast(path, PathSeparators);
  }

  /** `players.find(p => p.id === playerId)` mapped over the checked ids: the name of the
      player with that id, or '' for an id no player has. */
  function SelectedNames(selected: seq<int>, players: seq<Player>): (names: seq<string>)
    ensures |names| == |selected|
    ensures forall k :: 0 <= k < |selected| && selected[k] !in PlayerIds(players) ==> names[k] == ""
    ensures forall k :: 0 <= k < |selected| && selected[k] in PlayerIds(players) ==> Player(selected[k], names[k]) in players
  {
    seq(|selected|, k requires 0 <= k < |selected| =>
      match LookupPlayer(players, selected[k])
      case Some(p) => p.name
      case None => "")
  }

  /** The annotation label when an event is tagged:
      `${eventType.name}${playerNames ? ': ' + playerNames : ''}`. */
  function TagLabel(typeName: string, names: seq<string>): (shown: string)
    ensures |typeName| <= |shown| && shown[..|typeName|] == typeName
    ensures shown == typeName <==> Join(names, ", ") == ""
    ensures shown != typeName ==> shown[|typeName|..] == ": " + Join(names, ", ")
  {
    var joined := Join(names, ", ");
    if joined == "" then typeName else typeName + ": " + joined
  }

  /** The annotation label when the video's events are reloaded:
      `${event.event_type_name}: ${playerNames}`, the separator always present. A player
      entry without a name joins as the empty text, as `Array.prototype.join` does for
      `undefined`. */
  function ReloadLabel(typeName: string, players: seq<ParsedPlayer>): (shown: string)
    ensures |shown| >= |typeName| + 2 && shown[..|typeName| + 2] == typeName + ": "
    ensures shown[|typeName| + 2..] == Join(ReloadNames(players), ", ")
    ensures shown != typeName
  {
    typeName + ": " + Join(ReloadNames(players), ", ")
  }

  function ReloadNames(players: seq<ParsedPlayer>): (names: seq<string>)
    ensures |names| == |players|
  {
    seq(|players|, i requires 0 <= i < |players| => if players[i].name.Some? then players[i].name.value else "")
  }

  /** With no player checked the tag-time label is the type name alone, while the label after a
      reload still carries the ": " separator: the two differ. */
  lemma LabelsWithoutPlayers(typeName: string)
    ensures TagLabel(typeName, []) == typeName
    ensures ReloadLabel(typeName, []) == typeName + ": "
    ensures TagLabel(typeName, []) != ReloadLabel(typeName, [])
  {
    assert |ReloadLabel(typeName, [])| == |typeName| + 2;
  }

  /** When the reloaded players are the tagged players decoded faithfully (which `ParsePack`
      shows for names without ':' or ';') and their names are not all empty, the label after a
      reload is the label at tag time. */
  lemma LabelsAgree(typeName: string, ps: seq<PlayerRef>)
    requires Join(Names(ps), ", ") != ""
    ensures ReloadLabel(typeName, DecodedAll(ps)) == TagLabel(typeName, Names(ps))
  {
    assert ReloadNames(DecodedAll(ps)) == Names(ps);
  }

  function Names(ps: seq<PlayerRef>): seq<string>
  {
    seq(|ps|, i requires 0 <= i < |ps| => ps[i].name)
  }
}

/** The `players` column of `db-get-video-events`: SQLite packs an event's players into one
    text with `GROUP_CONCAT(p.id || ':' || p.name, ';')`, and the handler unpacks it again
    with `split(';')`, `split(':')` and `parseInt` (src/database/db.js:347, 364-371). */
module PlayerList {
  import opened Js
  import opened Text

  /** A player as the view pairs it with an event: `p.id` and `p.name`. */
  datatype PlayerRef = PlayerRef(id: int, name: string)

  /** `{ id: parseInt(id), name }` as the handler builds it: `id` is `None` for `NaN`, and
      `name` is `None` for `undefined`, which destructuring yields when the piece holds no ':'. */
  datatype ParsedPlayer = ParsedPlayer(id: Option<int>, name: Option<string>)

  /** What a faithful decoding yields for a player. */
  function Decoded(p: PlayerRef): ParsedPlayer
  {
    ParsedPlayer(Some(p.id), Some(p.name))
  }

  /** What a faithful decoding yields for a list of players. */
  function DecodedAll(ps: seq<PlayerRef>): seq<ParsedPlayer>
  {
    seq(|ps|, i requires 0 <= i < |ps| => Decoded(ps[i]))
  }

  /** `p.id || ':' || p.name` */
  function PairText(p: PlayerRef): string
  {
    IntToString(p.id) + ":" + p.name
  }

  /** `GROUP_CONCAT(x, ';')` over the group's non-NULL items: NULL when there is none. */
  function GroupConcat(items: seq<string>): (packed: Option<string>)
    ensures packed.None? <==> items == []
  {
    if items == [] then None else Some(Join(items, ";"))
  }

  /** The packed `players` column for the players joined to one event, in join order. */
  function Pack(ps: seq<PlayerRef>): Option<string>
  {
    GroupConcat(seq(|ps|, i requires 0 <= i < |ps| => PairText(ps[i])))
  }

  /** `const [id, name] = playerStr.split(':')` and `{ id: parseInt(id), name }`: only the
      first two pieces are looked at. */
  function ParseEntry(entry: string): ParsedPlayer
  {
    var fields := Split(entry, {':'});
    ParsedPlayer(ParseInt(fields[0]), if |fields| >= 2 then Some(fields[1]) else None)
  }

  function ParseEntries(entries: seq<string>): (r: seq<ParsedPlayer>)
    ensures |r| == |entries|
  {
    seq(|entries|, i requires 0 <= i < |entries| => ParseEntry(entries[i]))
  }

  /** The players list the handler builds from the column: empty when the column is falsy
      (NULL, or the empty text), otherwise one entry per `;`-separated piece. */
  function Parse(packed: Option<string>): seq<ParsedPlayer>
  {
    if packed.None? || packed.value == "" then []
    else ParseEntries(Split(packed.value, {';'}))
  }

  /** The `forEach` that pushes one parsed entry per piece onto `players`. */
  method ParsePlayers(packed: Option<string>) returns (players: seq<ParsedPlayer>)
    ensures players == Parse(packed)
  {
    players := [];
    if packed.Some? && packed.value != "" {
      var entries := Split(packed.value, {';'});
      for k := 0 to |entries|
        invariant players == ParseEntries(entries[..k])
      {
        players := players + [ParseEntry(entries[k])];
      }
      assert entries[..|entries|] == entries;
    }
  }

  /** The decimal text of an integer holds neither delimiter. */
  lemma IntToStringExcludes(n: int)
    ensures Excludes(IntToString(n), {':', ';'})
  {
    var digits := NatToString(if n < 0 then -n else n);
    assert forall i :: 0 <= i < |digits| ==> IsDigit(digits[i]);
  }

  /** A name is safe to pack when it holds neither delimiter. */
  predicate CleanName(name: string)
  {
    Excludes(name, {':', ';'})
  }

  /** One packed item reads back as its player. */
  lemma {:induction false} ParseEntryOfPairText(p: PlayerRef)
    requires CleanName(p.name)
    ensures ParseEntry(PairText(p)) == Decoded(p)
  {
    var idText := IntToString(p.id);
    IntToStringExcludes(p.id);
    assert PairText(p) == idText + [':'] + p.name;
    SplitAfterPiece(idText, ':', p.name);
    assert Split(p.name, {':'}) == [p.name];
    ParseIntOfIntToString(p.id);
  }

  /** Round trip: unpacking the packed column gives back every player, in order, with its id
      and name, provided no name holds ':' or ';'. No player gives the empty list. */
  lemma {:induction false} ParsePack(ps: seq<PlayerRef>)
    requires forall i :: 0 <= i < |ps| ==> CleanName(ps[i].name)
    ensures Parse(Pack(ps)) == DecodedAll(ps)
  {
    if ps != [] {
      var items := seq(|ps|, i requires 0 <= i < |ps| => PairText(ps[i]));
      forall k | 0 <= k < |items|
        ensures Excludes(items[k], {';'})
      {
        IntToStringExcludes(ps[k].id);
        assert items[k] == IntToString(ps[k].id) + [':'] + ps[k].name;
      }
      SplitJoin(items, ';');
      assert |items[0]| > 0 && |Join(items, ";")| >= |items[0]|;
      forall k | 0 <= k < |ps|
        ensures ParseEntry(items[k]) == Decoded(ps[k])
      {
        ParseEntryOfPairText(ps[k]);
      }
    }
  }

  /** The delimiter hazard, ':' case: a name with a ':' comes back cut at its first ':'. */
  lemma ColonInNameIsCut(id: int, a: string, b: string)
    requires CleanName(a) && Excludes(b, {';'})
    ensures Parse(Pack([PlayerRef(id, a + ":" + b)])) == [ParsedPlayer(Some(id), Some(a))]
    ensures Some(a) != Some(a + ":" + b)
  {
    var name := a + ":" + b;
    var item := PairText(PlayerRef(id, name));
    var idText := IntToString(id);
    IntToStringExcludes(id);
    assert item == idText + [':'] + (a + [':'] + b);
    assert Excludes(item, {';'});
    assert Split(item, {';'}) == [item];
    SplitAfterPiece(idText, ':', a + [':'] + b);
    SplitAfterPiece(a, ':', b);
    ParseIntOfIntToString(id);
    assert |a + ":" + b| > |a|;
  }

  /** The delimiter hazard, ';' case: a name with a ';' comes back as two entries, the first
      cut at the ';' and the second with no name and the id `parseInt` reads from what
      followed; a name like "A;7" yields a second player with id 7. */
  lemma SemicolonInNameSplits(id: int, a: string, b: string)
    requires CleanName(a) && CleanName(b)
    ensures Parse(Pack([PlayerRef(id, a + ";" + b)])) ==
      [ParsedPlayer(Some(id), Some(a)), ParsedPlayer(ParseInt(b), None)]
  {
    var first := PairText(PlayerRef(id, a));
    var item := first + ";" + b;
    assert Pack([PlayerRef(id, a + ";" + b)]) == Some(item) by {
      PackSingle(PlayerRef(id, a + ";" + b));
      PairTextSplice(id, a, b);
    }
    assert Split(item, {';'}) == [first, b] by {
      IntToStringExcludes(id);
      assert Excludes(first, {';'});
      SplitInTwo(first, ';', b);
    }
    assert ParseEntry(first) == ParsedPlayer(Some(id), Some(a)) by {
      ParseEntryOfPairText(PlayerRef(id, a));
    }
    assert ParseEntry(b) == ParsedPlayer(ParseInt(b), None) by {
      assert Excludes(b, {':'});
    }
    ParseTwoEntries(item, first, b);
  }

  /** A non-empty column that splits into two pieces yields one entry for each. */
  lemma ParseTwoEntries(packed: string, first: string, second: string)
    requires Split(packed, {';'}) == [first, second]
    ensures Parse(Some(packed)) == [ParseEntry(first), ParseEntry(second)]
  {
    assert packed != "" by {
      assert Split("", {';'}) == [""];
    }
  }

  /** The packed column of a single player is that player's item. */
  lemma PackSingle(p: PlayerRef)
    ensures Pack([p]) == Some(PairText(p))
  {
    assert seq(|[p]|, i requires 0 <= i < |[p]| => PairText([p][i])) == [PairText(p)];
  }

  /** The item of a player whose name is `a;b` is the item of `a`, then ';' and `b`. */
  lemma PairTextSplice(id: int, a: string, b: string)
    ensures PairText(PlayerRef(id, a + ";" + b)) == PairText(PlayerRef(id, a)) + ";" + b
  {
    var idText := IntToString(id);
    assert idText + ":" + (a + ";" + b) == (idText + ":" + a) + ";" + b;
  }

  /** Splitting two pieces around one separator. */
  lemma SplitInTwo(first: string, c: char, second: string)
    requires Excludes(first, {c}) && Excludes(second, {c})
    ensures Split(first + [c] + second, {c}) == [first, second]
  {
    SplitAfterPiece(first, c, second);
  }
}

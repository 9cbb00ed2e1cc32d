/** Keyboard shortcuts of the video-review tab (src/renderer/renderer.js): the i-th event type
    button is labelled with the i-th of twenty keys, and pressing that key while a video is
    loaded tags an event of that type. */
module Shortcuts {
  import opened Js
  import opened Text
  import opened Schema
  import Queries

  /** `shortcutKeys` */
  const ShortcutKeys: seq<string> :=
    ["1", "2", "3", "4", "5", "6", "7", "8", "9", "0",
     "Q", "W", "E", "R", "T", "Y", "U", "I", "O", "P"]

  /** `Array.prototype.indexOf`: the first position holding `x`, `None` for -1. */
  function IndexOf(xs: seq<string>, x: string): (r: Option<nat>)
    ensures r.Some? ==> r.value < |xs| && xs[r.value] == x && forall k :: 0 <= k < r.value ==> xs[k] != x
    ensures r.None? <==> x !in xs
  {
    if xs == [] then None
    else if xs[0] == x then Some(0)
    else
      var r := IndexOf(xs[1..], x);
      assert forall k :: 1 <= k < |xs| ==> xs[k] == xs[1..][k - 1];
      if r.None? then None else Some(r.value + 1)
  }

  /** The twenty keys are distinct, one character each, and already upper case. */
  lemma ShortcutKeysDistinct()
    ensures forall i, j :: 0 <= i < j < |ShortcutKeys| ==> ShortcutKeys[i] != ShortcutKeys[j]
    ensures forall i :: 0 <= i < |ShortcutKeys| ==> |ShortcutKeys[i]| == 1 && ToUpper(ShortcutKeys[i]) == ShortcutKeys[i]
  {
  }

  /** `shortcutKeys.indexOf(event.key.toUpperCase())` */
  function ShortcutIndex(key: string): Option<nat>
  {
    IndexOf(ShortcutKeys, ToUpper(key))
  }

  /** A video is loaded when `currentVideoId` is truthy: not `null` and not 0. */
  predicate VideoLoaded(currentVideoId: Option<int>)
  {
    TruthyId(currentVideoId)
  }

  /** The keydown listener: the id of the event type to tag, or `None` when the key is ignored
      (the video-review tab is not active, no video is loaded, the key is no shortcut, or
      there are fewer event types than its position). */
  function KeydownTarget(tabActive: bool, currentVideoId: Option<int>, key: string, eventTypes: seq<EventType>): (r: Option<int>)
    ensures r.Some? <==>
      tabActive && VideoLoaded(currentVideoId) && ToUpper(key) in ShortcutKeys &&
      ShortcutIndex(key).value < |eventTypes|
    ensures r.Some? ==>
      ShortcutKeys[ShortcutIndex(key).value] == ToUpper(key) && r.value == eventTypes[ShortcutIndex(key).value].id
  {
    if !tabActive || !VideoLoaded(currentVideoId) then None
    else
      match ShortcutIndex(key)
      case None => None
      case Some(i) => if i < |eventTypes| then Some(eventTypes[i].id) else None
  }

  /** The shortcut label of the button at `index`: `[K]` for the first twenty buttons, none
      after them. */
  function ShortcutLabel(index: nat): (shown: Option<string>)
    ensures shown.Some? <==> index < 20
    ensures shown.Some? ==>
      |shown.value| == 3 && shown.value[0] == '[' && shown.value[2] == ']' &&
      shown.value[1..2] == ShortcutKeys[index] && ShortcutIndex(shown.value[1..2]) == Some(index)
  {
    if index < |ShortcutKeys| then
      ShortcutKeysDistinct();
      IndexOfDistinct(ShortcutKeys, index);
      Some("[" + ShortcutKeys[index] + "]")
    else None
  }

  /** The button's tooltip: `Press K to tag (name)` for the first twenty buttons. */
  function ButtonTitle(index: nat, typeName: string): (title: Option<string>)
    ensures title.Some? <==> ShortcutLabel(index).Some?
    ensures title.Some? ==>
      |title.value| == 17 + |typeName| && title.value[6..7] == ShortcutKeys[index] &&
      title.value[|title.value| - |typeName| - 1..] == typeName + ")"
  {
    if index < |ShortcutKeys| then Some("Press " + ShortcutKeys[index] + " to tag (" + typeName + ")") else None
  }

  /** A button carries a label exactly when it has a key, and pressing the key its label
      shows, in upper or lower case, tags that button's event type. */
  lemma LabelledKeyTagsItsButton(tabActive: bool, currentVideoId: Option<int>, index: nat, eventTypes: seq<EventType>)
    requires tabActive && VideoLoaded(currentVideoId) && index < |eventTypes|
    ensures ShortcutLabel(index).Some? <==> index < 20
    ensures index < 20 ==>
      ShortcutLabel(index) == Some("[" + ShortcutKeys[index] + "]") &&
      KeydownTarget(tabActive, currentVideoId, ShortcutKeys[index], eventTypes) == Some(eventTypes[index].id) &&
      KeydownTarget(tabActive, currentVideoId, Lower(ShortcutKeys[index]), eventTypes) == Some(eventTypes[index].id)
  {
    if index < 20 {
      ShortcutKeysDistinct();
      var key := ShortcutKeys[index];
      assert ToUpper(Lower(key)) == key;
      IndexOfDistinct(ShortcutKeys, index);
    }
  }

  /** The lower-case form of a one-letter key, as a keyboard reports it without shift. */
  function Lower(key: string): string
  {
    seq(|key|, i requires 0 <= i < |key| => if 'A' <= key[i] <= 'Z' then (key[i] as int + 32) as char else key[i])
  }

  /** In a sequence without repeats each element is found at its own position. */
  lemma {:induction false} IndexOfDistinct(xs: seq<string>, i: nat)
    requires i < |xs|
    requires forall a, b :: 0 <= a < b < |xs| ==> xs[a] != xs[b]
    ensures IndexOf(xs, xs[i]) == Some(i)
  {
    if i > 0 {
      assert xs[0] != xs[i];
      assert xs[1..][i - 1] == xs[i];
      IndexOfDistinct(xs[1..], i - 1);
    }
  }

  /** With the buttons built from `db-get-event-types`, a shortcut only ever tags an event type
      that is stored. */
  lemma KeydownTagsStoredType(tabActive: bool, currentVideoId: Option<int>, key: string, t: Tables)
    ensures KeydownTarget(tabActive, currentVideoId, key, Queries.GetEventTypes(t)).Some? ==>
      KeydownTarget(tabActive, currentVideoId, key, Queries.GetEventTypes(t)).value in EventTypeIds(t.eventTypes)
  {
    var rows := Queries.GetEventTypes(t);
    if KeydownTarget(tabActive, currentVideoId, key, rows).Some? {
      var i := ShortcutIndex(key).value;
      assert rows[i] in multiset(t.eventTypes);
    }
  }
}

/**
 * `TrackList`: the digit shortcuts of the track list. With tracks selected, pressing the
 * digit k toggles the k-th label, and the first nine label checkboxes show the digit that
 * toggles them.
 */
module TrackList {
  import opened Wrappers
  import opened LabelToggle

  /** JavaScript's `<=` on strings, compared character by character, a prefix before its
      extensions. JavaScript compares UTF-16 code units; against the one-unit strings "1"
      and "9" only the first unit decides, and every character below U+D800 is a single
      unit with the same order, so the comparison with those strings is the same. */
  predicate StringLessOrEqual(a: string, b: string)
    decreases |a|
  {
    if a == [] then true
    else if b == [] then false
    else if a[0] != b[0] then a[0] < b[0]
    else StringLessOrEqual(a[1..], b[1..])
  }

  /** `event.key >= "1" && event.key <= "9"`. */
  predicate DigitGuard(key: string): (r: bool)
    ensures r ==> key != [] && '1' <= key[0] <= '9'
  {
    StringLessOrEqual("1", key) && StringLessOrEqual(key, "9")
  }

  /** The string comparison lets through exactly the keys that start with '1' to '8' (with
      anything after) and the key "9" itself. */
  lemma DigitGuardExact(key: string)
    ensures DigitGuard(key) <==> key != [] && ('1' <= key[0] <= '8' || key == "9")
  {
    if key != [] && key[0] == '9' {
      assert "9"[1..] == [];
      assert StringLessOrEqual(key, "9") == StringLessOrEqual(key[1..], []);
      assert key == "9" <==> key[1..] == [] by {
        if key[1..] == [] {
          assert key == [key[0]] + key[1..];
        }
      }
    }
  }

  /** `labels[event.key.charCodeAt(0) - "1".charCodeAt(0)]`, where JavaScript gives
      `undefined` outside the array. */
  function LabelAt(labels: seq<Label>, key: string): (r: Option<Label>)
    requires key != []
    ensures r.Some? <==> 0 <= key[0] as int - '1' as int < |labels|
    ensures r.Some? ==> r.value == labels[key[0] as int - '1' as int]
  {
    var index := key[0] as int - '1' as int;
    if 0 <= index < |labels| then Some(labels[index]) else None
  }

  /** `handleKeyDown`: the label a key press toggles on the selected tracks, if any. */
  function DigitShortcut(key: string, selectedTracks: seq<Track>, labels: seq<Label>): (r: Option<Label>)
    ensures selectedTracks == [] ==> r.None?
    ensures !DigitGuard(key) ==> r.None?
    ensures r.Some? ==> r.value in labels
  {
    if DigitGuard(key) && |selectedTracks| > 0 then LabelAt(labels, key) else None
  }

  /** The request the key press sends: `toggleLabel` with the selected tracks and that label. */
  function KeyDownRequest(key: string, selectedTracks: seq<Track>, labels: seq<Label>): (r: Option<LabelMutation>)
    ensures r.Some? <==> DigitShortcut(key, selectedTracks, labels).Some?
    ensures r.Some? ==> r == ToggleRequest(selectedTracks, DigitShortcut(key, selectedTracks, labels).value)
  {
    match DigitShortcut(key, selectedTracks, labels)
    case None => None
    case Some(lbl) => ToggleRequest(selectedTracks, lbl)
  }

  /** The `keyboardIndex` hint of the checkbox at `index`: `index + 1` for the first nine. */
  function KeyboardIndex(index: nat): (r: Option<nat>)
    ensures r.Some? <==> index < 9
    ensures r.Some? ==> 1 <= r.value <= 9 && r.value - 1 == index
  {
    if index < 9 then Some(index + 1) else None
  }

  /** The one-character key for the digit `d`. */
  function DigitKey(d: nat): (key: string)
    requires 1 <= d <= 9
    ensures |key| == 1 && key[0] as int == '0' as int + d
  {
    [('0' as int + d) as char]
  }

  /** With tracks selected, the digit d toggles exactly the label whose checkbox shows
      "(d)", and nothing when no checkbox shows it. */
  lemma DigitMatchesHint(d: nat, selectedTracks: seq<Track>, labels: seq<Label>)
    requires 1 <= d <= 9 && selectedTracks != []
    ensures DigitShortcut(DigitKey(d), selectedTracks, labels).Some? <==>
      exists i :: 0 <= i < |labels| && KeyboardIndex(i) == Some(d)
    ensures forall i :: 0 <= i < |labels| && KeyboardIndex(i) == Some(d) ==>
      DigitShortcut(DigitKey(d), selectedTracks, labels) == Some(labels[i])
  {
    var key := DigitKey(d);
    DigitGuardExact(key);
    assert d == 9 ==> key == "9";
    if d - 1 < |labels| {
      assert KeyboardIndex(d - 1) == Some(d);
    }
  }
}

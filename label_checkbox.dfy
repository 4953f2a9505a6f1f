/**
 * `LabelCheckbox`: the state of one label's checkbox in the track list header, derived
 * from how the selected tracks split on that label, and what a click on it requests.
 */
module LabelCheckbox {
  import opened Wrappers
  import opened LabelToggle

  /** The flags handed to the checkbox. */
  datatype CheckboxState = CheckboxState(checked: bool, indeterminate: bool, disabled: bool)

  /** `allHaveLabel`, `someHaveLabel` and the three flags; `isToggling` is whether a toggle
      request is still in flight. */
  function Checkbox(selectedTracks: seq<Track>, lbl: Label, isToggling: bool): (c: CheckboxState)
    ensures c.checked <==> selectedTracks != [] && forall t :: t in selectedTracks ==> HasLabel(t, lbl)
    ensures c.indeterminate <==>
      (exists t :: t in selectedTracks && HasLabel(t, lbl)) && (exists t :: t in selectedTracks && !HasLabel(t, lbl))
    ensures c.disabled <==> selectedTracks == [] || isToggling
    ensures !(c.checked && c.indeterminate)
    ensures selectedTracks == [] ==> c == CheckboxState(false, false, true)
  {
    var parts := PartitionTracks(selectedTracks, lbl);
    var allHaveLabel := |parts.tracksWithoutLabel| == 0;
    var someHaveLabel := |parts.tracksWithLabel| > 0 && |parts.tracksWithoutLabel| > 0;
    assert |parts.tracksWithLabel| > 0 ==> parts.tracksWithLabel[0] in parts.tracksWithLabel;
    assert |parts.tracksWithoutLabel| > 0 ==> parts.tracksWithoutLabel[0] in parts.tracksWithoutLabel;
    CheckboxState(|selectedTracks| > 0 && allHaveLabel, someHaveLabel, |selectedTracks| == 0 || isToggling)
  }

  /** The click handler runs `toggleLabel` on the selected tracks. Clicking a checked box
      asks to remove the label from every selected track; clicking an unchecked or
      indeterminate box over a non-empty selection asks to add it to the selected tracks
      that lack it. */
  lemma ClickFollowsCheckbox(selectedTracks: seq<Track>, lbl: Label, isToggling: bool)
    requires selectedTracks != []
    ensures
      var c := Checkbox(selectedTracks, lbl, isToggling);
      var r := ToggleRequest(selectedTracks, lbl);
      && (c.checked ==> r == Some(RemoveLabels(lbl.id, Ids(selectedTracks))))
      && (!c.checked ==> r == Some(AddLabels(lbl.id, Ids(PartitionTracks(selectedTracks, lbl).tracksWithoutLabel))))
  {
  }
}

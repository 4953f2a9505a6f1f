/**
 * The `useMultiSelect` hook as an object: its three pieces of state (the active index, the
 * map from key to "selected" and the current drag) and the current items are fields, and
 * each operation the hook returns is a method that updates them in place, step by step as
 * the hook does, except `ToggleActiveItemSelected`, which is the corrected toggle that also
 * toggles a falsy active item (see `Selection.ToggleActiveItemSelectedAsWritten`). Every
 * method is proved to leave the object in the state that the corresponding function of
 * module `Selection` computes from the old state, so all the properties proved there hold
 * of the object.
 */
module UseMultiSelect {
  import opened Wrappers
  import Seqs
  import Selection

  type Key = Selection.Key

  /** `items.findIndex((item) => getKey(item) === key)`, with `-1` as `None`. */
  method FindIndex(items: seq<Key>, key: Key) returns (index: Option<nat>)
    ensures index == Selection.IndexOf(items, key)
  {
    var i := 0;
    while i < |items|
      invariant 0 <= i <= |items|
      invariant key !in items[..i]
    {
      if items[i] == key {
        ghost var first := Selection.IndexOf(items, key);
        assert items[..first.value + 1][first.value] == key;
        assert items[..i + 1][i] == key;
        return Some(i);
      }
      assert items[..i + 1] == items[..i] + [items[i]];
      i := i + 1;
    }
    assert items[..i] == items;
    return None;
  }

  class MultiSelect {
    var items: seq<Key>
    var activeIndex: Option<nat>
    var selectedKeys: map<Key, bool>
    var currentDrag: Option<Selection.Drag>

    /** The object's state as a value. */
    function Snapshot(): Selection.State
      reads this
    {
      Selection.State(items, activeIndex, selectedKeys, currentDrag)
    }

    ghost predicate Valid()
      reads this
    {
      Selection.Valid(Snapshot())
    }

    /** The initial `useState` values for the first render's items. */
    constructor (items: seq<Key>)
      requires Seqs.Distinct(items)
      ensures Valid() && Snapshot() == Selection.Init(items)
    {
      this.items := items;
      activeIndex := None;
      selectedKeys := map k | k in items :: false;
      currentDrag := None;
    }

    /** `setActiveIndex`: stores the clamped index and returns it. */
    method SetActiveIndex(index: int) returns (newActiveIndex: Option<nat>)
      requires Valid()
      modifies this
      ensures Valid()
      ensures Snapshot() == old(Snapshot()).(activeIndex := Selection.Clamp(index, |items|))
      ensures newActiveIndex == activeIndex
    {
      newActiveIndex := if |items| == 0 then None else Some(Selection.Max(0, Selection.Min(index, |items| - 1)));
      activeIndex := newActiveIndex;
    }

    method SetActiveItem(key: Key)
      requires Valid()
      modifies this
      ensures Valid() && Snapshot() == Selection.SetActiveItem(old(Snapshot()), key)
    {
      var newActiveIndex := FindIndex(items, key);
      activeIndex := newActiveIndex;
    }

    /** `setItemsSelected`: the new map is the old one with every listed, already tracked
        key set to `selected`; later entries of the spread replace earlier ones. */
    method SetItemsSelected(keys: seq<Key>, selected: bool)
      requires Valid()
      modifies this
      ensures Valid() && Snapshot() == Selection.SetItemsSelected(old(Snapshot()), keys, selected)
    {
      var updated := selectedKeys;
      for i := 0 to |keys|
        invariant updated.Keys == selectedKeys.Keys
        invariant forall k :: k in selectedKeys ==> updated[k] == if k in keys[..i] then selected else selectedKeys[k]
      {
        assert keys[..i + 1] == keys[..i] + [keys[i]];
        if keys[i] in selectedKeys {
          updated := updated[keys[i] := selected];
        }
      }
      assert keys[..|keys|] == keys;
      ghost var expected := Selection.SetItemsSelected(Snapshot(), keys, selected).selectedKeys;
      assert updated.Keys == expected.Keys;
      assert forall k :: k in updated ==> updated[k] == expected[k];
      selectedKeys := updated;
    }

    method SetItemSelected(key: Key, selected: bool)
      requires Valid()
      modifies this
      ensures Valid() && Snapshot() == Selection.SetItemSelected(old(Snapshot()), key, selected)
    {
      SetItemsSelected([key], selected);
    }

    method SetAllSelected(selected: bool)
      requires Valid()
      modifies this
      ensures Valid() && Snapshot() == Selection.SetAllSelected(old(Snapshot()), selected)
    {
      selectedKeys := map k | k in items :: selected;
    }

    /** `move`: the old active index (0 if none) anchors the range that is selected when
        `selecting` is given and the list is not empty. */
    method Move(index: int, selecting: Option<bool>)
      requires Valid()
      modifies this
      ensures Valid() && Snapshot() == Selection.Move(old(Snapshot()), index, selecting)
    {
      var oldIndex := if activeIndex.Some? then activeIndex.value else 0;
      var newIndex := SetActiveIndex(index);
      if selecting.Some? && newIndex.Some? {
        SetItemsSelected(Selection.ItemRange(items, oldIndex, newIndex.value), selecting.value);
      }
    }

    method Next(selecting: Option<bool>)
      requires Valid()
      modifies this
      ensures Valid() && Snapshot() == Selection.Next(old(Snapshot()), selecting)
    {
      Move(if activeIndex.None? then 0 else activeIndex.value + 1, selecting);
    }

    method Previous(selecting: Option<bool>)
      requires Valid()
      modifies this
      ensures Valid() && Snapshot() == Selection.Previous(old(Snapshot()), selecting)
    {
      Move(if activeIndex.None? then 0 else activeIndex.value - 1, selecting);
    }

    method Top(selecting: Option<bool>)
      requires Valid()
      modifies this
      ensures Valid() && Snapshot() == Selection.Top(old(Snapshot()), selecting)
    {
      Move(0, selecting);
    }

    method Bottom(selecting: Option<bool>)
      requires Valid()
      modifies this
      ensures Valid() && Snapshot() == Selection.Bottom(old(Snapshot()), selecting)
    {
      Move(|items| - 1, selecting);
    }

    method Clear()
      requires Valid()
      modifies this
      ensures Valid() && Snapshot() == Selection.Clear(old(Snapshot()))
    {
      activeIndex := None;
    }

    /** `toggleItemSelected`: reads the committed value, then sets its negation. */
    method ToggleItemSelected(key: Key)
      requires Valid()
      modifies this
      ensures Valid() && Snapshot() == Selection.ToggleItemSelected(old(Snapshot()), key)
    {
      if key in selectedKeys {
        var selected := selectedKeys[key];
        SetItemSelected(key, !selected);
      }
    }

    method ToggleActiveItemSelected()
      requires Valid()
      modifies this
      ensures Valid() && Snapshot() == Selection.ToggleActiveItemSelected(old(Snapshot()))
    {
      if activeIndex.Some? {
        var item := items[activeIndex.value];
        ToggleItemSelected(item);
      }
    }

    method StartDrag(key: Key, selecting: bool)
      requires Valid()
      modifies this
      ensures Valid() && Snapshot() == Selection.StartDrag(old(Snapshot()), key, selecting)
    {
      var index := FindIndex(items, key);
      if index.Some? {
        currentDrag := Some(Selection.Drag(index.value, index.value, selecting));
      }
    }

    method ContinueDrag(key: Key)
      requires Valid()
      modifies this
      ensures Valid() && Snapshot() == Selection.ContinueDrag(old(Snapshot()), key)
    {
      if currentDrag.None? {
        return;
      }
      var index := FindIndex(items, key);
      if index.Some? {
        currentDrag := Some(currentDrag.value.(end := index.value));
      }
    }

    /** `commitDrag`, which the list also runs on every document mouse-up and blur. */
    method CommitDrag()
      requires Valid()
      modifies this
      ensures Valid() && Snapshot() == Selection.CommitDrag(old(Snapshot()))
    {
      if currentDrag.None? {
        return;
      }
      var drag := currentDrag.value;
      SetItemsSelected(Selection.ItemRange(items, drag.start, drag.end), drag.selecting);
      var newIndex := SetActiveIndex(drag.end);
      currentDrag := None;
    }

    method AbortDrag()
      requires Valid()
      modifies this
      ensures Valid() && Snapshot() == Selection.AbortDrag(old(Snapshot()))
    {
      currentDrag := None;
    }

    /** The effect that runs when the items change: rebuild the map (new keys unselected,
        then the old entries of the previous items on top), re-find the active item by key,
        and end any drag. */
    method ItemsChanged(newItems: seq<Key>)
      requires Valid() && Seqs.Distinct(newItems)
      modifies this
      ensures Valid() && Snapshot() == Selection.ItemsChanged(old(Snapshot()), newItems)
    {
      var previousItems := items;
      selectedKeys := (map k | k in newItems :: false)
                    + (map k | k in selectedKeys && k in previousItems :: selectedKeys[k]);
      items := newItems;
      currentDrag := None;
      if activeIndex.Some? {
        var activeItem := previousItems[activeIndex.value];
        activeIndex := FindIndex(newItems, activeItem);
      }
    }
  }
}

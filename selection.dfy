/**
 * The multi-select list engine of the tracks page (the `useMultiSelect` hook), as a state
 * machine on values. A `State` holds the three pieces of hook state (the optional active
 * index, the map from item key to "selected", the optional drag) together with the current
 * items. Every operation the hook returns is a function from the old state to the new one;
 * the derived views (`activeItem`, `isItemSelected`, `selectedItems`) are functions of the
 * state. Items are represented by their keys, which are distinct.
 */
module Selection {
  import opened Wrappers
  import opened Seqs

  type Key = int

  /** A drag in progress: the index where it started, the index under the mouse, and the
      value the dragged-over items will be given. */
  datatype Drag = Drag(start: nat, end: nat, selecting: bool)

  datatype State = State(
    items: seq<Key>,
    activeIndex: Option<nat>,
    selectedKeys: map<Key, bool>,
    currentDrag: Option<Drag>)

  /** The invariant every reachable state keeps: keys are distinct, every current item is
      tracked in the selection map, and the active index and the drag point at items. The
      tracking is stated both by membership and by index, so that facts about `k in items`
      and about `items[i]` each find a matching quantifier. */
  predicate Valid(s: State) {
    && Distinct(s.items)
    && (forall k :: k in s.items ==> k in s.selectedKeys)
    && (forall i :: 0 <= i < |s.items| ==> s.items[i] in s.selectedKeys)
    && (s.activeIndex.Some? ==> s.activeIndex.value < |s.items|)
    && (s.currentDrag.Some? ==> s.currentDrag.value.start < |s.items| && s.currentDrag.value.end < |s.items|)
  }

  function Min(a: int, b: int): int { if a <= b then a else b }

  function Max(a: int, b: int): int { if a <= b then b else a }

  /** Index `x` lies between `index1` and `index2`, inclusive, in either order. */
  predicate InRange(index1: int, index2: int, x: int) {
    Min(index1, index2) <= x <= Max(index1, index2)
  }

  // ---------------------------------------------------------------------------------------
  // Helpers of the hook: getItemRange, the clamping in setActiveIndex, findIndex
  // ---------------------------------------------------------------------------------------

  /** The items between two indices, inclusive, whichever is larger (`getItemRange`). */
  function ItemRange(items: seq<Key>, index1: nat, index2: nat): (r: seq<Key>)
    requires index1 < |items| && index2 < |items|
    ensures |r| == Max(index1, index2) - Min(index1, index2) + 1
    ensures forall k :: k in r ==> k in items
  {
    items[Min(index1, index2)..Max(index1, index2) + 1]
  }

  /** With distinct keys, an item is in the range exactly when its index is. */
  lemma ItemRangeExact(items: seq<Key>, index1: nat, index2: nat, x: int)
    requires Distinct(items) && index1 < |items| && index2 < |items| && 0 <= x < |items|
    ensures items[x] in ItemRange(items, index1, index2) <==> InRange(index1, index2, x)
  {
    var lo := Min(index1, index2);
    var r := ItemRange(items, index1, index2);
    if InRange(index1, index2, x) {
      assert r[x - lo] == items[x];
    }
  }

  lemma ItemRangeExactAll(items: seq<Key>, index1: nat, index2: nat)
    requires Distinct(items) && index1 < |items| && index2 < |items|
    ensures forall x :: 0 <= x < |items| ==> (items[x] in ItemRange(items, index1, index2) <==> InRange(index1, index2, x))
  {
    forall x | 0 <= x < |items| {
      ItemRangeExact(items, index1, index2, x);
    }
  }

  /** The normalised active index of `setActiveIndex`: none for an empty list, otherwise
      the requested index clamped into the list. */
  function Clamp(index: int, length: nat): (r: Option<nat>)
    ensures r.None? <==> length == 0
    ensures r.Some? ==> r.value < length
    ensures r.Some? && 0 <= index < length ==> r.value == index
    ensures r.Some? && index < 0 ==> r.value == 0
    ensures r.Some? && index >= length ==> r.value == length - 1
  {
    if length == 0 then None else Some(Max(0, Min(index, length - 1)))
  }

  /** `findIndex` by key: the first position holding `key`, or none. */
  function IndexOf(items: seq<Key>, key: Key): (r: Option<nat>)
    ensures r.None? <==> key !in items
    ensures r.Some? ==> r.value < |items| && items[r.value] == key && key !in items[..r.value]
  {
    if |items| == 0 then None
    else if items[0] == key then Some(0)
    else
      match IndexOf(items[1..], key)
      case None => None
      case Some(i) =>
        assert items[..i + 1] == [items[0]] + items[1..][..i];
        Some(i + 1)
  }

  /** The index the previous active item sits at, or 0 when there is none (`activeIndex ?? 0`). */
  function Anchor(s: State): nat {
    if s.activeIndex.Some? then s.activeIndex.value else 0
  }

  // ---------------------------------------------------------------------------------------
  // Initial state and operations
  // ---------------------------------------------------------------------------------------

  /** The state on first render: no active item, every item tracked as unselected, no drag. */
  function Init(items: seq<Key>): (s: State)
    requires Distinct(items)
    ensures Valid(s) && s.items == items && s.activeIndex.None? && s.currentDrag.None?
    ensures s.selectedKeys.Keys == set k | k in items
    ensures forall k :: k in items ==> !s.selectedKeys[k]
  {
    State(items, None, map k | k in items :: false, None)
  }

  /** `setItemsSelected`: every key of `keys` that the map already tracks gets `selected`;
      untracked keys are ignored and nothing else changes. */
  function SetItemsSelected(s: State, keys: seq<Key>, selected: bool): (r: State)
    requires Valid(s)
    ensures Valid(r)
    ensures r.items == s.items && r.activeIndex == s.activeIndex && r.currentDrag == s.currentDrag
    ensures r.selectedKeys.Keys == s.selectedKeys.Keys
    ensures forall k :: k in s.selectedKeys ==> r.selectedKeys[k] == if k in keys then selected else s.selectedKeys[k]
  {
    s.(selectedKeys := s.selectedKeys + map k | k in keys && k in s.selectedKeys :: selected)
  }

  /** `setItemSelected`: `setItemsSelected` on one item. */
  function SetItemSelected(s: State, key: Key, selected: bool): (r: State)
    requires Valid(s)
    ensures Valid(r)
    ensures r.items == s.items && r.activeIndex == s.activeIndex && r.currentDrag == s.currentDrag
    ensures r.selectedKeys == if key in s.selectedKeys then s.selectedKeys[key := selected] else s.selectedKeys
  {
    SetItemsSelected(s, [key], selected)
  }

  /** `setAllSelected`: the map becomes exactly the current items, all set to `selected`. */
  function SetAllSelected(s: State, selected: bool): (r: State)
    requires Valid(s)
    ensures Valid(r)
    ensures r.items == s.items && r.activeIndex == s.activeIndex && r.currentDrag == s.currentDrag
    ensures r.selectedKeys.Keys == set k | k in s.items
    ensures forall k :: k in s.items ==> r.selectedKeys[k] == selected
  {
    s.(selectedKeys := map k | k in s.items :: selected)
  }

  /** `setActiveItem`: the active index becomes the item's position, or none when the item
      is not in the list. */
  function SetActiveItem(s: State, key: Key): (r: State)
    requires Valid(s)
    ensures Valid(r)
    ensures r.items == s.items && r.selectedKeys == s.selectedKeys && r.currentDrag == s.currentDrag
    ensures r.activeIndex.Some? <==> key in s.items
    ensures r.activeIndex.Some? ==> s.items[r.activeIndex.value] == key
  {
    s.(activeIndex := IndexOf(s.items, key))
  }

  /** `clear`: removes the active item and touches nothing else. */
  function Clear(s: State): (r: State)
    requires Valid(s)
    ensures Valid(r) && r.activeIndex.None?
    ensures r.items == s.items && r.selectedKeys == s.selectedKeys && r.currentDrag == s.currentDrag
  {
    s.(activeIndex := None)
  }

  /** `r` differs from `s` in its committed selection only in that every item between the
      old anchor and `r`'s active index, inclusive, is set to `selecting` (when `selecting`
      is given and `r` has an active item). */
  predicate RangeApplied(s: State, r: State, selecting: Option<bool>)
    requires Valid(s)
  {
    && r.selectedKeys.Keys == s.selectedKeys.Keys
    && (forall k :: k in s.selectedKeys && k !in s.items ==> r.selectedKeys[k] == s.selectedKeys[k])
    && (forall x :: 0 <= x < |s.items| ==>
          r.selectedKeys[s.items[x]] ==
            if selecting.Some? && r.activeIndex.Some? && InRange(Anchor(s), r.activeIndex.value, x)
            then selecting.value
            else s.selectedKeys[s.items[x]])
  }

  /** `move`: clamp the new active index, then (when selecting) set the inclusive range
      from the old active index (0 if none) to the new one. */
  function Move(s: State, index: int, selecting: Option<bool>): (r: State)
    requires Valid(s)
    ensures Valid(r)
    ensures r.items == s.items && r.currentDrag == s.currentDrag
    ensures r.activeIndex == Clamp(index, |s.items|)
    ensures RangeApplied(s, r, selecting)
    ensures selecting.None? ==> r.selectedKeys == s.selectedKeys
  {
    var newIndex := Clamp(index, |s.items|);
    var moved := s.(activeIndex := newIndex);
    if selecting.Some? && newIndex.Some? then
      ItemRangeExactAll(s.items, Anchor(s), newIndex.value);
      SetItemsSelected(moved, ItemRange(s.items, Anchor(s), newIndex.value), selecting.value)
    else
      moved
  }

  /** `next`: one item down, to the first item when none is active, staying on the last. */
  function Next(s: State, selecting: Option<bool>): (r: State)
    requires Valid(s)
    ensures Valid(r) && r.items == s.items && r.currentDrag == s.currentDrag
    ensures r.activeIndex ==
      if |s.items| == 0 then None
      else if s.activeIndex.None? then Some(0)
      else if s.activeIndex.value == |s.items| - 1 then s.activeIndex
      else Some(s.activeIndex.value + 1)
    ensures RangeApplied(s, r, selecting)
    ensures selecting.None? ==> r.selectedKeys == s.selectedKeys
  {
    Move(s, if s.activeIndex.None? then 0 else s.activeIndex.value + 1, selecting)
  }

  /** `previous`: one item up, to the first item when none is active, staying on the first. */
  function Previous(s: State, selecting: Option<bool>): (r: State)
    requires Valid(s)
    ensures Valid(r) && r.items == s.items && r.currentDrag == s.currentDrag
    ensures r.activeIndex ==
      if |s.items| == 0 then None
      else if s.activeIndex.None? || s.activeIndex.value == 0 then Some(0)
      else Some(s.activeIndex.value - 1)
    ensures RangeApplied(s, r, selecting)
    ensures selecting.None? ==> r.selectedKeys == s.selectedKeys
  {
    Move(s, if s.activeIndex.None? then 0 else s.activeIndex.value - 1, selecting)
  }

  /** `top`: to the first item. */
  function Top(s: State, selecting: Option<bool>): (r: State)
    requires Valid(s)
    ensures Valid(r) && r.items == s.items && r.currentDrag == s.currentDrag
    ensures r.activeIndex == if |s.items| == 0 then None else Some(0)
    ensures RangeApplied(s, r, selecting)
    ensures selecting.None? ==> r.selectedKeys == s.selectedKeys
  {
    Move(s, 0, selecting)
  }

  /** `bottom`: to the last item. */
  function Bottom(s: State, selecting: Option<bool>): (r: State)
    requires Valid(s)
    ensures Valid(r) && r.items == s.items && r.currentDrag == s.currentDrag
    ensures r.activeIndex == if |s.items| == 0 then None else Some(|s.items| - 1)
    ensures RangeApplied(s, r, selecting)
    ensures selecting.None? ==> r.selectedKeys == s.selectedKeys
  {
    Move(s, |s.items| - 1, selecting)
  }

  /** `toggleItemSelected`: flips a tracked key's committed selection; an untracked key is
      left alone. */
  function ToggleItemSelected(s: State, key: Key): (r: State)
    requires Valid(s)
    ensures Valid(r)
    ensures key !in s.selectedKeys ==> r == s
    ensures key in s.selectedKeys ==> r == s.(selectedKeys := s.selectedKeys[key := !s.selectedKeys[key]])
  {
    if key in s.selectedKeys then SetItemSelected(s, key, !s.selectedKeys[key]) else s
  }

  /** `toggleActiveItemSelected` as intended: flips the active item's committed selection
      and is a no-op without an active item. */
  function ToggleActiveItemSelected(s: State): (r: State)
    requires Valid(s)
    ensures Valid(r)
    ensures r.items == s.items && r.activeIndex == s.activeIndex && r.currentDrag == s.currentDrag
    ensures s.activeIndex.None? ==> r == s
    ensures r.selectedKeys.Keys == s.selectedKeys.Keys
    ensures forall k :: k in s.selectedKeys ==>
      r.selectedKeys[k] == if s.activeIndex.Some? && k == s.items[s.activeIndex.value]
                           then !s.selectedKeys[k] else s.selectedKeys[k]
  {
    if s.activeIndex.Some? then ToggleItemSelected(s, s.items[s.activeIndex.value]) else s
  }

  /** JavaScript truthiness of an item that is a number, as in the hook's own tests: only 0 is falsy. */
  predicate Truthy(item: Key) { item != 0 }

  /** `toggleActiveItemSelected` as written: the `if (item)` guard also skips a falsy item. */
  function ToggleActiveItemSelectedAsWritten(s: State): (r: State)
    requires Valid(s)
    ensures s.activeIndex.Some? && !Truthy(s.items[s.activeIndex.value]) ==> r == s
    ensures s.activeIndex.None? || Truthy(s.items[s.activeIndex.value]) ==> r == ToggleActiveItemSelected(s)
  {
    if s.activeIndex.Some? then
      var item := s.items[s.activeIndex.value];
      if Truthy(item) then ToggleItemSelected(s, item) else s
    else s
  }

  /** With numeric items, the guard makes the active item 0 impossible to toggle, while the
      intended toggle selects it. */
  lemma ToggleSkipsItemZero()
    ensures
      var s := Init([0, 1]).(activeIndex := Some(0));
      && Valid(s)
      && ToggleActiveItemSelectedAsWritten(s) == s
      && ToggleActiveItemSelected(s).selectedKeys[0]
  {
    var s := Init([0, 1]).(activeIndex := Some(0));
    assert s.items[0] == 0;
  }

  /** `startDrag`: begins a one-item drag at the item, when the item is in the list. */
  function StartDrag(s: State, key: Key, selecting: bool): (r: State)
    requires Valid(s)
    ensures Valid(r)
    ensures r.(currentDrag := s.currentDrag) == s
    ensures key !in s.items ==> r == s
    ensures key in s.items ==>
      && r.currentDrag.Some?
      && r.currentDrag.value.start == r.currentDrag.value.end
      && s.items[r.currentDrag.value.start] == key
      && r.currentDrag.value.selecting == selecting
  {
    match IndexOf(s.items, key)
    case Some(index) => s.(currentDrag := Some(Drag(index, index, selecting)))
    case None => s
  }

  /** `continueDrag`: moves the drag's end to the item; no-op without a drag or for an
      item not in the list. */
  function ContinueDrag(s: State, key: Key): (r: State)
    requires Valid(s)
    ensures Valid(r)
    ensures r.(currentDrag := s.currentDrag) == s
    ensures s.currentDrag.None? || key !in s.items ==> r == s
    ensures s.currentDrag.Some? && key in s.items ==>
      && r.currentDrag.Some?
      && r.currentDrag.value.start == s.currentDrag.value.start
      && r.currentDrag.value.selecting == s.currentDrag.value.selecting
      && s.items[r.currentDrag.value.end] == key
  {
    if s.currentDrag.None? then s
    else
      match IndexOf(s.items, key)
      case Some(index) => s.(currentDrag := Some(s.currentDrag.value.(end := index)))
      case None => s
  }

  /** `commitDrag`: the drag's range gets the drag's value for good, the drag end becomes
      the active item and the drag ends; no-op without a drag. */
  function CommitDrag(s: State): (r: State)
    requires Valid(s)
    ensures Valid(r) && r.items == s.items && r.currentDrag.None?
    ensures s.currentDrag.None? ==> r == s
    ensures s.currentDrag.Some? ==> r.activeIndex == Some(s.currentDrag.value.end)
    ensures r.selectedKeys.Keys == s.selectedKeys.Keys
    ensures forall k :: k in s.selectedKeys && k !in s.items ==> r.selectedKeys[k] == s.selectedKeys[k]
    ensures s.currentDrag.Some? ==> forall x :: 0 <= x < |s.items| ==>
      r.selectedKeys[s.items[x]] ==
        if InRange(s.currentDrag.value.start, s.currentDrag.value.end, x)
        then s.currentDrag.value.selecting
        else s.selectedKeys[s.items[x]]
  {
    match s.currentDrag
    case None => s
    case Some(drag) =>
      ItemRangeExactAll(s.items, drag.start, drag.end);
      var committed := SetItemsSelected(s, ItemRange(s.items, drag.start, drag.end), drag.selecting);
      committed.(activeIndex := Clamp(drag.end, |s.items|), currentDrag := None)
  }

  /** `abortDrag`: drops the drag; the committed state is untouched. */
  function AbortDrag(s: State): (r: State)
    requires Valid(s)
    ensures Valid(r) && r.currentDrag.None?
    ensures r.items == s.items && r.activeIndex == s.activeIndex && r.selectedKeys == s.selectedKeys
  {
    s.(currentDrag := None)
  }

  /** The items-changed effect: new keys start unselected, surviving keys keep their
      committed selection, entries of keys that just left the list stay in the map, the
      active item follows its key (or is cleared), and any drag ends. */
  function ItemsChanged(s: State, newItems: seq<Key>): (r: State)
    requires Valid(s) && Distinct(newItems)
    ensures Valid(r) && r.items == newItems && r.currentDrag.None?
    ensures r.selectedKeys.Keys == (set k | k in newItems) + (set k | k in s.items)
    ensures forall k :: k in newItems ==> r.selectedKeys[k] == (k in s.items && s.selectedKeys[k])
    ensures forall k :: k in s.items && k !in newItems ==> r.selectedKeys[k] == s.selectedKeys[k]
    ensures s.activeIndex.None? ==> r.activeIndex.None?
    ensures s.activeIndex.Some? ==> (r.activeIndex.Some? <==> s.items[s.activeIndex.value] in newItems)
    ensures s.activeIndex.Some? && r.activeIndex.Some? ==> newItems[r.activeIndex.value] == s.items[s.activeIndex.value]
  {
    var unselected := map k | k in newItems :: false;
    var kept := map k | k in s.selectedKeys && k in s.items :: s.selectedKeys[k];
    assert unselected.Keys == set k | k in newItems;
    assert kept.Keys == set k | k in s.items;
    var selectedKeys := unselected + kept;
    var activeIndex := if s.activeIndex.Some? then IndexOf(newItems, s.items[s.activeIndex.value]) else None;
    State(newItems, activeIndex, selectedKeys, None)
  }

  // ---------------------------------------------------------------------------------------
  // Derived views
  // ---------------------------------------------------------------------------------------

  /** `selectedKeysWithDrag`: the committed map with the drag's range overlaid. */
  function SelectedKeysWithDrag(s: State): (m: map<Key, bool>)
    requires Valid(s)
    ensures m.Keys == s.selectedKeys.Keys
  {
    match s.currentDrag
    case None => s.selectedKeys
    case Some(drag) =>
      var overlay := map k | k in ItemRange(s.items, drag.start, drag.end) :: drag.selecting;
      assert overlay.Keys <= s.selectedKeys.Keys;
      s.selectedKeys + overlay
  }

  /** `isItemSelected`: the item's value in the overlaid map, false for an untracked key. */
  function IsItemSelected(s: State, key: Key): (r: bool)
    requires Valid(s)
    ensures key !in s.selectedKeys ==> !r
    ensures s.currentDrag.None? ==> (r <==> key in s.selectedKeys && s.selectedKeys[key])
  {
    var withDrag := SelectedKeysWithDrag(s);
    if key in withDrag then withDrag[key] else false
  }

  /** `activeItem`: the item at the drag end during a drag, else at the active index. */
  function ActiveItem(s: State): (r: Option<Key>)
    requires Valid(s)
    ensures r.Some? ==> r.value in s.items
    ensures s.currentDrag.Some? ==> r == Some(s.items[s.currentDrag.value.end])
    ensures s.currentDrag.None? ==> (r.Some? <==> s.activeIndex.Some?)
    ensures s.currentDrag.None? && r.Some? ==> r.value == s.items[s.activeIndex.value]
  {
    var index := if s.currentDrag.Some? then Some(s.currentDrag.value.end) else s.activeIndex;
    match index
    case None => None
    case Some(i) => Some(s.items[i])
  }

  /** `isActiveItem`: the key is that of the active item. */
  function IsActiveItem(s: State, key: Key): (r: bool)
    requires Valid(s)
    ensures r ==> key in s.items
    ensures r <==> ActiveItem(s) == Some(key)
  {
    var active := ActiveItem(s);
    active.Some? && active.value == key
  }

  /** `isDragging`. */
  function IsDragging(s: State): (r: bool)
    ensures r <==> s.currentDrag.Some?
  {
    s.currentDrag != None
  }

  /** `selectedItems`: the current items that report selected, in list order. */
  function SelectedItems(s: State): (r: seq<Key>)
    requires Valid(s)
    ensures r == Filter(s.items, (k: Key) => IsItemSelected(s, k))
    ensures forall k :: k in r <==> k in s.items && IsItemSelected(s, k)
    ensures Distinct(r)
  {
    var withDrag := SelectedKeysWithDrag(s);
    var p := (k: Key) => k in withDrag && withDrag[k];
    FilterExact(s.items, p);
    FilterDistinct(s.items, p);
    FilterCongruent(s.items, p, (k: Key) => IsItemSelected(s, k));
    Filter(s.items, p)
  }

  // ---------------------------------------------------------------------------------------
  // Properties relating several operations and views
  // ---------------------------------------------------------------------------------------

  /** The selected items depend only on the items, the committed selection and the drag,
      not on the active item. */
  lemma SelectedItemsIgnoreActive(s: State, t: State)
    requires Valid(s) && Valid(t)
    requires s.items == t.items && s.selectedKeys == t.selectedKeys && s.currentDrag == t.currentDrag
    ensures SelectedItems(s) == SelectedItems(t)
  {
    var ms := SelectedKeysWithDrag(s);
    var mt := SelectedKeysWithDrag(t);
    FilterCongruent(s.items, (k: Key) => k in ms && ms[k], (k: Key) => k in mt && mt[k]);
  }

  /** Initially nothing is active and nothing is selected. */
  lemma InitSelectsNothing(items: seq<Key>)
    requires Distinct(items)
    ensures ActiveItem(Init(items)).None?
    ensures SelectedItems(Init(items)) == []
  {
    var s := Init(items);
    var m := SelectedKeysWithDrag(s);
    FilterNone(items, (k: Key) => k in m && m[k]);
  }

  /** During a drag, an item in the drag's range reports the drag's value and every other
      item reports its committed value. */
  lemma DragOverlay(s: State, x: int)
    requires Valid(s) && s.currentDrag.Some? && 0 <= x < |s.items|
    ensures IsItemSelected(s, s.items[x]) ==
      if InRange(s.currentDrag.value.start, s.currentDrag.value.end, x)
      then s.currentDrag.value.selecting
      else s.selectedKeys[s.items[x]]
  {
    ItemRangeExact(s.items, s.currentDrag.value.start, s.currentDrag.value.end, x);
  }

  /** Moving a drag's end so that an item leaves the range reverts that item to its
      committed value; the active item is the new drag end. */
  lemma DragShrinkReverts(s: State, key: Key, x: int)
    requires Valid(s) && s.currentDrag.Some? && key in s.items && 0 <= x < |s.items|
    requires InRange(s.currentDrag.value.start, s.currentDrag.value.end, x)
    requires !InRange(s.currentDrag.value.start, IndexOf(s.items, key).value, x)
    ensures IsItemSelected(ContinueDrag(s, key), s.items[x]) == s.selectedKeys[s.items[x]]
    ensures ActiveItem(ContinueDrag(s, key)) == Some(key)
  {
    var r := ContinueDrag(s, key);
    DragOverlay(r, x);
  }

  /** Any number of drag moves. */
  function ContinueDrags(s: State, keys: seq<Key>): (r: State)
    requires Valid(s)
    ensures Valid(r)
    decreases |keys|
  {
    if keys == [] then s else ContinueDrags(ContinueDrag(s, keys[0]), keys[1..])
  }

  lemma {:induction false} ContinueDragsOnlyMoveTheDrag(s: State, keys: seq<Key>)
    requires Valid(s)
    ensures ContinueDrags(s, keys).(currentDrag := s.currentDrag) == s
    decreases |keys|
  {
    if keys != [] {
      var t := ContinueDrag(s, keys[0]);
      ContinueDragsOnlyMoveTheDrag(t, keys[1..]);
    }
  }

  /** Aborting a drag, however far it was moved, restores the state from before the drag
      started: the same active item and the same committed selection. */
  lemma AbortRestores(s: State, key: Key, selecting: bool, keys: seq<Key>)
    requires Valid(s)
    ensures AbortDrag(ContinueDrags(StartDrag(s, key, selecting), keys)) == s.(currentDrag := None)
  {
    ContinueDragsOnlyMoveTheDrag(StartDrag(s, key, selecting), keys);
  }

  /** Committing a drag keeps what the user sees: every item reports the same selection and
      the active item is the same, with the drag gone. */
  lemma CommitKeepsView(s: State, x: int)
    requires Valid(s) && 0 <= x < |s.items|
    ensures IsItemSelected(CommitDrag(s), s.items[x]) == IsItemSelected(s, s.items[x])
    ensures ActiveItem(CommitDrag(s)) == ActiveItem(s)
    ensures !IsDragging(CommitDrag(s))
  {
    if s.currentDrag.Some? {
      DragOverlay(s, x);
    }
  }

  /** After the items change, the selected items are exactly the new items that were
      current and committed-selected before, in the new order. */
  lemma ItemsChangedSelectedItems(s: State, newItems: seq<Key>)
    requires Valid(s) && Distinct(newItems)
    ensures SelectedItems(ItemsChanged(s, newItems)) ==
      Filter(newItems, k => k in s.items && k in s.selectedKeys && s.selectedKeys[k])
  {
    var r := ItemsChanged(s, newItems);
    var withDrag := SelectedKeysWithDrag(r);
    FilterCongruent(newItems, (k: Key) => k in withDrag && withDrag[k],
                    k => k in s.items && k in s.selectedKeys && s.selectedKeys[k]);
  }

  /** Selecting all with no drag in progress shows every item selected, in order;
      deselecting all shows none. */
  lemma SetAllSelectedView(s: State, selected: bool)
    requires Valid(s) && s.currentDrag.None?
    ensures SelectedItems(SetAllSelected(s, selected)) == if selected then s.items else []
  {
    var r := SetAllSelected(s, selected);
    var m := SelectedKeysWithDrag(r);
    var p := (k: Key) => k in m && m[k];
    if selected {
      FilterAll(s.items, p);
    } else {
      FilterNone(s.items, p);
    }
  }
}

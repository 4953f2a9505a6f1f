/**
 * The `MultiSelectList` component: how keyboard and mouse events on the list turn into
 * calls of the hook's operations. A handler is described as the sequence of hook calls it
 * makes (`Op`s), applied one after the other to the hook's state; the handler methods at
 * the end make the same calls on a `UseMultiSelect.MultiSelect` object and are proved to
 * reach the state the sequence describes.
 */
module MultiSelectList {
  import opened Wrappers
  import Seqs
  import Selection
  import UseMultiSelect

  type Key = Selection.Key

  /** The fields of a keyboard event that the list reads. */
  datatype KeyEvent = KeyEvent(key: string, shiftKey: bool, ctrlKey: bool, metaKey: bool)

  /** One call of a hook operation. */
  datatype Op =
    | AbortDrag
    | Next(Option<bool>)
    | Previous(Option<bool>)
    | Top(Option<bool>)
    | Bottom(Option<bool>)
    | Clear
    | ToggleActiveItemSelected
    | SetAllSelected(bool)
    | SetActiveItem(Key)
    | SetItemSelected(Key, bool)
    | StartDrag(Key, bool)
    | ContinueDrag(Key)
    | CommitDrag

  /** The effect of one call on the hook's state. */
  function Apply(s: Selection.State, op: Op): (r: Selection.State)
    requires Selection.Valid(s)
    ensures Selection.Valid(r) && r.items == s.items
  {
    match op
    case AbortDrag => Selection.AbortDrag(s)
    case Next(selecting) => Selection.Next(s, selecting)
    case Previous(selecting) => Selection.Previous(s, selecting)
    case Top(selecting) => Selection.Top(s, selecting)
    case Bottom(selecting) => Selection.Bottom(s, selecting)
    case Clear => Selection.Clear(s)
    case ToggleActiveItemSelected => Selection.ToggleActiveItemSelected(s)
    case SetAllSelected(selected) => Selection.SetAllSelected(s, selected)
    case SetActiveItem(key) => Selection.SetActiveItem(s, key)
    case SetItemSelected(key, selected) => Selection.SetItemSelected(s, key, selected)
    case StartDrag(key, selecting) => Selection.StartDrag(s, key, selecting)
    case ContinueDrag(key) => Selection.ContinueDrag(s, key)
    case CommitDrag => Selection.CommitDrag(s)
  }

  /** The effect of a sequence of calls, first to last. */
  function ApplyAll(s: Selection.State, ops: seq<Op>): (r: Selection.State)
    requires Selection.Valid(s)
    ensures Selection.Valid(r) && r.items == s.items
    decreases |ops|
  {
    if ops == [] then s else ApplyAll(Apply(s, ops[0]), ops[1..])
  }

  /** The calls a handler makes and whether it calls `preventDefault`. */
  datatype Dispatch = Dispatch(ops: seq<Op>, preventDefault: bool)

  /** With Shift held a move selects, or deselects when Ctrl is also held; without Shift it
      leaves the selection alone. */
  function Selecting(event: KeyEvent): (r: Option<bool>)
    ensures r.None? <==> !event.shiftKey
    ensures r == Some(true) <==> event.shiftKey && !event.ctrlKey
    ensures r == Some(false) <==> event.shiftKey && event.ctrlKey
  {
    if event.shiftKey then Some(!event.ctrlKey) else None
  }

  /** The keys the list reacts to. */
  predicate Handled(key: string) {
    key == "ArrowDown" || key == "ArrowUp" || key == "Escape" || key == " " || key == "a"
  }

  /** `handleKeyDown`: every key first aborts a drag; the handled keys then call their
      operation and suppress the browser's default action. */
  function KeyDown(event: KeyEvent): (d: Dispatch)
    ensures |d.ops| >= 1 && d.ops[0] == AbortDrag
    ensures d.preventDefault <==> Handled(event.key)
    ensures !Handled(event.key) ==> d.ops == [AbortDrag]
    ensures event.key == "a" && !event.metaKey ==> d.ops == [AbortDrag]
  {
    var selecting := Selecting(event);
    if event.key == "ArrowDown" then
      Dispatch([AbortDrag, if event.metaKey then Bottom(selecting) else Next(selecting)], true)
    else if event.key == "ArrowUp" then
      Dispatch([AbortDrag, if event.metaKey then Top(selecting) else Previous(selecting)], true)
    else if event.key == "Escape" then
      Dispatch([AbortDrag, Clear], true)
    else if event.key == " " then
      Dispatch([AbortDrag, ToggleActiveItemSelected], true)
    else if event.key == "a" then
      if event.metaKey then
        var selected := !event.ctrlKey;
        Dispatch([AbortDrag, SetAllSelected(selected), if selected then Bottom(None) else Clear], true)
      else
        Dispatch([AbortDrag], true)
    else
      Dispatch([AbortDrag], false)
  }

  /** `handleStartDrag` (mouse down on an item): with Meta held, start a drag that flips
      the item's visible selection; otherwise select only that item and make it active. */
  function MouseDown(s: Selection.State, metaKey: bool, key: Key): (ops: seq<Op>)
    requires Selection.Valid(s)
    ensures metaKey ==> ops == [StartDrag(key, !Selection.IsItemSelected(s, key))]
    ensures !metaKey ==> ops == [SetAllSelected(false), SetActiveItem(key), SetItemSelected(key, true)]
  {
    if metaKey then [StartDrag(key, !Selection.IsItemSelected(s, key))]
    else [SetAllSelected(false), SetActiveItem(key), SetItemSelected(key, true)]
  }

  /** `handleDragging` (mouse move over an item): extends a drag in progress and then
      suppresses the default; does nothing otherwise. */
  function MouseMove(s: Selection.State, key: Key): (d: Dispatch)
    ensures d.preventDefault <==> Selection.IsDragging(s)
    ensures !Selection.IsDragging(s) ==> d.ops == []
  {
    if Selection.IsDragging(s) then Dispatch([ContinueDrag(key)], true) else Dispatch([], false)
  }

  /** The document's `mouseup` and `blur` listeners. */
  function MouseUp(): (ops: seq<Op>)
    ensures ops == [CommitDrag]
  {
    [CommitDrag]
  }

  // ---------------------------------------------------------------------------------------
  // What the user sees after each event
  // ---------------------------------------------------------------------------------------

  /** One call. */
  lemma ApplyOne(s: Selection.State, a: Op)
    requires Selection.Valid(s)
    ensures ApplyAll(s, [a]) == Apply(s, a)
  {
    assert [a][1..] == [];
  }

  /** Two calls applied in order. */
  lemma ApplyTwo(s: Selection.State, a: Op, b: Op)
    requires Selection.Valid(s)
    ensures ApplyAll(s, [a, b]) == Apply(Apply(s, a), b)
  {
    assert [a, b][1..] == [b];
    ApplyOne(Apply(s, a), b);
  }

  /** Three calls applied in order. */
  lemma ApplyThree(s: Selection.State, a: Op, b: Op, c: Op)
    requires Selection.Valid(s)
    ensures ApplyAll(s, [a, b, c]) == Apply(Apply(Apply(s, a), b), c)
  {
    assert [a, b, c][1..] == [b, c];
    ApplyTwo(Apply(s, a), b, c);
  }

  /** A call other than starting a drag leaves a state without a drag without one. */
  lemma ApplyKeepsNoDrag(s: Selection.State, op: Op)
    requires Selection.Valid(s) && s.currentDrag.None? && !op.StartDrag?
    ensures Apply(s, op).currentDrag.None?
  {
  }

  /** After any key press no drag is in progress; keys the list does not handle, and a
      plain "a", change nothing else. */
  lemma KeyDownEndsDrag(s: Selection.State, event: KeyEvent)
    requires Selection.Valid(s)
    ensures !Selection.IsDragging(ApplyAll(s, KeyDown(event).ops))
    ensures KeyDown(event).ops == [AbortDrag] ==> ApplyAll(s, KeyDown(event).ops) == s.(currentDrag := None)
  {
    var ops := KeyDown(event).ops;
    var a := Selection.AbortDrag(s);
    assert Apply(s, AbortDrag) == a;
    if |ops| == 1 {
      assert ops == [AbortDrag];
      ApplyOne(s, AbortDrag);
    } else if |ops| == 2 {
      assert ops == [AbortDrag, ops[1]] && !ops[1].StartDrag?;
      ApplyTwo(s, AbortDrag, ops[1]);
      ApplyKeepsNoDrag(a, ops[1]);
    } else {
      assert ops == [AbortDrag, ops[1], ops[2]] && !ops[1].StartDrag? && !ops[2].StartDrag?;
      ApplyThree(s, AbortDrag, ops[1], ops[2]);
      ApplyKeepsNoDrag(a, ops[1]);
      ApplyKeepsNoDrag(Apply(a, ops[1]), ops[2]);
    }
  }

  /** The arrow keys move the active item as the hook's moves do, starting from the
      committed state with the drag dropped; Shift makes the move select (with Ctrl,
      deselect) the range it covers. */
  lemma ArrowKeys(s: Selection.State, event: KeyEvent)
    requires Selection.Valid(s)
    requires event.key == "ArrowDown" || event.key == "ArrowUp"
    ensures
      var r := ApplyAll(s, KeyDown(event).ops);
      var a := Selection.AbortDrag(s);
      && r.items == s.items && r.currentDrag.None?
      && (event.key == "ArrowDown" && event.metaKey ==> r.activeIndex == (if s.items == [] then None else Some(|s.items| - 1)))
      && (event.key == "ArrowUp" && event.metaKey ==> r.activeIndex == (if s.items == [] then None else Some(0)))
      && (event.key == "ArrowDown" && !event.metaKey ==> r.activeIndex == Selection.Next(a, None).activeIndex)
      && (event.key == "ArrowUp" && !event.metaKey ==> r.activeIndex == Selection.Previous(a, None).activeIndex)
      && Selection.RangeApplied(a, r, Selecting(event))
      && (!event.shiftKey ==> r.selectedKeys == s.selectedKeys)
  {
    var ops := KeyDown(event).ops;
    ApplyTwo(s, ops[0], ops[1]);
  }

  /** Escape drops the active item; Space flips the committed selection of the active item. */
  lemma EscapeAndSpace(s: Selection.State, event: KeyEvent)
    requires Selection.Valid(s)
    ensures event.key == "Escape" ==>
      ApplyAll(s, KeyDown(event).ops) == s.(activeIndex := None, currentDrag := None)
    ensures event.key == " " ==>
      ApplyAll(s, KeyDown(event).ops) == Selection.ToggleActiveItemSelected(s.(currentDrag := None))
  {
    var a := Selection.AbortDrag(s);
    assert Apply(s, AbortDrag) == a;
    if event.key == "Escape" {
      assert KeyDown(event).ops == [AbortDrag, Clear];
      ApplyTwo(s, AbortDrag, Clear);
      assert Apply(a, Clear) == Selection.Clear(a);
    } else if event.key == " " {
      assert KeyDown(event).ops == [AbortDrag, ToggleActiveItemSelected];
      ApplyTwo(s, AbortDrag, ToggleActiveItemSelected);
      assert Apply(a, ToggleActiveItemSelected) == Selection.ToggleActiveItemSelected(a);
    }
  }

  /** Meta+A shows every item selected, in list order, with the last item active;
      Ctrl+Meta+A shows nothing selected and nothing active. */
  lemma SelectAllShortcut(s: Selection.State, event: KeyEvent)
    requires Selection.Valid(s)
    requires event.key == "a" && event.metaKey
    ensures
      var r := ApplyAll(s, KeyDown(event).ops);
      && !Selection.IsDragging(r)
      && Selection.SelectedItems(r) == (if event.ctrlKey then [] else s.items)
      && Selection.ActiveItem(r) == (if event.ctrlKey || s.items == [] then None else Some(s.items[|s.items| - 1]))
  {
    var a := Selection.AbortDrag(s);
    assert Apply(s, AbortDrag) == a;
    if event.ctrlKey {
      assert KeyDown(event).ops == [AbortDrag, SetAllSelected(false), Clear];
      ApplyThree(s, AbortDrag, SetAllSelected(false), Clear);
      SetAllThen(a, false, Clear);
    } else {
      assert KeyDown(event).ops == [AbortDrag, SetAllSelected(true), Bottom(None)];
      ApplyThree(s, AbortDrag, SetAllSelected(true), Bottom(None));
      SetAllThen(a, true, Bottom(None));
    }
  }

  /** Setting every item's selection with no drag, then moving or clearing the active item
      without selecting, shows exactly the items set. */
  lemma SetAllThen(a: Selection.State, selected: bool, last: Op)
    requires Selection.Valid(a) && a.currentDrag.None?
    requires last == Clear || last == Bottom(None)
    ensures
      var r := Apply(Apply(a, SetAllSelected(selected)), last);
      && !Selection.IsDragging(r)
      && Selection.SelectedItems(r) == (if selected then a.items else [])
      && (last == Clear ==> Selection.ActiveItem(r).None?)
      && (last == Bottom(None) ==> Selection.ActiveItem(r) == (if a.items == [] then None else Some(a.items[|a.items| - 1])))
  {
    var b := Selection.SetAllSelected(a, selected);
    assert Apply(a, SetAllSelected(selected)) == b;
    Selection.SetAllSelectedView(a, selected);
    var r := if last == Clear then Selection.Clear(b) else Selection.Bottom(b, None);
    assert Apply(b, last) == r;
    Selection.SelectedItemsIgnoreActive(r, b);
  }

  /** A plain click makes the item the only selected one and the active one; a click on a
      key that is not in the list leaves nothing selected and nothing active. A drag in
      progress is left running. */
  lemma PlainClickSelectsOnlyItem(s: Selection.State, key: Key)
    requires Selection.Valid(s)
    ensures
      var r := ApplyAll(s, MouseDown(s, false, key));
      && r.items == s.items && r.currentDrag == s.currentDrag
      && r.selectedKeys.Keys == set k | k in s.items
      && (forall k :: k in s.items ==> r.selectedKeys[k] == (k == key))
      && (r.activeIndex.Some? <==> key in s.items)
      && (s.currentDrag.None? ==> Selection.SelectedItems(r) == (if key in s.items then [key] else []))
      && (s.currentDrag.None? ==> Selection.ActiveItem(r) == (if key in s.items then Some(key) else None))
  {
    var r := PlainClickState(s, key);
    if s.currentDrag.None? {
      OnlyKeySelected(r, key);
    }
  }

  /** With no drag, a selection map holding `key` alone as selected shows exactly that key
      (when it is an item) as selected and active. */
  lemma OnlyKeySelected(r: Selection.State, key: Key)
    requires Selection.Valid(r) && r.currentDrag.None?
    requires forall k :: k in r.items ==> r.selectedKeys[k] == (k == key)
    requires r.activeIndex.Some? <==> key in r.items
    requires r.activeIndex.Some? ==> r.items[r.activeIndex.value] == key
    ensures Selection.SelectedItems(r) == (if key in r.items then [key] else [])
    ensures Selection.ActiveItem(r) == (if key in r.items then Some(key) else None)
  {
    var m := Selection.SelectedKeysWithDrag(r);
    assert m == r.selectedKeys;
    var p := (k: Key) => k in m && m[k];
    if key in r.items {
      forall i | 0 <= i < |r.items| ensures p(r.items[i]) <==> r.items[i] == key {
        assert r.items[i] in r.items;
      }
      Seqs.FilterSingle(r.items, p, key);
    } else {
      forall i | 0 <= i < |r.items| ensures !p(r.items[i]) {
        assert r.items[i] in r.items && r.items[i] != key;
      }
      Seqs.FilterNone(r.items, p);
    }
  }

  /** The state a plain click leaves, field by field. */
  lemma PlainClickState(s: Selection.State, key: Key) returns (r: Selection.State)
    requires Selection.Valid(s)
    ensures r == ApplyAll(s, MouseDown(s, false, key)) && Selection.Valid(r)
    ensures r.items == s.items && r.currentDrag == s.currentDrag
    ensures r.selectedKeys.Keys == set k | k in s.items
    ensures forall k :: k in s.items ==> r.selectedKeys[k] == (k == key)
    ensures r.activeIndex.Some? <==> key in s.items
    ensures r.activeIndex.Some? ==> s.items[r.activeIndex.value] == key
  {
    ApplyThree(s, SetAllSelected(false), SetActiveItem(key), SetItemSelected(key, true));
    var a := Selection.SetAllSelected(s, false);
    assert Apply(s, SetAllSelected(false)) == a;
    var b := Selection.SetActiveItem(a, key);
    assert Apply(a, SetActiveItem(key)) == b;
    r := Selection.SetItemSelected(b, key, true);
    assert Apply(b, SetItemSelected(key, true)) == r;
  }

  /** A Meta-click on an item in the list starts a drag on it that shows the item with its
      selection flipped, makes it the active item and leaves the committed state alone; on
      a key not in the list it does nothing. */
  lemma MetaClickStartsDrag(s: Selection.State, key: Key)
    requires Selection.Valid(s)
    ensures
      var r := ApplyAll(s, MouseDown(s, true, key));
      && r.(currentDrag := s.currentDrag) == s
      && (key !in s.items ==> r == s)
      && (key in s.items ==>
            && Selection.IsDragging(r)
            && Selection.ActiveItem(r) == Some(key)
            && Selection.IsItemSelected(r, key) == !Selection.IsItemSelected(s, key))
  {
    var selecting := !Selection.IsItemSelected(s, key);
    ApplyOne(s, StartDrag(key, selecting));
    var r := Selection.StartDrag(s, key, selecting);
    if key in s.items {
      var x := r.currentDrag.value.start;
      Selection.DragOverlay(r, x);
    }
  }

  /** Moving the mouse when no drag is in progress changes nothing; during a drag over an
      item in the list, that item becomes the drag end and the active item. */
  lemma MouseMoveOnlyDrags(s: Selection.State, key: Key)
    requires Selection.Valid(s)
    ensures !Selection.IsDragging(s) ==> ApplyAll(s, MouseMove(s, key).ops) == s
    ensures Selection.IsDragging(s) && key in s.items ==>
      Selection.ActiveItem(ApplyAll(s, MouseMove(s, key).ops)) == Some(key)
    ensures ApplyAll(s, MouseMove(s, key).ops).(currentDrag := s.currentDrag) == s
  {
    var ops := MouseMove(s, key).ops;
    if ops != [] {
      assert ops[1..] == [];
    }
  }

  /** A mouse-up or a blur commits the drag without changing what the user sees. */
  lemma MouseUpKeepsView(s: Selection.State, x: int)
    requires Selection.Valid(s) && 0 <= x < |s.items|
    ensures
      var r := ApplyAll(s, MouseUp());
      && !Selection.IsDragging(r)
      && Selection.IsItemSelected(r, s.items[x]) == Selection.IsItemSelected(s, s.items[x])
      && Selection.ActiveItem(r) == Selection.ActiveItem(s)
  {
    ApplyOne(s, CommitDrag);
    assert Apply(s, CommitDrag) == Selection.CommitDrag(s);
    Selection.CommitKeepsView(s, x);
  }

  // ---------------------------------------------------------------------------------------
  // The handlers, making the calls on the hook object
  // ---------------------------------------------------------------------------------------

  method HandleKeyDown(list: UseMultiSelect.MultiSelect, event: KeyEvent) returns (preventDefault: bool)
    requires list.Valid()
    modifies list
    ensures list.Valid()
    ensures list.Snapshot() == ApplyAll(old(list.Snapshot()), KeyDown(event).ops)
    ensures preventDefault == KeyDown(event).preventDefault
  {
    ghost var s := list.Snapshot();
    ghost var ops := KeyDown(event).ops;
    list.AbortDrag();
    var selecting := if event.shiftKey then Some(!event.ctrlKey) else None;
    if event.key == "ArrowDown" {
      if event.metaKey {
        list.Bottom(selecting);
      } else {
        list.Next(selecting);
      }
      ApplyTwo(s, ops[0], ops[1]);
    } else if event.key == "ArrowUp" {
      if event.metaKey {
        list.Top(selecting);
      } else {
        list.Previous(selecting);
      }
      ApplyTwo(s, ops[0], ops[1]);
    } else if event.key == "Escape" {
      list.Clear();
      ApplyTwo(s, ops[0], ops[1]);
    } else if event.key == " " {
      list.ToggleActiveItemSelected();
      ApplyTwo(s, ops[0], ops[1]);
    } else if event.key == "a" {
      if event.metaKey {
        var selected := !event.ctrlKey;
        list.SetAllSelected(selected);
        if selected {
          list.Bottom(None);
        } else {
          list.Clear();
        }
        ApplyThree(s, ops[0], ops[1], ops[2]);
      } else {
        assert ops[1..] == [];
      }
    } else {
      assert ops[1..] == [];
      return false;
    }
    return true;
  }

  method HandleStartDrag(list: UseMultiSelect.MultiSelect, metaKey: bool, key: Key)
    requires list.Valid()
    modifies list
    ensures list.Valid()
    ensures list.Snapshot() == ApplyAll(old(list.Snapshot()), MouseDown(old(list.Snapshot()), metaKey, key))
  {
    ghost var s := list.Snapshot();
    if metaKey {
      var selected := Selection.IsItemSelected(list.Snapshot(), key);
      list.StartDrag(key, !selected);
      assert MouseDown(s, metaKey, key)[1..] == [];
    } else {
      list.SetAllSelected(false);
      ghost var a := list.Snapshot();
      assert a == Apply(s, SetAllSelected(false));
      list.SetActiveItem(key);
      ghost var b := list.Snapshot();
      assert b == Apply(a, SetActiveItem(key));
      list.SetItemSelected(key, true);
      assert list.Snapshot() == Apply(b, SetItemSelected(key, true));
      ApplyThree(s, SetAllSelected(false), SetActiveItem(key), SetItemSelected(key, true));
    }
  }

  method HandleDragging(list: UseMultiSelect.MultiSelect, key: Key) returns (preventDefault: bool)
    requires list.Valid()
    modifies list
    ensures list.Valid()
    ensures list.Snapshot() == ApplyAll(old(list.Snapshot()), MouseMove(old(list.Snapshot()), key).ops)
    ensures preventDefault == MouseMove(old(list.Snapshot()), key).preventDefault
  {
    ghost var s := list.Snapshot();
    if list.currentDrag.Some? {
      list.ContinueDrag(key);
      assert MouseMove(s, key).ops[1..] == [];
      return true;
    }
    return false;
  }

  method HandleMouseUp(list: UseMultiSelect.MultiSelect)
    requires list.Valid()
    modifies list
    ensures list.Valid()
    ensures list.Snapshot() == ApplyAll(old(list.Snapshot()), MouseUp())
  {
    list.CommitDrag();
    assert MouseUp()[1..] == [];
  }
}

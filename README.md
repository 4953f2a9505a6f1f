# playlist-gen track list, modelled in Dafny

This project models the interactive core of the playlist-gen tracks page:

- the `useMultiSelect` hook: a list with an active item, a map from item key to
  "selected", and a mouse drag that previews a range selection until it is committed or
  aborted;
- the `MultiSelectList` component, which turns key presses and mouse events into calls
  of the hook;
- the label rules:
  - `partitionTracks` and the all-or-nothing `toggleLabel` decision;
  - the `LabelCheckbox` flags;
  - the `TrackList` digit shortcuts;
- the search-box helpers:
  - the head/tail split of the query by `/^(.*?[!(]*)([\S]*)$/` and the resulting
    suggestions;
  - the example list built by `getSearchExamples`.

Items are represented by their keys, which are distinct integers, as in the hook's own
tests.

Files:

- `wrappers.dfy`: `Option` and `Result`.
- `seqs.dfy`: distinctness and an order-preserving filter (`Array.prototype.filter`),
  with their lemmas.
- `selection.dfy`, module `Selection`: the hook's state as a value. It has one function
  per operation and per derived view, and lemmas relating them.
- `use_multi_select.dfy`, module `UseMultiSelect`: the hook as a class.
  - The fields `items`, `activeIndex`, `selectedKeys` and `currentDrag` are updated in
    place, step by step as the hook does, except `ToggleActiveItemSelected`, which is the
    corrected toggle (see Findings). The Space key of `MultiSelectList` therefore uses the
    corrected toggle too.
  - Each method is proved to reach the state that the `Selection` function of the same
    name computes.
- `multi_select_list.dfy`, module `MultiSelectList`: each event handler is the sequence of
  hook calls it makes. Lemmas say what the user sees afterwards. Handler methods make the
  same calls on a `MultiSelect` object.
- `label_toggle.dfy`, `label_checkbox.dfy`, `track_list.dfy`: the label rules.
- `search_examples.dfy`, `search_box.dfy`: the search-box helpers.
  - The regular expression is stated declaratively, including the priorities of
    backtracking: the lazy `.*?` takes the shortest prefix and the greedy `[!(]*` the
    longest run.
  - The computed split is proved to be exactly the match that `exec` reports.

## Model

| member | source | states |
|---|---|---|
| Seqs.Filter | app/tracks/components/MultiSelectList/useMultiSelect.ts:239-242 | the filter is no longer than its input and keeps only elements of the input that pass the test |
| Seqs.FilterExact | app/tracks/components/MultiSelectList/useMultiSelect.ts:239-242 | an element is in the filter exactly when it is in the input and passes the test |
| Seqs.FilterDistinct | app/tracks/components/MultiSelectList/useMultiSelect.ts:239-242 | filtering distinct keys yields distinct keys |
| Seqs.FilterSingle | app/tracks/components/MultiSelectList/MultiSelectList.tsx:86-90 | in a list of distinct keys, a test true of exactly one key keeps just that key |
| Selection.ItemRange | app/tracks/components/MultiSelectList/useMultiSelect.ts:48-56 | `getItemRange` is the inclusive slice between the two indices in either order, so it has length max-min+1 |
| Selection.ItemRangeExactAll | app/tracks/components/MultiSelectList/useMultiSelect.ts:48-56 | an item lies in the range exactly when its index is between the two indices, inclusive |
| Selection.Clamp | app/tracks/components/MultiSelectList/useMultiSelect.ts:58-67 | no index for an empty list; otherwise the index clamped into [0, length-1], unchanged when already inside |
| Selection.IndexOf | app/tracks/components/MultiSelectList/useMultiSelect.ts:69-76 | `findIndex`: the first position holding the key, and none exactly when the key is absent |
| Selection.Init | app/tracks/components/MultiSelectList/useMultiSelect.ts:42-46 | the first render has no active item, no drag, and every item tracked as unselected |
| Selection.SetActiveItem | app/tracks/components/MultiSelectList/useMultiSelect.ts:69-76 | the active index is the item's position, or none when the item is not in the list; nothing else changes |
| Selection.SetItemsSelected | app/tracks/components/MultiSelectList/useMultiSelect.ts:132-145 | the listed keys that are already tracked get the new value; untracked keys are ignored and every other entry is unchanged |
| Selection.SetItemSelected | app/tracks/components/MultiSelectList/useMultiSelect.ts:128-130 | one tracked key is updated; an untracked key changes nothing |
| Selection.SetAllSelected | app/tracks/components/MultiSelectList/useMultiSelect.ts:163-165 | the map becomes exactly the current items, all with the given value |
| Selection.Clear | app/tracks/components/MultiSelectList/useMultiSelect.ts:124-126 | no active item afterwards, and the selection is untouched |
| Selection.Move | app/tracks/components/MultiSelectList/useMultiSelect.ts:100-106 | the active index is the clamped target; when selecting, exactly the inclusive range from the old active index (0 if none) to the new one gets the value; without `selecting` the selection is unchanged |
| Selection.Next | app/tracks/components/MultiSelectList/useMultiSelect.ts:108-110 | first item when none is active, one down otherwise, staying on the last item; none for an empty list; range rule as for a move |
| Selection.Previous | app/tracks/components/MultiSelectList/useMultiSelect.ts:112-114 | first item when none is active, one up otherwise, staying on the first item; range rule as for a move |
| Selection.Top | app/tracks/components/MultiSelectList/useMultiSelect.ts:116-118 | the active index becomes the first item (none for an empty list); range rule as for a move |
| Selection.Bottom | app/tracks/components/MultiSelectList/useMultiSelect.ts:120-122 | the active index becomes the last item (none for an empty list); range rule as for a move |
| Selection.ToggleItemSelected | app/tracks/components/MultiSelectList/useMultiSelect.ts:147-152 | a tracked key's committed value is negated; an untracked key changes nothing |
| Selection.ToggleActiveItemSelected | app/tracks/components/MultiSelectList/useMultiSelect.ts:154-161 | only the active item's committed value flips; no-op without an active item (the corrected behaviour, see Findings) |
| Selection.ToggleActiveItemSelectedAsWritten | app/tracks/components/MultiSelectList/useMultiSelect.ts:154-161 | as written: identical to the corrected toggle except that a falsy active item (the number 0) is left alone |
| Selection.ToggleSkipsItemZero | app/tracks/components/MultiSelectList/useMultiSelect.ts:157 | for items [0, 1] with item 0 active, the code as written changes nothing, while the intended toggle selects item 0 |
| Selection.StartDrag | app/tracks/components/MultiSelectList/useMultiSelect.ts:167-177 | a one-item drag at the item's position with the given value; an item not in the list changes nothing; the committed state is untouched |
| Selection.ContinueDrag | app/tracks/components/MultiSelectList/useMultiSelect.ts:179-189 | only the drag end moves, to the item's position; no-op without a drag or for an item not in the list |
| Selection.CommitDrag | app/tracks/components/MultiSelectList/useMultiSelect.ts:191-199 | the drag's inclusive range gets the drag's value for good, the drag end becomes the active index and the drag ends; no-op without a drag |
| Selection.AbortDrag | app/tracks/components/MultiSelectList/useMultiSelect.ts:201-203 | the drag ends and the committed state is untouched |
| Selection.ItemsChanged | app/tracks/components/MultiSelectList/useMultiSelect.ts:80-98 | new keys start unselected, surviving keys keep their value, entries of keys that just left stay in the map, the active item follows its key or is cleared, and the drag ends |
| Selection.SelectedKeysWithDrag | app/tracks/components/MultiSelectList/useMultiSelect.ts:205-217 | the overlay tracks exactly the keys of the committed map |
| Selection.IsItemSelected | app/tracks/components/MultiSelectList/useMultiSelect.ts:234-237 | false for an untracked key; without a drag it is the committed value |
| Selection.ActiveItem | app/tracks/components/MultiSelectList/useMultiSelect.ts:219-227 | the item at the drag end during a drag, else the item at the active index; always an item of the list |
| Selection.IsActiveItem | app/tracks/components/MultiSelectList/useMultiSelect.ts:229-232 | true exactly for the key of the active item |
| Selection.IsDragging | app/tracks/components/MultiSelectList/useMultiSelect.ts:260 | true exactly when a drag is in progress |
| Selection.SelectedItems | app/tracks/components/MultiSelectList/useMultiSelect.ts:239-242 | the current items that report selected, in list order (the in-order filter of the items by `isItemSelected`), without repeats |
| Selection.SelectedItemsIgnoreActive | app/tracks/components/MultiSelectList/useMultiSelect.ts:239-242 | the selected items do not depend on the active index |
| Selection.InitSelectsNothing | app/tracks/components/MultiSelectList/useMultiSelect.ts:42-46 | initially nothing is active and nothing is selected |
| Selection.DragOverlay | app/tracks/components/MultiSelectList/useMultiSelect.ts:205-217 | during a drag, items in the inclusive range report the drag's value and all others their committed value |
| Selection.DragShrinkReverts | app/tracks/components/MultiSelectList/useMultiSelect.ts:179-189 | moving the drag end so that an item leaves the range reverts it to its committed value; the new end is the active item |
| Selection.ContinueDragsOnlyMoveTheDrag | app/tracks/components/MultiSelectList/useMultiSelect.ts:179-189 | any number of drag moves change only the drag |
| Selection.AbortRestores | app/tracks/components/MultiSelectList/useMultiSelect.ts:167-203 | start, any moves, then abort gives back the state from before the drag |
| Selection.CommitKeepsView | app/tracks/components/MultiSelectList/useMultiSelect.ts:191-199 | committing keeps every item's visible selection and the active item, and ends the drag |
| Selection.ItemsChangedSelectedItems | app/tracks/components/MultiSelectList/useMultiSelect.ts:80-98 | after the items change, the selected items are the new items that were current and selected before, in the new order |
| Selection.SetAllSelectedView | app/tracks/components/MultiSelectList/useMultiSelect.ts:163-165 | with no drag, select-all shows every item in order and deselect-all shows none |
| UseMultiSelect.FindIndex | app/tracks/components/MultiSelectList/useMultiSelect.ts:72 | the loop returns the first index holding the key, or none when the key is absent |
| UseMultiSelect.MultiSelect.constructor | app/tracks/components/MultiSelectList/useMultiSelect.ts:42-46 | the object starts in the initial state |
| UseMultiSelect.MultiSelect.SetActiveIndex | app/tracks/components/MultiSelectList/useMultiSelect.ts:59-67 | stores the clamped index and returns it |
| UseMultiSelect.MultiSelect.SetActiveItem | app/tracks/components/MultiSelectList/useMultiSelect.ts:69-76 | the new state is `Selection.SetActiveItem` of the old one |
| UseMultiSelect.MultiSelect.SetItemsSelected | app/tracks/components/MultiSelectList/useMultiSelect.ts:132-145 | the loop over the listed keys reaches `Selection.SetItemsSelected` of the old state |
| UseMultiSelect.MultiSelect.SetItemSelected | app/tracks/components/MultiSelectList/useMultiSelect.ts:128-130 | the new state is `Selection.SetItemSelected` of the old one |
| UseMultiSelect.MultiSelect.SetAllSelected | app/tracks/components/MultiSelectList/useMultiSelect.ts:163-165 | the new state is `Selection.SetAllSelected` of the old one |
| UseMultiSelect.MultiSelect.Move | app/tracks/components/MultiSelectList/useMultiSelect.ts:100-106 | the new state is `Selection.Move` of the old one |
| UseMultiSelect.MultiSelect.Next | app/tracks/components/MultiSelectList/useMultiSelect.ts:108-110 | the new state is `Selection.Next` of the old one |
| UseMultiSelect.MultiSelect.Previous | app/tracks/components/MultiSelectList/useMultiSelect.ts:112-114 | the new state is `Selection.Previous` of the old one |
| UseMultiSelect.MultiSelect.Top | app/tracks/components/MultiSelectList/useMultiSelect.ts:116-118 | the new state is `Selection.Top` of the old one |
| UseMultiSelect.MultiSelect.Bottom | app/tracks/components/MultiSelectList/useMultiSelect.ts:120-122 | the new state is `Selection.Bottom` of the old one |
| UseMultiSelect.MultiSelect.Clear | app/tracks/components/MultiSelectList/useMultiSelect.ts:124-126 | the new state is `Selection.Clear` of the old one |
| UseMultiSelect.MultiSelect.ToggleItemSelected | app/tracks/components/MultiSelectList/useMultiSelect.ts:147-152 | the new state is `Selection.ToggleItemSelected` of the old one |
| UseMultiSelect.MultiSelect.ToggleActiveItemSelected | app/tracks/components/MultiSelectList/useMultiSelect.ts:154-161 | the new state is the corrected `Selection.ToggleActiveItemSelected` of the old one |
| UseMultiSelect.MultiSelect.StartDrag | app/tracks/components/MultiSelectList/useMultiSelect.ts:167-177 | the new state is `Selection.StartDrag` of the old one |
| UseMultiSelect.MultiSelect.ContinueDrag | app/tracks/components/MultiSelectList/useMultiSelect.ts:179-189 | the new state is `Selection.ContinueDrag` of the old one |
| UseMultiSelect.MultiSelect.CommitDrag | app/tracks/components/MultiSelectList/useMultiSelect.ts:191-199 | the new state is `Selection.CommitDrag` of the old one |
| UseMultiSelect.MultiSelect.AbortDrag | app/tracks/components/MultiSelectList/useMultiSelect.ts:201-203 | the new state is `Selection.AbortDrag` of the old one |
| UseMultiSelect.MultiSelect.ItemsChanged | app/tracks/components/MultiSelectList/useMultiSelect.ts:80-98 | the new state is `Selection.ItemsChanged` of the old one |
| MultiSelectList.Apply | app/tracks/components/MultiSelectList/MultiSelectList.tsx:18-34 | one hook call keeps the state valid and the items unchanged |
| MultiSelectList.ApplyAll | app/tracks/components/MultiSelectList/MultiSelectList.tsx:18-34 | a sequence of hook calls keeps the state valid and the items unchanged |
| MultiSelectList.Selecting | app/tracks/components/MultiSelectList/MultiSelectList.tsx:39 | none without Shift; with Shift, select unless Ctrl is also held |
| MultiSelectList.KeyDown | app/tracks/components/MultiSelectList/MultiSelectList.tsx:36-71 | every key first aborts the drag; `preventDefault` is called exactly for ArrowDown, ArrowUp, Escape, Space and "a"; other keys and a plain "a" make no further call |
| MultiSelectList.MouseDown | app/tracks/components/MultiSelectList/MultiSelectList.tsx:83-91 | with Meta, start a drag whose value negates the item's visible selection; otherwise deselect all, make the item active and select it |
| MultiSelectList.MouseMove | app/tracks/components/MultiSelectList/MultiSelectList.tsx:93-98 | only a drag in progress is extended, and only then is the default prevented |
| MultiSelectList.MouseUp | app/tracks/components/MultiSelectList/MultiSelectList.tsx:73-81 | a document mouse-up or blur commits the drag |
| MultiSelectList.KeyDownEndsDrag | app/tracks/components/MultiSelectList/MultiSelectList.tsx:36-71 | after any key no drag is in progress; an ignored key or a plain "a" changes nothing else |
| MultiSelectList.ArrowKeys | app/tracks/components/MultiSelectList/MultiSelectList.tsx:40-51 | ArrowDown goes to the bottom with Meta, else to the next item; ArrowUp goes to the top with Meta, else to the previous item; Shift selects (Ctrl+Shift deselects) the range covered; without Shift the selection is unchanged |
| MultiSelectList.EscapeAndSpace | app/tracks/components/MultiSelectList/MultiSelectList.tsx:52-55 | Escape clears the active item; Space toggles the active item's committed selection |
| MultiSelectList.SelectAllShortcut | app/tracks/components/MultiSelectList/MultiSelectList.tsx:56-65 | Meta+A shows every item selected with the last one active; Ctrl+Meta+A shows none selected and none active |
| MultiSelectList.PlainClickSelectsOnlyItem | app/tracks/components/MultiSelectList/MultiSelectList.tsx:86-90 | a plain click leaves exactly the pressed item selected and makes it active; on a key not in the list nothing is selected or active |
| MultiSelectList.PlainClickState | app/tracks/components/MultiSelectList/MultiSelectList.tsx:86-90 | after a plain click the pressed item is the only current item selected, it is active exactly when it is in the list, and the items and any drag are untouched |
| MultiSelectList.OnlyKeySelected | app/tracks/components/MultiSelectList/useMultiSelect.ts:219-242 | with no drag and one key alone selected, the selected items are just that key (none when it is not an item) and it is the active item |
| MultiSelectList.SetAllThen | app/tracks/components/MultiSelectList/MultiSelectList.tsx:57-64 | select-all followed by `bottom(null)` shows every item with the last active; deselect-all followed by `clear` shows none selected and none active |
| MultiSelectList.MetaClickStartsDrag | app/tracks/components/MultiSelectList/MultiSelectList.tsx:84-85 | a Meta-click starts a drag that shows the pressed item's selection flipped and makes it active, without touching the committed state |
| MultiSelectList.MouseMoveOnlyDrags | app/tracks/components/MultiSelectList/MultiSelectList.tsx:93-98 | without a drag a mouse move changes nothing; during one, the hovered item becomes the drag end and the active item |
| MultiSelectList.MouseUpKeepsView | app/tracks/components/MultiSelectList/MultiSelectList.tsx:73-81 | mouse-up ends the drag without changing what any item shows or the active item |
| MultiSelectList.HandleKeyDown | app/tracks/components/MultiSelectList/MultiSelectList.tsx:36-71 | the handler's calls on the object reach the state of the dispatched sequence and return its `preventDefault` |
| MultiSelectList.HandleStartDrag | app/tracks/components/MultiSelectList/MultiSelectList.tsx:83-91 | the handler's calls reach the state of the mouse-down sequence |
| MultiSelectList.HandleDragging | app/tracks/components/MultiSelectList/MultiSelectList.tsx:93-98 | the handler's calls reach the state of the mouse-move sequence and return its `preventDefault` |
| MultiSelectList.HandleMouseUp | app/tracks/components/MultiSelectList/MultiSelectList.tsx:73-81 | the listener commits the drag |
| LabelToggle.PartitionTracks | app/tracks/components/TrackList/useLabelToggle.ts:16-24 | the halves are exactly the tracks with and without the label, so no track lies in both; their lengths sum to the input's, and together they hold the input's tracks with the same multiplicities |
| LabelToggle.PartitionIsFilter | app/tracks/components/TrackList/useLabelToggle.ts:16-24 | both halves keep the input order: they are the in-order filters by the label test and by its negation |
| LabelToggle.Ids | app/tracks/components/TrackList/useLabelToggle.ts:43-50 | the ids of the tracks, position by position |
| LabelToggle.IdsExact | app/tracks/components/TrackList/useLabelToggle.ts:43-50 | an id is listed exactly when some track has it |
| LabelToggle.ToggleRequest | app/tracks/components/TrackList/useLabelToggle.ts:34-54 | no request for no tracks; a removal of all the tracks' ids exactly when every track has the label; otherwise an addition for the ids of the tracks lacking it |
| LabelToggle.AddSkipsLabelled | app/tracks/components/TrackList/useLabelToggle.ts:47-53 | an add request names a track exactly when that track lacks the label |
| LabelToggle.ConnectLabel | app/tracks/mutations/addLabels.ts:36-48 | after a successful add, a track has the label iff it was named or already had it; its other labels and the tracks not named are unchanged |
| LabelToggle.DisconnectLabel | app/tracks/mutations/removeLabels.ts:36-48 | after a successful remove, a track has the label iff it was not named and had it; its other labels and the tracks not named are unchanged |
| LabelToggle.ToggleAllOrNothing | app/tracks/components/TrackList/useLabelToggle.ts:26-54 | after a successful toggle, none of the tracks carries the label if all had it, and all carry it otherwise |
| LabelCheckbox.Checkbox | app/tracks/components/TrackList/LabelCheckbox.tsx:23-43 | checked iff the selection is non-empty and every track has the label; indeterminate iff some track has it and some lacks it; disabled iff the selection is empty or a toggle is in flight; never both checked and indeterminate; an empty selection gives unchecked, determinate and disabled |
| LabelCheckbox.ClickFollowsCheckbox | app/tracks/components/TrackList/LabelCheckbox.tsx:44 | clicking a checked box removes the label from every selected track; clicking any other box adds it to the selected tracks lacking it |
| TrackList.DigitGuard | app/tracks/components/TrackList/TrackList.tsx:43 | a key the guard admits starts with a digit from 1 to 9 |
| TrackList.DigitGuardExact | app/tracks/components/TrackList/TrackList.tsx:43 | the string comparison `"1" <= key <= "9"` admits exactly the keys starting with 1 to 8 and the key "9" |
| TrackList.LabelAt | app/tracks/components/TrackList/TrackList.tsx:44-45 | the label at the digit's index, or none when the index is past the labels |
| TrackList.DigitShortcut | app/tracks/components/TrackList/TrackList.tsx:43-47 | no label with an empty selection or a key outside the guard; a returned label is one of the list |
| TrackList.KeyDownRequest | app/tracks/components/TrackList/TrackList.tsx:43-47 | a key press sends the toggle request of the selected tracks and the chosen label, and nothing when no label is chosen |
| TrackList.KeyboardIndex | app/tracks/components/TrackList/TrackList.tsx:84 | the first nine checkboxes show index+1 and later ones show nothing |
| TrackList.DigitMatchesHint | app/tracks/components/TrackList/TrackList.tsx:39-85 | with tracks selected, digit k toggles exactly the label whose checkbox shows "(k)", and nothing when none shows it |
| SearchBox.WhitespaceEnd | pages/tracks/index.tsx:44 | the position after the last white space character: nothing after it is white space |
| SearchBox.RunEnd | pages/tracks/index.tsx:44 | the end of the run of `!` and `(` from a position |
| SearchBox.HeadLength | pages/tracks/index.tsx:44-46 | there is a head exactly when the query holds no line terminator |
| SearchBox.ExecMatchExact | pages/tracks/index.tsx:44 | the computed split is exactly the match `exec` reports (shortest lazy prefix, then longest run), and there is no match when the query holds a line terminator |
| SearchBox.Head | pages/tracks/index.tsx:45 | `matches[1]` is the query's prefix of the head's length |
| SearchBox.SplitProperties | pages/tracks/index.tsx:44 | head followed by tail is the query; the tail holds no white space and does not start with `!` or `(`; the head is empty iff the query has no white space and does not start with `!` or `(` |
| SearchBox.SearchOptions | pages/tracks/index.tsx:41-60 | fails exactly when an example is mapped and the query does not match; each option's value is the head followed by the example's value, and its label starts with "... " iff the head is non-empty |
| SearchBox.AcceptReplacesTail | pages/tracks/index.tsx:48-49 | accepting an option keeps the head and replaces only the incomplete last term |
| SearchExamples.FixedExamples | app/tracks/queries/getSearchExamples.ts:29-59 | nineteen fixed examples |
| SearchExamples.FirstIndex | app/tracks/queries/getSearchExamples.ts:26-27 | the first position holding the value |
| SearchExamples.Uniq | app/tracks/queries/getSearchExamples.ts:26-27 | lodash `uniq`: the same values as the input, each once |
| SearchExamples.UniqFirstAppearanceOrder | app/tracks/queries/getSearchExamples.ts:26-27 | `uniq` orders values by their first occurrence |
| SearchExamples.TrackAlbumNames | app/tracks/queries/getSearchExamples.ts:26 | one album name per track, in track order (newest first) |
| SearchExamples.TrackArtistNames | app/tracks/queries/getSearchExamples.ts:27 | the flattened artist names hold exactly the artists of the user's tracks |
| SearchExamples.AlbumNames | app/tracks/queries/getSearchExamples.ts:26 | the album names are distinct, are exactly the albums of the user's tracks, and are ordered by each album's first track |
| SearchExamples.ArtistNames | app/tracks/queries/getSearchExamples.ts:27 | the artist names are distinct, are exactly the artists of the user's tracks, and are ordered by first appearance in the flattened artist lists |
| SearchExamples.LabelExample | app/tracks/queries/getSearchExamples.ts:61-64 | the value is the name quoted after `label:`, and the description quotes the name |
| SearchExamples.AlbumExample | app/tracks/queries/getSearchExamples.ts:65-68 | the value is the name quoted after `album:`, and the description ends with the name |
| SearchExamples.ArtistExample | app/tracks/queries/getSearchExamples.ts:69-72 | the value is the name quoted after `artist:`, and the description ends with the name |
| SearchExamples.Flatten | app/tracks/queries/getSearchExamples.ts:27 | `flatMap` holds exactly the names of all tracks |
| SearchExamples.LabelExampleInjective | app/tracks/queries/getSearchExamples.ts:61-64 | different label names give different label examples |
| SearchExamples.AlbumExampleInjective | app/tracks/queries/getSearchExamples.ts:65-68 | different album names give different album examples |
| SearchExamples.ArtistExampleInjective | app/tracks/queries/getSearchExamples.ts:69-72 | different artist names give different artist examples |
| SearchExamples.LabelExamples | app/tracks/queries/getSearchExamples.ts:61-64 | one label example per label name, in order; an example is present iff its name is, and distinct names give distinct examples |
| SearchExamples.AlbumExamples | app/tracks/queries/getSearchExamples.ts:65-68 | one album example per album name, in order; an example is present iff its name is, and distinct names give distinct examples |
| SearchExamples.ArtistExamples | app/tracks/queries/getSearchExamples.ts:69-72 | one artist example per artist name, in order; an example is present iff its name is, and distinct names give distinct examples |
| SearchExamples.GetSearchExamples | app/tracks/queries/getSearchExamples.ts:29-80 | always a success; the 19 fixed examples first, then the label section (one per label, in order), then the album section, then the artist section; length 19 + labels + distinct albums + distinct artists |
| SearchExamples.AlbumExamplesExact | app/tracks/queries/getSearchExamples.ts:26-68 | the album examples name each album of the user's tracks exactly once and no other |
| SearchExamples.ArtistExamplesExact | app/tracks/queries/getSearchExamples.ts:27-72 | the artist examples name each artist of the user's tracks exactly once and no other |

## Left out

- React scheduling is not modelled: batching of setters, closures that read state from
  the last render, effect re-runs and `usePrevious`.
  - The hook is a sequence of operations on one state.
  - An items change is the explicit operation `ItemsChanged`.
  - The handlers in `MultiSelectList.tsx` call the hook one operation after another on
    the state the previous call left. This agrees with the source for every sequence
    they issue.
- `getKey` is the identity and keys are distinct integers. `findIndex` returns the first
  match, so a list with repeated keys would behave differently.
- `isActiveItem` compares keys. It is modelled on the active item's key.
- `getContainerProps` and `getItemProps` only wire the handlers to the DOM. The other
  `onKeyDown` passed to the container (the digit shortcuts) is modelled on its own in
  `TrackList`.
- `toggleLabel`:
  - awaiting the mutation and showing a failure notification on error are not modelled;
  - the `invalidateQuery` refetch is not modelled;
  - a mutation is assumed to succeed whenever its effect is stated.
- The `addLabels`/`removeLabels` resolvers are not modelled beyond their effect on a map
  from track id to label ids.
  - The ownership checks are not modelled; the map's keys stand for the user's tracks.
  - The parallel `Promise.all` updates are not modelled.
- `getSearchExamples`: the database queries are not modelled. Their results are inputs,
  taken in the order the database returns them:
  - the label filter `smartCriteria: null`;
  - the track order `dateAdded` descending.
- `pages/tracks/index.tsx`:
  - the `assert` that throws is modelled as a `Failure` result;
  - the JSX rendering is reduced to the label's three text parts;
  - pagination is left out (number parsing with JavaScript's float semantics, and
    rendering only);
  - the quick-label select is left out;
  - data fetching is left out.
- `LabelCheckbox`: the loader icon and the "(k)" text rendering are left out. The hint
  number is `TrackList.KeyboardIndex`.
- `TrackList.tsx`: the `onBlur` refocusing is left out, because it is DOM focus handling.
- The smart-criteria compiler (`generatePrismaFilter` in `app/lib/smartLabel.ts`) is not
  part of this model. It is a separate compiler from criteria text to a database filter.
- `app/spotify/spotifyApi.ts` is left out: network I/O, the wall clock, and database
  writes.
- The other Blitz resolvers, the auth pages, and the remaining UI components and library
  wrappers are left out. They are database, HTTP or rendering code.

## Findings

| source | as written | input that shows it | evidently intended | confidence | as-written member | corrected member |
|---|---|---|---|---|---|---|
| app/tracks/components/MultiSelectList/useMultiSelect.ts:157 | `if (item)` tests the active item for truthiness before toggling it | numeric items `[0, 1]` (the hook's tests use numbers), item 0 active, Space pressed: nothing is toggled | toggle whenever there is an active item, as the guard only protects against a missing item | not executed | Selection.ToggleActiveItemSelectedAsWritten, Selection.ToggleSkipsItemZero | Selection.ToggleActiveItemSelected |

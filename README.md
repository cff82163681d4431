# Shopping list controller, modelled in Dafny

This project models the list controller of the shopping-list web page
(`script.js`). The page shows a list of item rows. The same items are kept in
the browser's `localStorage` under the key `items` as a JSON array.

The handlers modelled are: submitting the add/update form, clicking a row
(remove or edit), clearing the list, typing in the filter box, and the
helpers they call. The helpers are storage load/append/remove, row creation,
sorting, the duplicate check and the control refresh (`checkUI`).

Layout:

- `wrappers.dfy`: `Option`.
- `seqs.dfy`: sequence helpers: no duplicates, removing the element at an
  index, removing the first occurrence, subsequences.
- `text.dfy`: ASCII lower-casing, `indexOf`, and the filter's match test.
- `sorting.dfy`: a stable insertion sort over a total preorder.
- `store.dfy`: the stored `items` key. `None` means the key is absent.
- `rows.dfy`: the rows of the list. Each row has its text, its `edit-item`
  marker and its visibility. Also the sort of rows by text and `appendChild`
  on a row that is already in the list.
- `transitions.dfy`: the page state `Ui` as a value, with one function per
  handler. It also holds the lemmas about those functions: the two
  invariants and a worked session.
- `controller.dfy`: the class `ShoppingList.ListController`. It keeps the
  page state in fields and has one method per handler and helper it models.
  `displayItems` is its constructor; `getItemsFromStorage` is the function
  `Store.Load`; `TypeItem` stands for the user typing into the input. Each
  handler method ends in exactly the state its `Transitions` function gives,
  and keeps the marker invariant.

Two invariants are stated about the page state:

- `Wf`: at most one row carries the `edit-item` marker, and edit mode implies
  exactly one marked row. The handlers preserve it, and it guarantees that
  the marked-row lookup in the update path finds a row.
- `Synced`: the view has no two rows with the same text, and the view texts
  and the stored items are equal as multisets. Submit, remove, edit and clear
  preserve it. Loading establishes it when the stored items have no duplicates.

Three facts about the code shape the model:

- The new row is part of the sort. `addItemToDOM` (`script.js:88`) runs
  before `addItemToStorage` (`script.js:89`), which calls `sortItems`
  (`script.js:35`). So the sort covers the whole view, new row included.
- The store is only appended to (`script.js:36`), while the view is re-sorted
  on every add. So view and store agree as multisets, not in order.
  `Transitions.SessionAddBread` shows a view of `[Bread, Eggs, Milk]` next to
  a store of `["Milk", "Eggs", "Bread"]`.
- `checkUI` resets the edit flag but does not remove an `edit-item` marker.
  So removing a different row while editing ends edit mode, but the marker
  stays on the row that was being edited. The model keeps that marker
  (`Transitions.Refreshed` leaves the rows unchanged).

The submitted text is the item input's value (`script.js:72`). The input is
part of the state: the user's typing is `Transitions.Typed` (the method
`TypeItem` on the class), `setItemToEdit` writes the edited row's text into
it, and `checkUI` empties it. A refused submission leaves the typed text in
place. Submitting an edit without changing the text is refused as a
duplicate, because the edited row is still rendered
(`Transitions.SubmitUnchangedEdit`).

## Model

| member | source | states |
|---|---|---|
| Store.Load | script.js:25-31 | Definition only: an absent key reads as the empty list, otherwise the stored list itself (JSON parsing not modelled) |
| Store.RemoveAll | script.js:40-44 | The filtered items do not contain the text, contain every other item as often as before, and keep their order (a subsequence) |
| Store.RemoveAllAbsent | script.js:42 | Removing a text that is not stored leaves the items unchanged |
| Text.Lower | script.js:141 | Lower-casing keeps the length and folds each character on its own |
| Text.LowerIdempotent | script.js:141 | Folding twice equals folding once |
| Text.IndexOf | script.js:145 | The result is -1 exactly when the needle does not occur; otherwise it is the first position where it occurs |
| Text.Matches | script.js:144-145 | A row matches exactly when the folded query occurs in the folded text |
| Text.EmptyQueryMatches | script.js:145 | The empty query matches every text |
| Text.MatchesIgnoresQueryCase | script.js:141 | Folding the query first does not change the outcome |
| Sorting.Insert | script.js:156 | Insertion adds exactly the one element (multiset) |
| Sorting.SortBy | script.js:156 | The sort is a permutation of its input |
| Sorting.InsertSorted | script.js:156 | Inserting into a sorted sequence under a total preorder gives a sorted sequence |
| Sorting.SortBySorted | script.js:156 | The sort's output is sorted under a total preorder |
| Rows.Rendered | script.js:55-57 | The rows built from the stored items carry exactly those texts, in order; none is marked and all are displayed |
| Rows.Filtered | script.js:143-150 | Definition: each row's display set from `Text.Matches`; its properties are in `Transitions.FilterProperties` |
| Rows.FindMarked | script.js:81 | Returns the first marked row, or -1 exactly when no row is marked |
| Rows.MarkOnlyFinds | script.js:118-121 | After clearing every marker and marking row i, exactly one row is marked and the lookup finds row i |
| Rows.ByTextPreorder | script.js:156 | Comparing rows by their text is a total preorder when the text order is one |
| Rows.SortedRowsProperties | script.js:153-158 | Sorting the rows permutes them: same rows, texts and marker count, and the texts come out ordered |
| Rows.SortedRows | script.js:154-156 | Definition: the rows sorted by text; its properties are in `Rows.SortedRowsProperties` |
| Rows.AppendChild | script.js:157 | Definition: a row already in the list is moved to the end; used by `Rows.AppendChildStep` |
| Rows.AppendChildStep | script.js:157 | Appending the next sorted row moves it from the unmoved part to the end of the sorted part |
| Rows.MarkedCountRemoveAt | script.js:83 | Removing a row lowers the marker count by that row's marker |
| Rows.PermutedRows | script.js:153-158 | Rows that are a permutation of each other have the same texts (as a multiset) and the same marker count |
| Transitions.Refreshed | script.js:161-170 | Controls are shown exactly when rows remain; edit mode off and the input empty; rows and store untouched; the marker invariant is kept |
| Transitions.Displayed | script.js:55-59 | The view shows exactly the stored items in stored order, all displayed and none marked; no edit mode, input empty, controls shown iff any items; in sync when the stored items are distinct |
| Transitions.DuplicateNoticesCount | script.js:128-138 | With distinct rows, a duplicate raises exactly one notice, otherwise none |
| Transitions.DuplicateNoticesExact | script.js:131-136 | Any notice list with one "already exists" per row carrying the text is the handler's notice list |
| Transitions.DuplicateNoticesNone | script.js:87 | For an accepted item the second duplicate check raises nothing, before or after the edited row is removed |
| Transitions.Submitted | script.js:70-92 | Submits the input's value. Empty or duplicate input leaves the state unchanged, typed text included; an accepted input ends with edit mode off, the input empty and the controls shown |
| Transitions.WithNewItem | script.js:87-89 | Definition: the new row appended and the view sorted, the text appended to the store; its properties are in `Transitions.WithNewItemProperties` |
| Transitions.WithoutRow | script.js:109-110 | Definition: the row removed from the view and its text filtered from the store; its properties are in `Transitions.WithoutRowProperties` |
| Transitions.SubmitIdle | script.js:70-92 | Adding: the store gains the item at the end, the view gains exactly the new row, the texts come out sorted, and the new text is there once |
| Transitions.SubmitEdit | script.js:80-91 | Updating: the edited text leaves the store and the new one is appended; the edited row is replaced by the new row; length kept, sorted, no marker left |
| Transitions.SubmitKeepsInvariants | script.js:70-92 | Every submission keeps the marker invariant and keeps view and store in sync |
| Transitions.WithoutRowProperties | script.js:40-44 | Removing row k drops that row, leaving the others in order, and drops one text and its marker; in sync, the text leaves both view and store |
| Transitions.WithoutRowSynced | script.js:109-110 | In sync, removing a row removes its only copy from the view and every copy from the store, and the result is in sync |
| Transitions.RemoveConfirmed | script.js:105-114 | A confirmed removal drops exactly the clicked row and leaves the others in place; the store keeps the other items in order; controls iff rows remain; both invariants kept |
| Transitions.Removed | script.js:106 | A declined confirmation changes nothing |
| Transitions.WithNewItemProperties | script.js:87-89 | Adding a text not shown adds one row and one stored item, keeps the marker count, and keeps the sync |
| Transitions.EditStarted | script.js:116-126 | setItemToEdit: edit mode on, the marker invariant holds, and the marked-row lookup finds the clicked row |
| Transitions.SubmitUnchangedEdit | script.js:76-77 | Submitting an edit whose text was not changed is refused: the state is unchanged, edit mode stays on, and an alert is raised |
| Transitions.EditStartedProperties | script.js:116-126 | Edit mode on, exactly the clicked row marked, the input shows its text; visibility, texts, store and controls unchanged; sync kept both ways |
| Transitions.Cleared | script.js:61-67 | Definition: rows and key removed, then checkUI; its properties are in `Transitions.ClearedProperties` |
| Transitions.ClearedProperties | script.js:61-67 | No rows, no stored key (a later load is empty), controls hidden, edit mode off; both invariants hold |
| Transitions.Filter | script.js:140-151 | Definition: the rows refiltered with the query; its properties are in `Transitions.FilterProperties` |
| Transitions.FilterProperties | script.js:140-151 | Each row is visible exactly when the folded query occurs in its folded text; texts, markers, store and mode unchanged |
| Transitions.FilterKeepsInvariants | script.js:140-151 | Filtering keeps the marker invariant and the sync of view and store |
| Transitions.FilterEmptyShowsAll | script.js:140-151 | The empty query shows every row |
| Transitions.FilterLastWins | script.js:140-151 | Filtering twice equals filtering with the last query alone |
| Transitions.SessionAddMilk | script.js:70-92 | Adding "Milk" to an empty page gives one row, the store ["Milk"], controls shown |
| Transitions.SessionAddEggs | script.js:33-38 | Adding "Eggs" sorts the view to [Eggs, Milk], while the store becomes ["Milk", "Eggs"] |
| Transitions.SessionSortTwo | script.js:153-158 | The sort orders [Milk, Eggs] as [Eggs, Milk] |
| Transitions.SessionAddBread | script.js:33-38 | Adding "Bread" gives the view [Bread, Eggs, Milk] and the store ["Milk", "Eggs", "Bread"] |
| Transitions.SessionSortThree | script.js:153-158 | The sort orders [Eggs, Milk, Bread] as [Bread, Eggs, Milk] |
| Transitions.SessionFilter | script.js:140-151 | The filter "e" shows Bread and Eggs and hides Milk |
| ShoppingList.ListController.constructor | script.js:55-59 | Loading ends in the state `Displayed` gives for the stored items, with the marker invariant |
| ShoppingList.ListController.AddItemToDOM | script.js:47-53 | The view gains an unmarked, visible row with the text at the end; nothing else changes |
| ShoppingList.ListController.SortItems | script.js:153-158 | Moving each sorted row to the end in turn leaves the rows in sorted order |
| ShoppingList.ListController.AddItemToStorage | script.js:33-38 | The rows are sorted and the store is the loaded items with the item appended |
| ShoppingList.ListController.RemoveItemFromStorage | script.js:40-44 | The store is the loaded items without every copy of the text |
| ShoppingList.ListController.CheckUI | script.js:161-170 | Ends in the state `Refreshed` gives |
| ShoppingList.ListController.ClearItems | script.js:61-67 | Removes rows until none remain and deletes the key: the state `Cleared` gives |
| ShoppingList.ListController.CheckForDuplicates | script.js:128-138 | The answer is true exactly when some row has the text; one "already exists" notice per such row |
| ShoppingList.ListController.OnAddItemSubmit | script.js:70-92 | Ends in the state `Submitted` gives, with the notices the source raises; both invariants kept |
| ShoppingList.ListController.RemoveItem | script.js:105-114 | Ends in the state `Removed` gives; both invariants kept |
| ShoppingList.ListController.SetItemToEdit | script.js:116-126 | Ends in the state `EditStarted` gives; the marker invariant holds, sync kept |
| ShoppingList.ListController.OnItemClicked | script.js:94-103 | A click on the remove icon removes; any other click on a row starts editing it |
| ShoppingList.ListController.FilterItems | script.js:140-151 | Ends in the state `Filter` gives; keeps the marker invariant and the sync |

## Left out

- Building the DOM is left out: the button and icon elements, class names and
  styles (`createButton`, `createIcon`, `script.js:11-23`). A row is its text,
  its marker and its visibility.
- The form button's label and colour (`script.js:122-123`, `script.js:165-166`)
  are left out. They always follow the edit flag, which is modelled.
- `focus()` calls are left out: they change no state the model keeps.
- The user's typing into the item input is a browser event, not part of
  `script.js`. The model writes the input with `Transitions.Typed`.
- JSON encoding is left out. The stored value is the list itself. Malformed
  JSON under the key is not modelled.
- `String.prototype.localeCompare` is an abstract comparator `le`. It is
  assumed to be a total preorder only where a lemma needs order.
- `toLowerCase` folds ASCII letters only. Unicode case mapping is not modelled.
- `alert` becomes a returned list of notices, and `confirm` becomes a boolean
  input.
- The event wiring in `init` is left out (`script.js:173-179`). Each handler is a method.
- A click is given as a row index and a flag saying whether it hit the remove
  icon: the `fa-xmark` icon, or an element whose parent is the `remove-item`
  button (`script.js:95-98`). A click on the button outside its icon has the
  button as target, whose parent is the row, so it starts editing
  (`script.js:101`); the caller passes `false` for it.
- A click on the list that is not inside a row is left out. `closest('li')`
  is then null, and `setItemToEdit(null)` first sets edit mode and clears
  every marker (`script.js:117-120`), then throws at `script.js:121`. The page
  is left in edit mode with no marked row. Until a row is clicked or `checkUI`
  runs, every accepted submission then throws: at `script.js:42`
  (`textContent` of null inside the filter callback) when items are stored,
  or at `script.js:83` when none are. This is the only path into that state,
  and `Transitions.Submitted` excludes it (below).
- The `if (li)` guard in `removeItem` (`script.js:108`) is taken as true: the
  remove icon is always inside a row.
- Element identity is not modelled: rows are values, and two equal rows
  cannot be told apart. `appendChild` moves the first equal row.
- Rows.SortedRowsProperties: states that the sort is an ordered permutation,
  not that it equals the browser's sort element for element. Distinct texts
  can still compare equal under `localeCompare` (canonically equivalent
  strings, for which ECMA-262 requires 0); their order is then kept from the
  input. `Sorting.SortBy` is stable, as `Array.prototype.sort` is, but its
  stability is not stated as a contract.
- Transitions.Submitted: in edit mode it requires some row to carry the
  marker, which the marker invariant guarantees. With no marked row
  `querySelector` returns null (`script.js:81`) and the source throws at
  `script.js:42` or `script.js:83`; the click outside a row above is the only
  way there.
- ShoppingList.ListController.SetItemToEdit: does not require the marker
  invariant on entry, because the source clears every marker first.

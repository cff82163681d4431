/**
 * The list controller of script.js as a class. Its fields are the state the
 * handlers change in place: the rendered rows (the children of #item-list),
 * the value under localStorage key `items`, the module-level isEditMode flag,
 * the value of #item-input, and the display of #clear and #filter. Each
 * handler is proved to end in the state its Transitions function gives.
 */
module ShoppingList {
  import opened Wrappers
  import opened Seqs
  import opened Text
  import opened Sorting
  import opened Rows
  import opened Store
  import opened Transitions

  class ListController {
    var rows: seq<Row>
    var store: Stored
    var editMode: bool
    var input: string
    var controlsShown: bool
    /** The comparison sortItems makes with localeCompare: le(a, b) when a.localeCompare(b) <= 0. */
    const le: (string, string) -> bool

    function Snapshot(): Ui
      reads this
    {
      Ui(rows, store, editMode, input, controlsShown)
    }

    ghost predicate Valid()
      reads this
    {
      Wf(Snapshot())
    }

    /** The page after DOMContentLoaded: displayItems renders the stored list and runs checkUI. */
    constructor (stored: Stored, le: (string, string) -> bool)
      ensures Valid() && this.le == le
      ensures Snapshot() == Displayed(stored)
    {
      rows, store, editMode, input, controlsShown := [], stored, false, "", false;
      this.le := le;
      new;
      var items := Load(store);
      var i := 0;
      while i < |items|
        invariant 0 <= i <= |items|
        invariant rows == Rendered(items[..i])
        invariant store == stored && !editMode && input == "" && !controlsShown
      {
        AddItemToDOM(items[i]);
        i := i + 1;
      }
      assert items[..i] == items;
      CheckUI();
    }

    /** addItemToDOM: a new unmarked, displayed row appended at the end. */
    method AddItemToDOM(item: string)
      modifies this`rows
      ensures rows == old(rows) + [NewRow(item)]
    {
      rows := rows + [NewRow(item)];
    }

    /** sortItems: the rows sorted, then each re-appended in sorted order, which moves it to the end. */
    method SortItems()
      modifies this`rows
      ensures rows == SortedRows(old(rows), le)
    {
      var sorted := SortedRows(rows, le);
      ghost var unmoved := rows;
      var i := 0;
      while i < |sorted|
        invariant 0 <= i <= |sorted|
        invariant multiset(unmoved) == multiset(sorted[i..])
        invariant rows == unmoved + sorted[..i]
      {
        var r := sorted[i];
        AppendChildStep(unmoved, sorted, i);
        rows := AppendChild(rows, r);
        unmoved := Detach(unmoved, r);
        i := i + 1;
      }
      assert |multiset(unmoved)| == 0;
      assert sorted[..i] == sorted;
    }

    /** addItemToStorage: load the items, sort the view, store the items with item appended. */
    method AddItemToStorage(item: string)
      modifies this`rows, this`store
      ensures rows == SortedRows(old(rows), le)
      ensures store == Some(Load(old(store)) + [item])
    {
      var items := Load(store);
      SortItems();
      store := Some(items + [item]);
    }

    /** removeItemFromStorage: store the items without any entry equal to text. */
    method RemoveItemFromStorage(text: string)
      modifies this`store
      ensures store == Some(RemoveAll(Load(old(store)), text))
    {
      var items := Load(store);
      items := RemoveAll(items, text);
      store := Some(items);
    }

    /** checkUI, the part that changes state. */
    method CheckUI()
      modifies this`controlsShown, this`input, this`editMode
      ensures Snapshot() == Refreshed(old(Snapshot()))
    {
      controlsShown := |rows| > 0;
      input := "";
      editMode := false;
    }

    /** clearItems: remove the first row until none is left, remove the key, checkUI. */
    method ClearItems()
      modifies this
      ensures Valid()
      ensures Snapshot() == Cleared(old(Snapshot()))
    {
      while rows != []
        invariant store == old(store) && editMode == old(editMode)
        invariant input == old(input) && controlsShown == old(controlsShown)
        decreases |rows|
      {
        rows := rows[1..];
      }
      store := None;
      CheckUI();
    }

    /**
     * checkForDuplicates: whether some rendered row's text equals item, and the
     * alerts of the forEach loop, one per equal row.
     */
    method CheckForDuplicates(item: string) returns (isDuplicate: bool, notices: seq<Notice>)
      ensures isDuplicate <==> item in Texts(rows)
      ensures |notices| == multiset(Texts(rows))[item]
      ensures forall n :: n in notices ==> n == AlreadyExists
    {
      isDuplicate := false;
      notices := [];
      var i := 0;
      while i < |rows|
        invariant 0 <= i <= |rows|
        invariant isDuplicate <==> item in Texts(rows[..i])
        invariant |notices| == multiset(Texts(rows[..i]))[item]
        invariant forall n :: n in notices ==> n == AlreadyExists
      {
        TextsPrefixStep(rows, i);
        if rows[i].text == item {
          isDuplicate := true;
          notices := notices + [AlreadyExists];
        }
        i := i + 1;
      }
      assert rows[..i] == rows;
    }

    /** The user typing text into #item-input: the browser sets its value. */
    method TypeItem(text: string)
      modifies this`input
      ensures old(Valid()) ==> Valid()
      ensures Snapshot() == Typed(old(Snapshot()), text)
    {
      input := text;
    }

    /** onAddItemSubmit: submits the input's value; returns the alerts it raises. */
    method OnAddItemSubmit() returns (notices: seq<Notice>)
      requires Valid()
      modifies this
      ensures Valid()
      ensures Snapshot() == Submitted(old(Snapshot()), le)
      ensures notices == SubmitNotices(old(rows), old(input))
      ensures Synced(old(Snapshot())) ==> Synced(Snapshot())
    {
      var item := input;
      ghost var before := Snapshot();
      if item == "" {
        notices := [EnterAnItem];
        return;
      }
      var isDuplicate, duplicateNotices := CheckForDuplicates(item);
      if isDuplicate {
        notices := duplicateNotices;
        DuplicateNoticesExact(rows, item, notices);
        return;
      }
      if editMode {
        var k := FindMarked(rows);
        RemoveItemFromStorage(rows[k].text);
        rows := RemoveAt(rows, k);
        editMode := false;
      }
      ghost var base := Snapshot();
      assert base == if before.editMode then EditRemoved(before) else before;
      var stillDuplicate, againNotices := CheckForDuplicates(item);
      DuplicateNoticesNone(before, item);
      AddItemToDOM(item);
      AddItemToStorage(item);
      input := "";
      CheckUI();
      assert Snapshot() == Refreshed(WithNewItem(base, item, le));
      SubmitKeepsInvariants(before, le);
      notices := againNotices;
    }

    /** removeItem on row i (the remove button sits inside the row), with the answer to confirm. */
    method RemoveItem(i: nat, confirmed: bool)
      requires Valid() && i < |rows|
      modifies this
      ensures Valid()
      ensures Snapshot() == Removed(old(Snapshot()), i, confirmed)
      ensures Synced(old(Snapshot())) ==> Synced(Snapshot())
    {
      RemoveConfirmed(Snapshot(), i);
      if confirmed {
        var text := rows[i].text;
        RemoveItemFromStorage(text);
        rows := RemoveAt(rows, i);
        CheckUI();
      }
    }

    /** setItemToEdit on row i: clear every marker, mark row i, show its text in the input. */
    method SetItemToEdit(i: nat)
      requires i < |rows|
      modifies this
      ensures Valid()
      ensures Snapshot() == EditStarted(old(Snapshot()), i)
      ensures Synced(old(Snapshot())) ==> Synced(Snapshot())
    {
      ghost var before := Snapshot();
      EditStartedProperties(before, i);
      editMode := true;
      var j := 0;
      while j < |rows|
        invariant 0 <= j <= |rows| == |old(rows)|
        invariant forall m :: 0 <= m < j ==> rows[m] == old(rows)[m].(marked := false)
        invariant forall m :: j <= m < |rows| ==> rows[m] == old(rows)[m]
        invariant store == old(store) && input == old(input) && editMode
        invariant controlsShown == old(controlsShown)
      {
        rows := rows[j := rows[j].(marked := false)];
        j := j + 1;
      }
      rows := rows[i := rows[i].(marked := true)];
      input := rows[i].text;
      assert rows == MarkOnly(before.rows, i);
    }

    /** onItemClicked on row i: the remove button asks for confirmation, anywhere else starts editing. */
    method OnItemClicked(i: nat, onRemoveButton: bool, confirmed: bool)
      requires Valid() && i < |rows|
      modifies this
      ensures Valid()
      ensures Snapshot() == if onRemoveButton then Removed(old(Snapshot()), i, confirmed)
                            else EditStarted(old(Snapshot()), i)
    {
      if onRemoveButton {
        RemoveItem(i, confirmed);
      } else {
        SetItemToEdit(i);
      }
    }

    /** filterItems with the filter input's value query: each row's display set from the match. */
    method FilterItems(query: string)
      modifies this`rows
      ensures old(Valid()) ==> Valid()
      ensures Snapshot() == Filter(old(Snapshot()), query)
      ensures Synced(old(Snapshot())) ==> Synced(Snapshot())
    {
      ghost var before := Snapshot();
      var text := Lower(query);
      var i := 0;
      while i < |rows|
        invariant 0 <= i <= |rows| == |old(rows)|
        invariant forall m :: 0 <= m < i ==> rows[m] == old(rows)[m].(visible := Matches(query, old(rows)[m].text))
        invariant forall m :: i <= m < |rows| ==> rows[m] == old(rows)[m]
      {
        var itemName := Lower(rows[i].text);
        rows := rows[i := rows[i].(visible := IndexOf(itemName, text) != -1)];
        i := i + 1;
      }
      assert Snapshot() == Filter(before, query);
      FilterKeepsInvariants(before, query);
    }
  }
}

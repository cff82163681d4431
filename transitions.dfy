/**
 * What each handler of the list controller does to the page state, as a
 * function from the state before to the state after, and the properties of
 * those functions. The class in the ShoppingList module runs the same steps
 * imperatively and is proved to end in these states.
 */
module Transitions {
  import opened Wrappers
  import opened Seqs
  import opened Text
  import opened Sorting
  import opened Rows
  import opened Store

  /**
   * Everything the handlers read or write: the rendered rows, the value stored
   * under `items`, the isEditMode flag, the value of the item input (what the
   * user typed, or what the handlers wrote into it), and whether
   * the clear button and the filter input are displayed (checkUI sets both
   * from the same test).
   */
  datatype Ui = Ui(rows: seq<Row>, store: Stored, editMode: bool, input: string, controlsShown: bool)

  /** The alerts a submission can raise. */
  datatype Notice = EnterAnItem | AlreadyExists

  /** At most one row is the edit target, and in edit mode there is one. */
  ghost predicate Wf(u: Ui) {
    MarkedCount(u.rows) <= 1 && (u.editMode ==> MarkedCount(u.rows) == 1)
  }

  /**
   * The view and the store hold the same items, each once; their orders may
   * differ (the view is re-sorted on every add, the store is only appended to).
   */
  ghost predicate Synced(u: Ui) {
    NoDuplicates(Texts(u.rows)) && multiset(Texts(u.rows)) == multiset(Load(u.store))
  }

  /** checkUI: controls shown exactly when rows remain, input cleared, edit mode left. */
  function Refreshed(u: Ui): (r: Ui)
    ensures r.controlsShown <==> r.rows != []
    ensures !r.editMode && r.input == ""
    ensures r.rows == u.rows && r.store == u.store
    ensures Wf(u) ==> Wf(r)
  {
    u.(controlsShown := |u.rows| > 0, input := "", editMode := false)
  }

  /** displayItems on page load: one row per stored item, then checkUI. */
  function Displayed(stored: Stored): (r: Ui)
    ensures Texts(r.rows) == Load(stored) && r.store == stored
    ensures forall j :: 0 <= j < |r.rows| ==> r.rows[j].visible
    ensures MarkedCount(r.rows) == 0 && Wf(r)
    ensures !r.editMode && r.input == "" && (r.controlsShown <==> Load(stored) != [])
    ensures NoDuplicates(Load(stored)) ==> Synced(r)
  {
    Refreshed(Ui(Rendered(Load(stored)), stored, false, "", false))
  }

  /** One "Item already exists" alert per rendered row whose text equals t. */
  function DuplicateNotices(rows: seq<Row>, t: string): seq<Notice> {
    seq(multiset(Texts(rows))[t], _ => AlreadyExists)
  }

  /** With no duplicate rows a submission raises at most one duplicate alert, and one exactly when t is shown. */
  lemma DuplicateNoticesCount(rows: seq<Row>, t: string)
    requires NoDuplicates(Texts(rows))
    ensures |DuplicateNotices(rows, t)| == if t in Texts(rows) then 1 else 0
  {
    NoDuplicatesCount(Texts(rows));
  }

  /** The alerts of checkForDuplicates' loop are exactly DuplicateNotices. */
  lemma DuplicateNoticesExact(rows: seq<Row>, t: string, notices: seq<Notice>)
    requires |notices| == multiset(Texts(rows))[t]
    requires forall n :: n in notices ==> n == AlreadyExists
    ensures notices == DuplicateNotices(rows, t)
  {
    forall j | 0 <= j < |notices| ensures notices[j] == AlreadyExists {
      assert notices[j] in notices;
    }
  }

  /** The alerts onAddItemSubmit raises. */
  function SubmitNotices(rows: seq<Row>, t: string): seq<Notice> {
    if t == "" then [EnterAnItem] else DuplicateNotices(rows, t)
  }

  /** A submission is refused for empty text or text equal to a rendered row's. */
  predicate Rejected(u: Ui, t: string) {
    t == "" || t in Texts(u.rows)
  }

  /**
   * On the valid path no duplicate alert is raised, neither by the first
   * check nor by the repeated one after the edited row has gone.
   */
  lemma DuplicateNoticesNone(u: Ui, t: string)
    requires Wf(u) && !Rejected(u, t)
    ensures DuplicateNotices(u.rows, t) == []
    ensures u.editMode ==> DuplicateNotices(EditRemoved(u).rows, t) == []
  {
    if u.editMode {
      WithoutRowProperties(u, FindMarked(u.rows));
    }
  }

  /** Row k leaves the view; every stored entry equal to its text leaves the store. */
  function WithoutRow(u: Ui, k: nat): Ui
    requires k < |u.rows|
  {
    u.(rows := RemoveAt(u.rows, k), store := Some(RemoveAll(Load(u.store), u.rows[k].text)))
  }

  /** addItemToDOM then addItemToStorage: the new row appended, the view sorted, t appended to the store. */
  function WithNewItem(u: Ui, t: string, le: (string, string) -> bool): Ui {
    u.(rows := SortedRows(u.rows + [NewRow(t)], le), store := Some(Load(u.store) + [t]))
  }

  /** The user typing t into the item input (a browser event, not a handler). */
  function Typed(u: Ui, t: string): Ui {
    u.(input := t)
  }

  /** The edit branch of onAddItemSubmit: the marked row removed, edit mode left. */
  function EditRemoved(u: Ui): Ui
    requires u.editMode && MarkedCount(u.rows) > 0
  {
    WithoutRow(u, FindMarked(u.rows)).(editMode := false)
  }

  /**
   * onAddItemSubmit: the text submitted is the item input's value. In edit
   * mode querySelector('.edit-item') must find a row.
   */
  function Submitted(u: Ui, le: (string, string) -> bool): (r: Ui)
    requires u.editMode ==> MarkedCount(u.rows) > 0
    ensures Rejected(u, u.input) ==> r == u
    ensures !Rejected(u, u.input) ==> !r.editMode && r.input == "" && r.controlsShown
  {
    var t := u.input;
    if Rejected(u, t) then u
    else
      var base := if u.editMode then EditRemoved(u) else u;
      Refreshed(WithNewItem(base, t, le))
  }

  /** removeItem on row i: on confirmation the row and its text go, then checkUI. */
  function Removed(u: Ui, i: nat, confirmed: bool): (r: Ui)
    requires i < |u.rows|
    ensures !confirmed ==> r == u
  {
    if confirmed then Refreshed(WithoutRow(u, i)) else u
  }

  /** setItemToEdit on row i. */
  function EditStarted(u: Ui, i: nat): (r: Ui)
    requires i < |u.rows|
    ensures r.editMode && Wf(r) && FindMarked(r.rows) == i
  {
    MarkOnlyFinds(u.rows, i);
    u.(rows := MarkOnly(u.rows, i), editMode := true, input := u.rows[i].text)
  }

  /** clearItems: every row removed, the key removed, then checkUI. */
  function Cleared(u: Ui): Ui {
    Refreshed(u.(rows := [], store := None))
  }

  /** filterItems with the filter input's value q. */
  function Filter(u: Ui, q: string): Ui {
    u.(rows := Filtered(u.rows, q))
  }

  // ---------------------------------------------------------------------
  // Removing a row

  /** Removing row k removes one row and one text from the view and lowers the marker count by its marker. */
  lemma WithoutRowProperties(u: Ui, k: nat)
    requires k < |u.rows|
    ensures var r := WithoutRow(u, k);
      && r.rows == u.rows[..k] + u.rows[k + 1..]
      && |r.rows| + 1 == |u.rows|
      && multiset(r.rows) == multiset(u.rows) - multiset{u.rows[k]}
      && multiset(Texts(r.rows)) == multiset(Texts(u.rows)) - multiset{u.rows[k].text}
      && MarkedCount(r.rows) == MarkedCount(u.rows) - (if u.rows[k].marked then 1 else 0)
      && (Synced(u) ==> Synced(r) && u.rows[k].text !in Texts(r.rows) && u.rows[k].text !in Load(r.store))
  {
    MarkedCountRemoveAt(u.rows, k);
    RemoveAtMultiset(u.rows, k);
    TextsRemoveAt(u.rows, k);
    RemoveAtMultiset(Texts(u.rows), k);
    if Synced(u) {
      WithoutRowSynced(u, k);
    }
  }

  /** In sync, the one row with that text and every stored copy go together. */
  lemma WithoutRowSynced(u: Ui, k: nat)
    requires k < |u.rows| && Synced(u)
    ensures var r := WithoutRow(u, k);
      Synced(r) && u.rows[k].text !in Texts(r.rows) && u.rows[k].text !in Load(r.store)
  {
    var r := WithoutRow(u, k);
    var t := u.rows[k].text;
    var ts := Texts(u.rows);
    TextsRemoveAt(u.rows, k);
    RemoveAtMultiset(ts, k);
    assert ts[k] == t;
    NoDuplicatesCount(ts);
    NoDuplicatesCount(Texts(r.rows));
    assert multiset(ts)[t] == 1;
    assert multiset(Load(r.store)) == multiset(Load(u.store))[t := 0];
    assert multiset(Texts(r.rows)) == multiset(Load(r.store));
    assert multiset(Texts(r.rows))[t] == 0;
  }

  /** removeItem: on confirm exactly the clicked row leaves; the store keeps exactly the other texts, in order. */
  lemma RemoveConfirmed(u: Ui, i: nat)
    requires i < |u.rows|
    ensures var r := Removed(u, i, true); var t := u.rows[i].text;
      && r.rows == u.rows[..i] + u.rows[i + 1..]
      && |r.rows| + 1 == |u.rows|
      && multiset(r.rows) == multiset(u.rows) - multiset{u.rows[i]}
      && r.store == Some(RemoveAll(Load(u.store), t))
      && t !in Load(r.store)
      && multiset(Load(r.store)) == multiset(Load(u.store))[t := 0]
      && IsSubsequence(Load(r.store), Load(u.store))
      && !r.editMode && r.input == "" && (r.controlsShown <==> |u.rows| > 1)
      && (Wf(u) ==> Wf(r))
      && (Synced(u) ==> Synced(r) && t !in Texts(r.rows))
  {
    WithoutRowProperties(u, i);
  }

  // ---------------------------------------------------------------------
  // Adding an item

  /** Appending a row for a text not yet shown, then sorting, keeps the two sides in sync. */
  lemma WithNewItemProperties(u: Ui, t: string, le: (string, string) -> bool)
    requires t !in Texts(u.rows)
    ensures var r := WithNewItem(u, t, le);
      && multiset(r.rows) == multiset(u.rows) + multiset{NewRow(t)}
      && |r.rows| == |u.rows| + 1
      && MarkedCount(r.rows) == MarkedCount(u.rows)
      && multiset(Texts(r.rows))[t] == 1
      && Load(r.store) == Load(u.store) + [t]
      && (NoDuplicates(Texts(u.rows)) ==> NoDuplicates(Texts(r.rows)))
      && (Synced(u) ==> Synced(r))
  {
    var r := WithNewItem(u, t, le);
    var grown := u.rows + [NewRow(t)];
    assert |multiset(r.rows)| == |multiset(grown)|;
    PermutedRows(r.rows, grown);
    MarkedCountAppend(u.rows, [NewRow(t)]);
    assert MarkedCount([NewRow(t)]) == 0;
    TextsAppend(u.rows, [NewRow(t)]);
    assert Texts([NewRow(t)]) == [t];
    assert multiset(Texts(r.rows)) == multiset(Texts(u.rows)) + multiset{t};
    if NoDuplicates(Texts(u.rows)) {
      NoDuplicatesCount(Texts(u.rows));
      NoDuplicatesCount(Texts(r.rows));
    }
  }

  /** A valid submission in Idle mode: store appended to, view gains the row and is sorted. */
  lemma SubmitIdle(u: Ui, le: (string, string) -> bool)
    requires Wf(u) && !u.editMode && !Rejected(u, u.input) && TotalPreorder(le)
    ensures var r := Submitted(u, le); var t := u.input;
      && r.store == Some(Load(u.store) + [t])
      && multiset(r.rows) == multiset(u.rows) + multiset{NewRow(t)}
      && |r.rows| == |u.rows| + 1
      && Sorted(Texts(r.rows), le)
      && multiset(Texts(r.rows))[t] == 1
      && (NoDuplicates(Texts(u.rows)) ==> NoDuplicates(Texts(r.rows)))
      && (Synced(u) ==> multiset(Load(r.store))[t] == 1)
      && Wf(r)
  {
    var t := u.input;
    WithNewItemProperties(u, t, le);
    SortedRowsProperties(u.rows + [NewRow(t)], le);
  }

  /** A valid submission in edit mode: the edited row replaced by the new text, the count unchanged. */
  lemma SubmitEdit(u: Ui, le: (string, string) -> bool)
    requires Wf(u) && u.editMode && !Rejected(u, u.input) && TotalPreorder(le)
    ensures var r := Submitted(u, le); var t := u.input; var k := FindMarked(u.rows); var old_ := u.rows[k].text;
      && k >= 0
      && r.store == Some(RemoveAll(Load(u.store), old_) + [t])
      && multiset(r.rows) == multiset(u.rows) - multiset{u.rows[k]} + multiset{NewRow(t)}
      && |r.rows| == |u.rows|
      && Sorted(Texts(r.rows), le)
      && MarkedCount(r.rows) == 0
      && !r.editMode
      && (Synced(u) ==> Synced(r) && old_ !in Texts(r.rows) && multiset(Texts(r.rows))[t] == 1)
  {
    var t := u.input;
    var k := FindMarked(u.rows);
    var base := EditRemoved(u);
    WithoutRowProperties(u, k);
    assert multiset(Texts(u.rows))[t] == 0;
    assert multiset(Texts(base.rows))[t] == 0;
    WithNewItemProperties(base, t, le);
    SortedRowsProperties(base.rows + [NewRow(t)], le);
    if Synced(u) {
      var r := Submitted(u, le);
      var old_ := u.rows[k].text;
      assert old_ != t;
      assert multiset(Texts(r.rows))[old_] == multiset(Texts(base.rows))[old_];
    }
  }

  /** Every submission keeps the marker invariant and the synchronisation of view and store. */
  lemma SubmitKeepsInvariants(u: Ui, le: (string, string) -> bool)
    requires Wf(u)
    ensures Wf(Submitted(u, le))
    ensures Synced(u) ==> Synced(Submitted(u, le))
  {
    var t := u.input;
    if !Rejected(u, t) && u.editMode {
      var k := FindMarked(u.rows);
      var base := EditRemoved(u);
      WithoutRowProperties(u, k);
      assert multiset(Texts(u.rows))[t] == 0;
      assert multiset(Texts(base.rows))[t] == 0;
      WithNewItemProperties(base, t, le);
      assert Submitted(u, le) == Refreshed(WithNewItem(base, t, le));
    } else if !Rejected(u, t) {
      WithNewItemProperties(u, t, le);
      assert Submitted(u, le) == Refreshed(WithNewItem(u, t, le));
    }
  }

  // ---------------------------------------------------------------------
  // Entering edit mode, clearing, filtering

  /** setItemToEdit: edit mode on, exactly row i marked, the input shows its text, nothing else changes. */
  lemma EditStartedProperties(u: Ui, i: nat)
    requires i < |u.rows|
    ensures var r := EditStarted(u, i);
      && r.editMode && r.input == u.rows[i].text
      && |r.rows| == |u.rows|
      && (forall j :: 0 <= j < |r.rows| ==> (r.rows[j].marked <==> j == i))
      && (forall j :: 0 <= j < |r.rows| ==> r.rows[j].visible == u.rows[j].visible)
      && Texts(r.rows) == Texts(u.rows) && r.store == u.store
      && r.controlsShown == u.controlsShown
      && FindMarked(r.rows) == i
      && Wf(r)
      && (Synced(u) <==> Synced(r))
  {
    MarkOnlyFinds(u.rows, i);
    assert Texts(EditStarted(u, i).rows) == Texts(u.rows);
  }

  /**
   * Submitting an edit without changing the text is refused as a duplicate:
   * the input holds the edited row's own text, which is still rendered.
   * Nothing changes, edit mode stays on, and an alert is raised.
   */
  lemma SubmitUnchangedEdit(u: Ui, i: nat, le: (string, string) -> bool)
    requires i < |u.rows|
    ensures var e := EditStarted(u, i);
      && Submitted(e, le) == e && e.editMode
      && SubmitNotices(e.rows, e.input) != []
  {
    var e := EditStarted(u, i);
    EditStartedProperties(u, i);
    assert Texts(e.rows)[i] == e.input;
    if e.input != "" {
      assert multiset(Texts(e.rows))[e.input] > 0;
    }
  }

  /** clearItems: no rows, the key gone so a later load is empty, controls hidden, edit mode off. */
  lemma ClearedProperties(u: Ui)
    ensures var r := Cleared(u);
      && r.rows == [] && r.store == None && Load(r.store) == []
      && !r.controlsShown && !r.editMode && r.input == ""
      && Wf(r) && Synced(r)
  {
  }

  /** filterItems: a row is visible exactly when the folded query occurs in its folded text; nothing else changes. */
  lemma FilterProperties(u: Ui, q: string)
    ensures var r := Filter(u, q);
      && |r.rows| == |u.rows|
      && Texts(r.rows) == Texts(u.rows)
      && (forall j :: 0 <= j < |r.rows| ==> r.rows[j].marked == u.rows[j].marked)
      && (forall j :: 0 <= j < |r.rows| ==> (r.rows[j].visible <==> Contains(Lower(u.rows[j].text), Lower(q))))
      && r.store == u.store && r.editMode == u.editMode && r.input == u.input
      && r.controlsShown == u.controlsShown
      && (Wf(u) ==> Wf(r))
      && (Synced(u) ==> Synced(r))
  {
    var r := Filter(u, q);
    assert Texts(r.rows) == Texts(u.rows);
    MarkedCountSameMarks(r.rows, u.rows);
  }

  /** Filtering keeps both invariants. */
  lemma FilterKeepsInvariants(u: Ui, q: string)
    ensures Wf(u) ==> Wf(Filter(u, q))
    ensures Synced(u) ==> Synced(Filter(u, q))
  {
    FilterProperties(u, q);
  }

  /** An empty query shows every row. */
  lemma FilterEmptyShowsAll(u: Ui)
    ensures forall j :: 0 <= j < |Filter(u, "").rows| ==> Filter(u, "").rows[j].visible
  {
    forall j | 0 <= j < |u.rows| ensures Filter(u, "").rows[j].visible {
      EmptyQueryMatches(u.rows[j].text);
    }
  }

  /** Only the last filter counts: filtering again replaces every earlier visibility. */
  lemma FilterLastWins(u: Ui, q1: string, q2: string)
    ensures Filter(Filter(u, q1), q2) == Filter(u, q2)
  {
  }

  // ---------------------------------------------------------------------
  // A session: adding "Milk", "Eggs" and "Bread" to an empty list, with a
  // comparator that orders them Bread < Eggs < Milk. The view ends sorted,
  // the store in insertion order; the filter "e" shows Eggs and Bread only.

  ghost predicate BreadEggsMilk(le: (string, string) -> bool) {
    TotalPreorder(le) && !le("Milk", "Eggs") && !le("Eggs", "Bread")
  }

  lemma SessionAddMilk(le: (string, string) -> bool)
    ensures Submitted(Typed(Displayed(None), "Milk"), le)
         == Ui([NewRow("Milk")], Some(["Milk"]), false, "", true)
  {
    var milk := NewRow("Milk");
    var u := Typed(Displayed(None), "Milk");
    assert u == Ui([], None, false, "Milk", false);
    assert !Rejected(u, "Milk");
    assert SortBy([milk], ByText(le)) == [milk] by {
      assert [milk][1..] == [];
    }
    assert u.rows + [milk] == [milk];
    assert SortedRows([milk], le) == [milk];
    assert Load(None) + ["Milk"] == ["Milk"];
    assert WithNewItem(u, "Milk", le) == Ui([milk], Some(["Milk"]), false, "Milk", false);
    assert Submitted(u, le) == Refreshed(WithNewItem(u, "Milk", le));
  }

  lemma SessionAddEggs(le: (string, string) -> bool)
    requires BreadEggsMilk(le)
    ensures Submitted(Ui([NewRow("Milk")], Some(["Milk"]), false, "Eggs", true), le)
         == Ui([NewRow("Eggs"), NewRow("Milk")], Some(["Milk", "Eggs"]), false, "", true)
  {
    var milk, eggs := NewRow("Milk"), NewRow("Eggs");
    var u := Ui([milk], Some(["Milk"]), false, "Eggs", true);
    MarkedCountSingle(milk);
    assert Texts(u.rows) == ["Milk"];
    assert !Rejected(u, "Eggs");
    assert u.rows + [eggs] == [milk, eggs];
    assert SortedRows([milk, eggs], le) == [eggs, milk] by {
      SessionSortTwo(le);
    }
    assert Load(u.store) + ["Eggs"] == ["Milk", "Eggs"];
    assert WithNewItem(u, "Eggs", le) == Ui([eggs, milk], Some(["Milk", "Eggs"]), false, "Eggs", true);
    assert Submitted(u, le) == Refreshed(WithNewItem(u, "Eggs", le));
  }

  lemma SessionSortTwo(le: (string, string) -> bool)
    requires BreadEggsMilk(le)
    ensures SortBy([NewRow("Milk"), NewRow("Eggs")], ByText(le)) == [NewRow("Eggs"), NewRow("Milk")]
  {
    var milk, eggs := NewRow("Milk"), NewRow("Eggs");
    var cmp := ByText(le);
    assert [milk, eggs][1..] == [eggs];
    assert [eggs][1..] == [];
    assert SortBy([eggs], cmp) == [eggs];
    assert !cmp(milk, eggs);
    assert Insert(milk, [eggs], cmp) == [eggs] + Insert(milk, [], cmp);
  }

  /** The third add sorts the view including the new row, but only appends to the store. */
  lemma SessionAddBread(le: (string, string) -> bool)
    requires BreadEggsMilk(le)
    ensures Submitted(Ui([NewRow("Eggs"), NewRow("Milk")], Some(["Milk", "Eggs"]), false, "Bread", true), le)
         == Ui([NewRow("Bread"), NewRow("Eggs"), NewRow("Milk")], Some(["Milk", "Eggs", "Bread"]), false, "", true)
  {
    var eggs, milk, bread := NewRow("Eggs"), NewRow("Milk"), NewRow("Bread");
    var u := Ui([eggs, milk], Some(["Milk", "Eggs"]), false, "Bread", true);
    MarkedCountNone(u.rows);
    assert Texts(u.rows) == ["Eggs", "Milk"];
    assert !Rejected(u, "Bread");
    assert u.rows + [bread] == [eggs, milk, bread];
    assert SortedRows([eggs, milk, bread], le) == [bread, eggs, milk] by {
      SessionSortThree(le);
    }
    assert Load(u.store) + ["Bread"] == ["Milk", "Eggs", "Bread"];
    assert WithNewItem(u, "Bread", le) == Ui([bread, eggs, milk], Some(["Milk", "Eggs", "Bread"]), false, "Bread", true);
    assert Submitted(u, le) == Refreshed(WithNewItem(u, "Bread", le));
  }

  lemma SessionSortThree(le: (string, string) -> bool)
    requires BreadEggsMilk(le)
    ensures SortBy([NewRow("Eggs"), NewRow("Milk"), NewRow("Bread")], ByText(le))
         == [NewRow("Bread"), NewRow("Eggs"), NewRow("Milk")]
  {
    var eggs, milk, bread := NewRow("Eggs"), NewRow("Milk"), NewRow("Bread");
    var cmp := ByText(le);
    assert !le("Milk", "Bread");
    assert le("Eggs", "Milk");
    assert [eggs, milk, bread][1..] == [milk, bread];
    assert [milk, bread][1..] == [bread];
    assert [bread][1..] == [];
    assert [milk][1..] == [];
    assert SortBy([bread], cmp) == [bread];
    assert Insert(milk, [bread], cmp) == [bread, milk];
    assert SortBy([milk, bread], cmp) == [bread, milk];
    assert [bread, milk][1..] == [milk];
    assert Insert(eggs, [milk], cmp) == [eggs, milk];
    assert Insert(eggs, [bread, milk], cmp) == [bread] + Insert(eggs, [milk], cmp);
  }

  /** Filtering the three rows with "e" hides Milk only. */
  lemma SessionFilter()
    ensures var f := Filter(Ui([NewRow("Bread"), NewRow("Eggs"), NewRow("Milk")], Some(["Milk", "Eggs", "Bread"]), false, "", true), "e");
      && f.rows[0].visible && f.rows[1].visible && !f.rows[2].visible
  {
    assert OccursAt(Lower("Bread"), Lower("e"), 2);
    assert OccursAt(Lower("Eggs"), Lower("e"), 0);
    var lm := Lower("Milk");
    assert lm == "milk";
    assert !Contains(lm, Lower("e"));
  }
}

/** The rendered list: its rows and the pure operations on them. */
module Rows {
  import opened Seqs
  import opened Sorting
  import opened Text

  /**
   * One rendered li: its text, whether it carries the `edit-item` class,
   * and whether its display is something other than 'none'.
   */
  datatype Row = Row(text: string, marked: bool, visible: bool)

  /** The li that addItemToDOM creates: unmarked and displayed. */
  function NewRow(text: string): Row {
    Row(text, false, true)
  }

  /** The rows' texts in view order. */
  function Texts(rows: seq<Row>): seq<string> {
    seq(|rows|, i requires 0 <= i < |rows| => rows[i].text)
  }

  lemma TextsAppend(a: seq<Row>, b: seq<Row>)
    ensures Texts(a + b) == Texts(a) + Texts(b)
  {
  }

  /** The texts of one more row of the prefix. */
  lemma TextsPrefixStep(rows: seq<Row>, i: nat)
    requires i < |rows|
    ensures Texts(rows[..i + 1]) == Texts(rows[..i]) + [rows[i].text]
    ensures multiset(Texts(rows[..i + 1])) == multiset(Texts(rows[..i])) + multiset{rows[i].text}
  {
    assert rows[..i + 1] == rows[..i] + [rows[i]];
    TextsAppend(rows[..i], [rows[i]]);
  }

  lemma TextsRemoveAt(rows: seq<Row>, k: nat)
    requires k < |rows|
    ensures Texts(RemoveAt(rows, k)) == RemoveAt(Texts(rows), k)
  {
  }

  /** How many rows carry the edit marker. */
  function MarkedCount(rows: seq<Row>): nat {
    if rows == [] then 0 else (if rows[0].marked then 1 else 0) + MarkedCount(rows[1..])
  }

  lemma {:induction false} MarkedCountAppend(a: seq<Row>, b: seq<Row>)
    ensures MarkedCount(a + b) == MarkedCount(a) + MarkedCount(b)
  {
    if a != [] {
      assert (a + b)[0] == a[0];
      assert (a + b)[1..] == a[1..] + b;
      MarkedCountAppend(a[1..], b);
    } else {
      assert a + b == b;
    }
  }

  /** The marker count depends only on which positions are marked. */
  lemma {:induction false} MarkedCountSameMarks(a: seq<Row>, b: seq<Row>)
    requires |a| == |b| && forall j :: 0 <= j < |a| ==> a[j].marked == b[j].marked
    ensures MarkedCount(a) == MarkedCount(b)
  {
    if a != [] {
      MarkedCountSameMarks(a[1..], b[1..]);
    }
  }

  lemma {:induction false} MarkedCountNone(rows: seq<Row>)
    requires forall j :: 0 <= j < |rows| ==> !rows[j].marked
    ensures MarkedCount(rows) == 0
  {
    if rows != [] {
      MarkedCountNone(rows[1..]);
    }
  }

  lemma MarkedCountSingle(x: Row)
    ensures MarkedCount([x]) == if x.marked then 1 else 0
  {
    assert [x][1..] == [];
  }

  lemma {:induction false} MarkedCountRemoveAt(rows: seq<Row>, k: nat)
    requires k < |rows|
    ensures MarkedCount(RemoveAt(rows, k)) == MarkedCount(rows) - (if rows[k].marked then 1 else 0)
  {
    var r := RemoveAt(rows, k);
    if k == 0 {
      assert r == rows[1..];
    } else {
      var tail := rows[1..];
      MarkedCountRemoveAt(tail, k - 1);
      assert tail[k - 1] == rows[k];
      assert r[0] == rows[0];
      assert r[1..] == RemoveAt(tail, k - 1);
    }
  }

  /** Rows with the same multiset have the same texts (as a multiset) and the same marker count. */
  lemma {:induction false} PermutedRows(a: seq<Row>, b: seq<Row>)
    requires multiset(a) == multiset(b)
    ensures multiset(Texts(a)) == multiset(Texts(b))
    ensures MarkedCount(a) == MarkedCount(b)
    decreases |a|
  {
    if a == [] {
      assert |multiset(b)| == 0;
    } else {
      var x, tail := a[0], a[1..];
      assert a == [x] + tail;
      assert x in multiset(b);
      var k :| 0 <= k < |b| && b[k] == x;
      var rest := RemoveAt(b, k);
      RemoveAtMultiset(b, k);
      assert multiset(tail) == multiset(rest);
      PermutedRows(tail, rest);
      MarkedCountRemoveAt(b, k);
      MarkedCountAppend([x], tail);
      MarkedCountSingle(x);
      PermutedTextsStep(a, b, k);
    }
  }

  /** The texts' half of one step of PermutedRows. */
  lemma PermutedTextsStep(a: seq<Row>, b: seq<Row>, k: nat)
    requires a != [] && k < |b| && b[k] == a[0]
    requires multiset(Texts(a[1..])) == multiset(Texts(RemoveAt(b, k)))
    ensures multiset(Texts(a)) == multiset(Texts(b))
  {
    var tb := Texts(b);
    TextsRemoveAt(b, k);
    assert tb[k] == a[0].text;
    RemoveAtMultiset(tb, k);
    assert a == [a[0]] + a[1..];
    TextsAppend([a[0]], a[1..]);
    assert Texts([a[0]]) == [a[0].text];
  }

  /** querySelector('.edit-item'): the first marked row, or -1 when there is none. */
  function FindMarked(rows: seq<Row>): (k: int)
    ensures -1 <= k < |rows|
    ensures k >= 0 ==> rows[k].marked && forall j :: 0 <= j < k ==> !rows[j].marked
    ensures k == -1 <==> MarkedCount(rows) == 0
  {
    if rows == [] then -1
    else if rows[0].marked then 0
    else
      var k := FindMarked(rows[1..]);
      if k == -1 then -1 else k + 1
  }

  /** Every row's marker cleared except row i's, which is set; nothing else changes. */
  function MarkOnly(rows: seq<Row>, i: nat): seq<Row>
    requires i < |rows|
  {
    seq(|rows|, j requires 0 <= j < |rows| => rows[j].(marked := j == i))
  }

  /** After MarkOnly exactly one row is marked and querySelector finds it. */
  lemma MarkOnlyFinds(rows: seq<Row>, i: nat)
    requires i < |rows|
    ensures MarkedCount(MarkOnly(rows, i)) == 1
    ensures FindMarked(MarkOnly(rows, i)) == i
  {
    var m := MarkOnly(rows, i);
    assert m == m[..i] + ([m[i]] + m[i + 1..]);
    MarkedCountNone(m[..i]);
    MarkedCountNone(m[i + 1..]);
    MarkedCountAppend(m[..i], [m[i]] + m[i + 1..]);
    MarkedCountAppend([m[i]], m[i + 1..]);
  }

  /** Every row's visibility set from the filter test; texts and markers kept. */
  function Filtered(rows: seq<Row>, query: string): seq<Row> {
    seq(|rows|, j requires 0 <= j < |rows| => rows[j].(visible := Matches(query, rows[j].text)))
  }

  /** The rows that displayItems renders: one new row per item, in the given order. */
  function Rendered(items: seq<string>): (rows: seq<Row>)
    ensures Texts(rows) == items
    ensures MarkedCount(rows) == 0
    ensures forall j :: 0 <= j < |rows| ==> rows[j].visible
  {
    var rows := seq(|items|, i requires 0 <= i < |items| => NewRow(items[i]));
    MarkedCountNone(rows);
    rows
  }

  /** The comparator sortItems uses: compare the rows' texts. */
  function ByText(le: (string, string) -> bool): (Row, Row) -> bool {
    (a: Row, b: Row) => le(a.text, b.text)
  }

  lemma ByTextPreorder(le: (string, string) -> bool)
    requires TotalPreorder(le)
    ensures TotalPreorder(ByText(le))
  {
    var cmp := ByText(le);
    forall a: Row, b: Row ensures cmp(a, b) || cmp(b, a) {
      assert le(a.text, b.text) || le(b.text, a.text);
    }
    forall a: Row, b: Row, c: Row | cmp(a, b) && cmp(b, c) ensures cmp(a, c) {
      assert le(a.text, b.text) && le(b.text, c.text);
    }
  }

  /** The rows sorted, as sortItems leaves them. */
  function SortedRows(rows: seq<Row>, le: (string, string) -> bool): seq<Row> {
    SortBy(rows, ByText(le))
  }

  /** Sorting keeps the texts (as a multiset), the count and the markers, and orders the texts. */
  lemma SortedRowsProperties(rows: seq<Row>, le: (string, string) -> bool)
    requires TotalPreorder(le)
    ensures multiset(SortedRows(rows, le)) == multiset(rows)
    ensures |SortedRows(rows, le)| == |rows|
    ensures multiset(Texts(SortedRows(rows, le))) == multiset(Texts(rows))
    ensures MarkedCount(SortedRows(rows, le)) == MarkedCount(rows)
    ensures Sorted(Texts(SortedRows(rows, le)), le)
  {
    var s := SortedRows(rows, le);
    assert |multiset(s)| == |multiset(rows)|;
    PermutedRows(s, rows);
    ByTextPreorder(le);
    SortBySorted(rows, ByText(le));
    var ts := Texts(s);
    forall i, j | 0 <= i < j < |ts| ensures le(ts[i], ts[j]) {
      assert ByText(le)(s[i], s[j]);
    }
  }

  /** appendChild of a row already in the list: the row moves to the end. */
  function AppendChild(rows: seq<Row>, r: Row): seq<Row> {
    Detach(rows, r) + [r]
  }

  /** One step of sortItems' loop: moving the next sorted row to the end keeps the loop's shape. */
  lemma AppendChildStep(unmoved: seq<Row>, sorted: seq<Row>, i: nat)
    requires i < |sorted| && multiset(unmoved) == multiset(sorted[i..])
    ensures AppendChild(unmoved + sorted[..i], sorted[i]) == Detach(unmoved, sorted[i]) + sorted[..i + 1]
    ensures multiset(Detach(unmoved, sorted[i])) == multiset(sorted[i + 1..])
  {
    var r := sorted[i];
    assert sorted[i..] == [r] + sorted[i + 1..];
    assert r in multiset(unmoved);
    DetachPrefix(unmoved, sorted[..i], r);
    assert sorted[..i + 1] == sorted[..i] + [r];
  }
}

/** The persisted list: localStorage key `items`, holding a sequence of strings. */
module Store {
  import opened Wrappers
  import opened Seqs

  /** The value under the key, None when the key is absent (JSON encoding not modelled). */
  type Stored = Option<seq<string>>

  /** getItemsFromStorage: the stored items, or the empty list when the key is absent. */
  function Load(st: Stored): seq<string> {
    match st
    case None => []
    case Some(items) => items
  }

  /**
   * The store-side filter of removeItemFromStorage: every entry equal to t
   * dropped, every other entry kept as often as it was and in its order.
   */
  function RemoveAll(items: seq<string>, t: string): (r: seq<string>)
    ensures t !in r
    ensures multiset(r) == multiset(items)[t := 0]
    ensures IsSubsequence(r, items)
  {
    if items == [] then []
    else
      assert items == [items[0]] + items[1..];
      if items[0] == t then RemoveAll(items[1..], t)
      else [items[0]] + RemoveAll(items[1..], t)
  }

  /** Filtering out a text that is not stored changes nothing. */
  lemma {:induction false} RemoveAllAbsent(items: seq<string>, t: string)
    requires t !in items
    ensures RemoveAll(items, t) == items
  {
    if items != [] {
      RemoveAllAbsent(items[1..], t);
    }
  }
}

/** Sorting by a comparator, as Array.prototype.sort does with localeCompare. */
module Sorting {

  /**
   * What a consistent comparator gives: any two values are ordered one way or
   * the other (ties allowed), and the order is transitive.
   */
  ghost predicate TotalPreorder<T(!new)>(le: (T, T) -> bool) {
    && (forall a, b :: le(a, b) || le(b, a))
    && (forall a, b, c :: le(a, b) && le(b, c) ==> le(a, c))
  }

  predicate Sorted<T>(s: seq<T>, le: (T, T) -> bool) {
    forall i, j | 0 <= i < j < |s| :: le(s[i], s[j])
  }

  /** Puts x in front of the first element it is at most; equal elements keep their order. */
  function Insert<T>(x: T, s: seq<T>, le: (T, T) -> bool): (r: seq<T>)
    ensures multiset(r) == multiset(s) + multiset{x}
  {
    if s == [] then [x]
    else if le(x, s[0]) then [x] + s
    else
      assert s == [s[0]] + s[1..];
      [s[0]] + Insert(x, s[1..], le)
  }

  /** A stable insertion sort on the comparator le. */
  function SortBy<T>(s: seq<T>, le: (T, T) -> bool): (r: seq<T>)
    ensures multiset(r) == multiset(s)
  {
    if s == [] then []
    else
      assert s == [s[0]] + s[1..];
      Insert(s[0], SortBy(s[1..], le), le)
  }

  lemma {:induction false} InsertSorted<T(!new)>(x: T, s: seq<T>, le: (T, T) -> bool)
    requires TotalPreorder(le) && Sorted(s, le)
    ensures Sorted(Insert(x, s, le), le)
  {
    if s == [] {
    } else if le(x, s[0]) {
      PrependSorted(x, s, le);
    } else {
      var t := s[1..];
      assert Sorted(t, le) by {
        forall i, j | 0 <= i < j < |t| ensures le(t[i], t[j]) {
          assert t[i] == s[i + 1] && t[j] == s[j + 1];
        }
      }
      InsertSorted(x, t, le);
      var it := Insert(x, t, le);
      forall k | 0 <= k < |it| ensures le(s[0], it[k]) {
        assert it[k] in multiset(it);
        if it[k] != x {
          assert it[k] in multiset(t);
          var m :| 0 <= m < |t| && t[m] == it[k];
          assert t[m] == s[m + 1];
        }
      }
      assert le(s[0], it[0]);
      PrependSorted(s[0], it, le);
    }
  }

  /** A sorted sequence stays sorted when an element at most its first is put in front. */
  lemma PrependSorted<T(!new)>(x: T, s: seq<T>, le: (T, T) -> bool)
    requires TotalPreorder(le) && Sorted(s, le)
    requires s == [] || le(x, s[0])
    ensures Sorted([x] + s, le)
  {
    var r := [x] + s;
    forall i, j | 0 <= i < j < |r| ensures le(r[i], r[j]) {
      if i == 0 {
        assert r[j] == s[j - 1];
        if j > 1 { assert le(s[0], s[j - 1]); }
      } else {
        assert r[i] == s[i - 1] && r[j] == s[j - 1];
      }
    }
  }

  /** The sort's result is ordered by le (and, by SortBy's contract, a permutation). */
  lemma {:induction false} SortBySorted<T(!new)>(s: seq<T>, le: (T, T) -> bool)
    requires TotalPreorder(le)
    ensures Sorted(SortBy(s, le), le)
  {
    if s != [] {
      SortBySorted(s[1..], le);
      InsertSorted(s[0], SortBy(s[1..], le), le);
    }
  }
}

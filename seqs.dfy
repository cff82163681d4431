/** Generic facts about sequences used by the list model. */
module Seqs {

  /** No two positions hold the same value. */
  predicate NoDuplicates<T(==)>(s: seq<T>) {
    forall i, j | 0 <= i < j < |s| :: s[i] != s[j]
  }

  /** NoDuplicates is the same as "every value occurs at most once". */
  lemma {:induction false} NoDuplicatesCount<T>(s: seq<T>)
    ensures NoDuplicates(s) <==> forall x :: multiset(s)[x] <= 1
  {
    if s == [] {
    } else {
      var h, t := s[0], s[1..];
      assert s == [h] + t;
      NoDuplicatesCount(t);
      if NoDuplicates(s) {
        assert NoDuplicates(t) by {
          forall i, j | 0 <= i < j < |t| ensures t[i] != t[j] {
            assert t[i] == s[i + 1] && t[j] == s[j + 1];
          }
        }
        assert h !in t;
        forall x ensures multiset(s)[x] <= 1 {
          assert multiset(s)[x] == multiset{h}[x] + multiset(t)[x];
        }
      }
      if forall x :: multiset(s)[x] <= 1 {
        forall i, j | 0 <= i < j < |s| ensures s[i] != s[j] {
          if s[i] == s[j] {
            TwoOccurrences(s, i, j);
          }
        }
      }
    }
  }

  /** A value found at two different positions occurs at least twice. */
  lemma TwoOccurrences<T>(s: seq<T>, i: nat, j: nat)
    requires i < j < |s| && s[i] == s[j]
    ensures multiset(s)[s[i]] >= 2
  {
    assert s == s[..i] + [s[i]] + s[i + 1..j] + [s[j]] + s[j + 1..];
  }

  /** The sequence without its element at position k. */
  function RemoveAt<T>(s: seq<T>, k: nat): (r: seq<T>)
    requires k < |s|
    ensures |r| == |s| - 1
  {
    s[..k] + s[k + 1..]
  }

  /** Removing position k removes one occurrence of s[k] and nothing else. */
  lemma RemoveAtMultiset<T>(s: seq<T>, k: nat)
    requires k < |s|
    ensures multiset(RemoveAt(s, k)) == multiset(s) - multiset{s[k]}
  {
    assert s == s[..k] + [s[k]] + s[k + 1..];
  }

  /** The sequence without the first element equal to x (unchanged when there is none). */
  function Detach<T(==)>(s: seq<T>, x: T): (r: seq<T>)
    ensures x in s ==> multiset(r) == multiset(s) - multiset{x}
    ensures x !in s ==> r == s
  {
    if s == [] then []
    else
      assert s == [s[0]] + s[1..];
      if s[0] == x then s[1..]
      else [s[0]] + Detach(s[1..], x)
  }

  /** Detaching a value found in the prefix leaves the suffix alone. */
  lemma {:induction false} DetachPrefix<T>(a: seq<T>, b: seq<T>, x: T)
    requires x in a
    ensures Detach(a + b, x) == Detach(a, x) + b
  {
    assert (a + b)[0] == a[0];
    if a[0] != x {
      assert (a + b)[1..] == a[1..] + b;
      DetachPrefix(a[1..], b, x);
    }
  }

  /** a can be obtained from b by leaving out elements, keeping the order. */
  predicate IsSubsequence<T(==)>(a: seq<T>, b: seq<T>)
    decreases |b|
  {
    if a == [] then true
    else if b == [] then false
    else if a[0] == b[0] then IsSubsequence(a[1..], b[1..])
    else IsSubsequence(a, b[1..])
  }
}

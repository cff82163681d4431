/** Case folding and substring search as the filter uses them (toLowerCase, indexOf). */
module Text {

  /** toLowerCase on one character, restricted to ASCII letters. */
  function LowerChar(c: char): char {
    if 'A' <= c <= 'Z' then (c as int + 32) as char else c
  }

  /** toLowerCase on a string: every character folded, length kept. */
  function Lower(s: string): (r: string)
    ensures |r| == |s|
    ensures forall i :: 0 <= i < |s| ==> r[i] == LowerChar(s[i])
  {
    if s == [] then [] else [LowerChar(s[0])] + Lower(s[1..])
  }

  /** Folding twice is folding once. */
  lemma LowerIdempotent(s: string)
    ensures Lower(Lower(s)) == Lower(s)
  {
  }

  /** needle occurs in hay starting at position k. */
  predicate OccursAt(hay: string, needle: string, k: nat) {
    k + |needle| <= |hay| && hay[k..k + |needle|] == needle
  }

  ghost predicate Contains(hay: string, needle: string) {
    exists k: nat :: OccursAt(hay, needle, k)
  }

  /** The first occurrence of needle in hay at or after from, or -1. */
  function IndexFrom(hay: string, needle: string, from: nat): (r: int)
    ensures r == -1 || (from <= r && OccursAt(hay, needle, r))
    ensures r == -1 ==> forall k: nat :: from <= k ==> !OccursAt(hay, needle, k)
    ensures r != -1 ==> forall k: nat :: from <= k < r ==> !OccursAt(hay, needle, k)
    decreases |hay| - from
  {
    if from + |needle| > |hay| then -1
    else if hay[from..from + |needle|] == needle then from
    else IndexFrom(hay, needle, from + 1)
  }

  /** String.prototype.indexOf: the first position where needle occurs in hay, or -1. */
  function IndexOf(hay: string, needle: string): (r: int)
    ensures r >= -1
    ensures r == -1 <==> !Contains(hay, needle)
    ensures r != -1 ==> OccursAt(hay, needle, r) && forall k: nat :: k < r ==> !OccursAt(hay, needle, k)
  {
    IndexFrom(hay, needle, 0)
  }

  /** The filter's test on one row: the folded query occurs in the folded row text. */
  function Matches(query: string, text: string): (b: bool)
    ensures b <==> Contains(Lower(text), Lower(query))
  {
    IndexOf(Lower(text), Lower(query)) != -1
  }

  /** An empty query matches every row. */
  lemma EmptyQueryMatches(text: string)
    ensures Matches("", text)
  {
    assert OccursAt(Lower(text), Lower(""), 0);
  }

  /** The filter ignores the case of the query: folding it first changes nothing. */
  lemma MatchesIgnoresQueryCase(query: string, text: string)
    ensures Matches(Lower(query), text) == Matches(query, text)
  {
    LowerIdempotent(query);
  }
}

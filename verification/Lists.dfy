/** Counting the elements of a list that a filter keeps. */
module Lists {

  /** How many elements are kept. The element at i, if kept, is the one at index
      Count(s[..i], keep) of the filtered list. */
  function Count<T>(s: seq<T>, keep: T -> bool): nat {
    if s == [] then 0 else Count(s[..|s| - 1], keep) + if keep(s[|s| - 1]) then 1 else 0
  }

  /** The index of the first element that a test accepts, or the length. */
  function First<T>(s: seq<T>, test: T -> bool): (k: nat)
    ensures k <= |s|
    ensures k < |s| ==> test(s[k])
    ensures forall i | 0 <= i < k :: !test(s[i])
  {
    if s == [] || test(s[0]) then 0 else 1 + First(s[1..], test)
  }

  /** There are fewer before a kept element than in all. */
  lemma {:induction false} CountBefore<T>(s: seq<T>, keep: T -> bool, i: nat)
    requires i < |s|
    ensures Count(s[..i], keep) <= Count(s, keep)
    ensures keep(s[i]) ==> Count(s[..i], keep) < Count(s, keep)
    decreases |s|
  {
    var front := s[..|s| - 1];
    if i < |front| {
      CountBefore(front, keep, i);
      assert front[..i] == s[..i];
    } else {
      assert front == s[..i];
    }
  }
}

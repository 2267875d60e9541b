/** The participant list of one activity: an ordered sequence of e-mail
    addresses, and the three list operations the roster handlers use on it:
    membership (`in`), append at the end, and removal of the first occurrence
    (the semantics of Python's `list.remove`). */
module Participants {

  /** A student is identified only by the e-mail string; no normalisation. */
  type Email = string

  /** No address appears twice in the list. */
  ghost predicate Distinct(s: seq<Email>)
  {
    forall i, j :: 0 <= i < j < |s| ==> s[i] != s[j]
  }

  /** The position of the first occurrence of `x` in `s`. */
  function IndexOf(s: seq<Email>, x: Email): (i: nat)
    requires x in s
    ensures i < |s| && s[i] == x
    ensures forall j :: 0 <= j < i ==> s[j] != x
  {
    if s[0] == x then 0 else
      assert x in s[1..] by { var k :| 0 <= k < |s| && s[k] == x; assert s[1..][k - 1] == x; }
      1 + IndexOf(s[1..], x)
  }

  /** Python's `list.remove(x)`: scan from the front and drop the first
      element equal to `x`. The list must contain `x` (Python raises
      ValueError otherwise). Its contract is the index view: the element at
      the first index of `x` is deleted and every other element keeps its
      relative order. */
  function RemoveFirst(s: seq<Email>, x: Email): (r: seq<Email>)
    requires x in s
    ensures |r| == |s| - 1
    ensures r[..IndexOf(s, x)] == s[..IndexOf(s, x)]
    ensures r[IndexOf(s, x)..] == s[IndexOf(s, x) + 1..]
  {
    if s[0] == x then s[1..] else
      assert x in s[1..] by { var k :| 0 <= k < |s| && s[k] == x; assert s[1..][k - 1] == x; }
      [s[0]] + RemoveFirst(s[1..], x)
  }

  /** Removal takes away exactly one copy of `x` and nothing else. */
  lemma {:induction false} RemoveFirstMultiset(s: seq<Email>, x: Email)
    requires x in s
    ensures multiset(RemoveFirst(s, x)) == multiset(s) - multiset{x}
  {
    assert s == [s[0]] + s[1..];
    if s[0] != x {
      assert x in s[1..] by { var k :| 0 <= k < |s| && s[k] == x; assert s[1..][k - 1] == x; }
      RemoveFirstMultiset(s[1..], x);
    }
  }

  /** Removing from a duplicate-free list keeps it duplicate-free and leaves
      no copy of the removed address behind. */
  lemma RemoveFirstDistinct(s: seq<Email>, x: Email)
    requires x in s && Distinct(s)
    ensures Distinct(RemoveFirst(s, x))
    ensures x !in RemoveFirst(s, x)
  {
  }

  /** Appending an absent address and then removing it restores the list. */
  lemma {:induction false} AppendThenRemoveFirst(s: seq<Email>, x: Email)
    requires x !in s
    ensures RemoveFirst(s + [x], x) == s
  {
    if s != [] {
      assert (s + [x])[1..] == s[1..] + [x];
      AppendThenRemoveFirst(s[1..], x);
    }
  }

  /** Appending an absent address keeps a list duplicate-free, and the
      address then occurs exactly once. */
  lemma AppendDistinct(s: seq<Email>, x: Email)
    requires x !in s && Distinct(s)
    ensures Distinct(s + [x])
    ensures multiset(s + [x])[x] == 1
  {
  }
}

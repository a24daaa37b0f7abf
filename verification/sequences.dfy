/**
  Facts about sequences of node indices that the traversal models share:
  membership as a set, absence of repeats, first occurrence, and taking a
  prefix.
 */
module Sequences {

  /** The elements of a sequence, as a set. */
  function Members(s: seq<nat>): set<nat>
  {
    set n | n in s
  }

  /** No element occurs twice. */
  predicate NoDuplicates(s: seq<nat>)
  {
    forall i, j :: 0 <= i < j < |s| ==> s[i] != s[j]
  }

  /** The position of the first occurrence of `x` in `s`. */
  function FirstIndex(s: seq<nat>, x: nat): (i: nat)
    requires x in s
    ensures i < |s| && s[i] == x
    ensures forall j :: 0 <= j < i ==> s[j] != x
  {
    if s[0] == x then 0 else 1 + FirstIndex(s[1..], x)
  }

  /** Every element of `a` occurs in `s`, and `a` lists them in the order
      of their first occurrence in `s`. */
  predicate InListOrder(a: seq<nat>, s: seq<nat>)
  {
    && (forall n :: n in a ==> n in s)
    && forall i, j :: 0 <= i < j < |a| ==> FirstIndex(s, a[i]) < FirstIndex(s, a[j])
  }

  /** The first `k` elements of `s`, or all of `s` when it is shorter. */
  function Take(s: seq<nat>, k: nat): (t: seq<nat>)
    ensures |t| == if k < |s| then k else |s|
    ensures forall i :: 0 <= i < |t| ==> t[i] == s[i]
  {
    if k < |s| then s[..k] else s
  }

  /** Taking past the end of a prefix takes from what follows it. */
  lemma TakeAppend(a: seq<nat>, b: seq<nat>, k: nat)
    requires |a| <= k
    ensures Take(a + b, k) == a + Take(b, k - |a|)
  {
    if k < |a + b| {
      assert (a + b)[..k] == a + b[..k - |a|];
    }
  }

  /** Splitting a sequence at its head. */
  lemma HeadAppend(a: seq<nat>, x: seq<nat>)
    requires a != []
    ensures [a[0]] + (a[1..] + x) == a + x
    ensures (a + x)[1..] == a[1..] + x
  {
    assert a == [a[0]] + a[1..];
  }

  /** A non-empty prefix is the head followed by a prefix of the tail. */
  lemma HeadTake(a: seq<nat>, k: nat)
    requires 0 < k <= |a|
    ensures [a[0]] + a[1..][..k - 1] == a[..k]
  {
    assert a[1..][..k - 1] == a[1..k];
  }
}

/** Sequence helpers for the list operations the source relies on
    (List.Remove, Enumerable.Distinct, List.Reverse). */
module Seqs {

  /** No element occurs twice. */
  predicate NoDuplicates<T(==)>(s: seq<T>) {
    forall i, j :: 0 <= i < j < |s| ==> s[i] != s[j]
  }

  /** Strictly ascending, hence duplicate-free. */
  predicate Increasing(s: seq<nat>) {
    forall i, j :: 0 <= i < j < |s| ==> s[i] < s[j]
  }

  /** Index of the first occurrence of x. */
  function IndexOf<T(==)>(s: seq<T>, x: T): (k: nat)
    requires x in s
    ensures k < |s| && s[k] == x && x !in s[..k]
  {
    if s[0] == x then 0 else 1 + IndexOf(s[1..], x)
  }

  /** The first occurrence is the only index before which x is absent. */
  lemma {:induction false} IndexOfUnique<T>(s: seq<T>, x: T, k: nat)
    requires k < |s| && s[k] == x && x !in s[..k]
    ensures IndexOf(s, x) == k
  {
    if k > 0 {
      assert s[0] in s[..k];
      assert s[1..][k-1] == x;
      assert s[1..][..k-1] == s[1..k];
      assert x !in s[1..k] by { assert forall i :: 1 <= i < k ==> s[1..k][i-1] == s[..k][i]; }
      IndexOfUnique(s[1..], x, k - 1);
    }
  }

  /** List<T>.Remove: drops the first occurrence of x, if there is one. */
  function RemoveFirst<T(==)>(s: seq<T>, x: T): (r: seq<T>)
    ensures x !in s ==> r == s
    ensures x in s ==> |r| == |s| - 1
    ensures multiset(r) == multiset(s) - multiset{x}
  {
    if x !in s then s
    else
      var k := IndexOf(s, x);
      assert s == s[..k] + [x] + s[k+1..];
      Skip(s, k)
  }

  /** s without its element at index k. */
  function Skip<T>(s: seq<T>, k: nat): (r: seq<T>)
    requires k < |s|
    ensures |r| == |s| - 1
  {
    s[..k] + s[k+1..]
  }

  /** RemoveFirst keeps the order of what remains: elements before the first
      x stay in place, those after it move down by one. */
  lemma RemoveFirstOrder<T>(s: seq<T>, x: T)
    requires x in s
    ensures forall i {:trigger RemoveFirst(s, x)[i]} :: 0 <= i < |RemoveFirst(s, x)| ==>
      RemoveFirst(s, x)[i] == (if i < IndexOf(s, x) then s[i] else s[i + 1])
  {
    SkipAt(s, IndexOf(s, x));
  }

  /** Dropping index k shifts everything after it down by one. */
  lemma SkipAt<T>(s: seq<T>, k: nat)
    requires k < |s|
    ensures forall i {:trigger Skip(s, k)[i]} :: 0 <= i < |s| - 1 ==> Skip(s, k)[i] == (if i < k then s[i] else s[i + 1])
  {
    assert Skip(s, k) == s[..k] + s[k+1..];
  }

  /** Removing from a strictly ascending list keeps it ascending and removes x entirely. */
  lemma RemoveFirstIncreasing(s: seq<nat>, x: nat)
    requires Increasing(s)
    ensures Increasing(RemoveFirst(s, x))
    ensures forall y :: y in RemoveFirst(s, x) <==> y in s && y != x
  {
    if x in s {
      RemoveFirstOrder(s, x);
      RemoveFirstSorted(s, x, IndexOf(s, x), RemoveFirst(s, x));
      RemoveFirstMembers(s, x, IndexOf(s, x), RemoveFirst(s, x));
    }
  }

  /** Dropping one element of an ascending list leaves it ascending. */
  lemma RemoveFirstSorted(s: seq<nat>, x: nat, k: nat, r: seq<nat>)
    requires Increasing(s) && k < |s| && |r| == |s| - 1
    requires forall i {:trigger r[i]} :: 0 <= i < |r| ==> r[i] == (if i < k then s[i] else s[i + 1])
    ensures Increasing(r)
  {
    forall i, j | 0 <= i < j < |r|
      ensures r[i] < r[j]
    {
      if j < k {
        assert r[i] == s[i] && r[j] == s[j];
      } else if i < k {
        assert r[i] == s[i] && r[j] == s[j + 1];
      } else {
        assert r[i] == s[i + 1] && r[j] == s[j + 1];
      }
    }
  }

  /** Dropping index k of an ascending list removes its value and no other. */
  lemma RemoveFirstMembers(s: seq<nat>, x: nat, k: nat, r: seq<nat>)
    requires Increasing(s) && k < |s| && s[k] == x && |r| == |s| - 1
    requires forall i {:trigger r[i]} :: 0 <= i < |r| ==> r[i] == (if i < k then s[i] else s[i + 1])
    ensures forall y :: y in r <==> y in s && y != x
  {
    forall y
      ensures y in r <==> y in s && y != x
    {
      if y in r {
        var i :| 0 <= i < |r| && r[i] == y;
        if i < k { assert s[i] < s[k]; } else { assert s[k] < s[i+1]; }
      }
      if y in s && y != x {
        var j :| 0 <= j < |s| && s[j] == y;
        if j < k { assert r[j] == y; } else { assert r[j-1] == y; }
      }
    }
  }

  /** Enumerable.Distinct: keeps the first occurrence of every element, in order. */
  function Distinct<T(==,!new)>(s: seq<T>): (r: seq<T>)
    ensures NoDuplicates(r)
    ensures forall x :: x in r <==> x in s
    decreases |s|
  {
    if |s| == 0 then []
    else
      var prefix := Distinct(s[..|s|-1]);
      var x := s[|s|-1];
      assert s == s[..|s|-1] + [x];
      if x in prefix then prefix else prefix + [x]
  }

  /** List<T>.Reverse, as a pure function. */
  function Reverse<T>(s: seq<T>): (r: seq<T>)
    ensures |r| == |s|
    decreases |s|
  {
    if |s| == 0 then [] else [s[|s|-1]] + Reverse(s[..|s|-1])
  }

  /** Element i of the reversal is element n-1-i of the input. */
  lemma {:induction false} ReverseIndex<T>(s: seq<T>)
    ensures forall i :: 0 <= i < |s| ==> Reverse(s)[i] == s[|s| - 1 - i]
    decreases |s|
  {
    if |s| > 0 {
      var init := s[..|s|-1];
      ReverseIndex(init);
      forall i | 0 <= i < |s|
        ensures Reverse(s)[i] == s[|s| - 1 - i]
      {
        if i > 0 {
          assert Reverse(s)[i] == Reverse(init)[i - 1];
        }
      }
    }
  }
}

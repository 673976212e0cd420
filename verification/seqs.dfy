/** Sequence facts shared by the sampling and elimination models. */
module Seqs {

  /** No element occurs twice. */
  predicate Distinct<T(==)>(s: seq<T>)
  {
    forall i, j :: 0 <= i < j < |s| ==> s[i] != s[j]
  }

  /** The elements of a sequence, as a set. */
  function Elements<T(==)>(s: seq<T>): set<T>
  {
    set x | x in s
  }

  /** The positions `0 .. n-1`, in order. */
  function Indices(n: nat): (s: seq<nat>)
    ensures |s| == n && forall i :: 0 <= i < n ==> s[i] == i
  {
    seq(n, i => i)
  }

  /** A sequence without repetitions has as many elements as positions. */
  lemma {:induction false} DistinctCard<T>(s: seq<T>)
    requires Distinct(s)
    ensures |Elements(s)| == |s|
  {
    if |s| > 0 {
      DistinctCard(s[1..]);
      assert Elements(s) == {s[0]} + Elements(s[1..]);
      assert s[0] !in Elements(s[1..]);
    }
  }

  lemma SubsetOfSameSize<T>(a: set<T>, b: set<T>)
    requires a <= b && |a| == |b|
    ensures a == b
  {
    assert b == a + (b - a);
    assert |b| == |a| + |b - a|;
  }

  /**
   * Python's `list.remove(v)`: drop the first occurrence of `v`. The source only
   * removes an element it has just picked from the list, so `v` is present.
   */
  function RemoveFirst(s: seq<nat>, v: nat): (t: seq<nat>)
    requires v in s
    ensures |t| == |s| - 1
  {
    if s[0] == v then s[1..] else [s[0]] + RemoveFirst(s[1..], v)
  }

  /** `remove` takes away exactly one copy of `v` and nothing else. */
  lemma {:induction false} RemoveFirstMultiset(s: seq<nat>, v: nat)
    requires v in s
    ensures multiset(RemoveFirst(s, v)) == multiset(s) - multiset{v}
  {
    assert s == [s[0]] + s[1..];
    if s[0] != v {
      RemoveFirstMultiset(s[1..], v);
    }
  }

  /** In a list without repetitions, removing the element at `k` by value removes position `k`. */
  lemma {:induction false} RemoveFirstAt(s: seq<nat>, k: nat)
    requires k < |s| && Distinct(s)
    ensures RemoveFirst(s, s[k]) == s[..k] + s[k + 1..]
  {
    if k > 0 {
      var tail := s[1..];
      assert s[0] != s[k];
      assert tail[k - 1] == s[k];
      assert Distinct(tail);
      RemoveFirstAt(tail, k - 1);
      assert RemoveFirst(s, s[k]) == [s[0]] + RemoveFirst(tail, s[k]);
      assert tail[..k - 1] == s[1..k];
      assert tail[k..] == s[k + 1..];
      assert s[..k] == [s[0]] + s[1..k];
    }
  }

  /** Removing one position from a list without repetitions removes exactly that element. */
  lemma DropAt(s: seq<nat>, k: nat)
    requires k < |s| && Distinct(s)
    ensures Distinct(s[..k] + s[k + 1..])
    ensures Elements(s[..k] + s[k + 1..]) == Elements(s) - {s[k]}
  {
    var t := s[..k] + s[k + 1..];
    assert forall i :: 0 <= i < |t| ==> t[i] == if i < k then s[i] else s[i + 1];
    forall x | x in Elements(s) - {s[k]}
      ensures x in Elements(t)
    {
      var i :| 0 <= i < |s| && s[i] == x;
      if i < k {
        assert t[i] == x;
      } else {
        assert t[i - 1] == x;
      }
    }
  }
}

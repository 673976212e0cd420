/**
 * The random draws of a round, supplied by the caller: `random.sample` as a list of
 * distinct pool positions and `random.shuffle` as a permutation of that list.
 */
module Sampling {
  import opened Seqs

  /** `random.sample` of `k` positions out of `n`: `k` distinct positions, each below `n`. */
  predicate IsSample(s: seq<nat>, n: nat, k: nat)
  {
    && |s| == k
    && Distinct(s)
    && forall i :: 0 <= i < |s| ==> s[i] < n
  }

  /** A permutation of `0 .. |p| - 1`, the effect of `random.shuffle` on positions. */
  predicate IsPermutation(p: seq<nat>)
  {
    IsSample(p, |p|, |p|)
  }

  /** Rearrange `s` so that its new `i`-th element is its old `p[i]`-th one. */
  function Rearrange<T>(s: seq<T>, p: seq<nat>): (t: seq<T>)
    requires |p| == |s| && forall i :: 0 <= i < |p| ==> p[i] < |s|
    ensures |t| == |s|
    ensures forall i :: 0 <= i < |t| ==> t[i] == s[p[i]]
  {
    seq(|s|, i requires 0 <= i < |s| => s[p[i]])
  }

  /**
   * `random.shuffle`: a rearrangement of `s` by the permutation `p`. It keeps every
   * element with its multiplicity, so it keeps the set of elements and keeps a list
   * without repetitions free of them.
   */
  function Shuffle<T(==)>(s: seq<T>, p: seq<nat>): (t: seq<T>)
    requires |p| == |s| && IsPermutation(p)
    ensures |t| == |s| && multiset(t) == multiset(s)
    ensures Elements(t) == Elements(s)
    ensures Distinct(s) ==> Distinct(t)
    ensures forall i :: 0 <= i < |t| ==> t[i] == s[p[i]]
  {
    RearrangeMultiset(s, p);
    RearrangeDistinct(s, p);
    SameElements(Rearrange(s, p), s);
    Rearrange(s, p)
  }

  /** Lists with the same multiset have the same elements. */
  lemma SameElements<T>(t: seq<T>, s: seq<T>)
    requires multiset(t) == multiset(s)
    ensures Elements(t) == Elements(s)
  {
    forall x | x in Elements(t)
      ensures x in Elements(s)
    {
      assert x in multiset(t);
    }
    forall x | x in Elements(s)
      ensures x in Elements(t)
    {
      assert x in multiset(s);
    }
  }

  /**
   * A rearrangement by a permutation keeps the multiset: the element that moves to
   * position `j` from the last position is set aside, and the rest is a rearrangement
   * of the shorter list by the permutation with `j` dropped.
   */
  lemma {:induction false} RearrangeMultiset<T>(s: seq<T>, p: seq<nat>)
    requires |p| == |s| && IsPermutation(p)
    ensures multiset(Rearrange(s, p)) == multiset(s)
    decreases |s|
  {
    if |s| > 0 {
      var last := |s| - 1;
      var j := FindLast(p);
      var q := p[..j] + p[j + 1..];
      DropLast(p, j);
      RearrangeMultiset(s[..last], q);
      RearrangeDrop(s, p, j);
      var t := Rearrange(s, p);
      assert t[j] == s[last];
      MultisetSplit(t, j);
      MultisetSplit(s, last);
      assert s[..last] + s[last + 1..] == s[..last];
    }
  }

  /** Taking out position `j` takes one copy of `t[j]` out of the multiset. */
  lemma MultisetSplit<T>(t: seq<T>, j: nat)
    requires j < |t|
    ensures multiset(t) == multiset(t[..j] + t[j + 1..]) + multiset{t[j]}
  {
    assert t == t[..j] + [t[j]] + t[j + 1..];
  }

  /** The position a nonempty permutation sends to its last position. */
  lemma FindLast(p: seq<nat>) returns (j: nat)
    requires IsPermutation(p) && |p| > 0
    ensures j < |p| && p[j] == |p| - 1
  {
    PermutationOnto(p);
    assert Indices(|p|)[|p| - 1] == |p| - 1;
    assert |p| - 1 in Elements(p);
    j :| 0 <= j < |p| && p[j] == |p| - 1;
  }

  /** Dropping the entry that names the last position leaves a permutation of the rest. */
  lemma DropLast(p: seq<nat>, j: nat)
    requires IsPermutation(p) && j < |p| && p[j] == |p| - 1
    ensures IsPermutation(p[..j] + p[j + 1..])
  {
    var q := p[..j] + p[j + 1..];
    DropAt(p, j);
    forall i | 0 <= i < |q|
      ensures q[i] < |q|
    {
      if i < j {
        assert q[i] == p[i] && p[i] != p[j];
      } else {
        assert q[i] == p[i + 1] && p[i + 1] != p[j];
      }
    }
  }

  /** Rearranging without the last element is rearranging with position `j` removed. */
  lemma RearrangeDrop<T>(s: seq<T>, p: seq<nat>, j: nat)
    requires |p| == |s| && IsPermutation(p) && j < |p| && p[j] == |p| - 1
    requires IsPermutation(p[..j] + p[j + 1..])
    ensures Rearrange(s[..|s| - 1], p[..j] + p[j + 1..])
         == Rearrange(s, p)[..j] + Rearrange(s, p)[j + 1..]
  {
    var q := p[..j] + p[j + 1..];
    var t := Rearrange(s, p);
    var u := Rearrange(s[..|s| - 1], q);
    var v := t[..j] + t[j + 1..];
    forall i | 0 <= i < |u|
      ensures u[i] == v[i]
    {
      if i < j {
        assert q[i] == p[i];
      } else {
        assert q[i] == p[i + 1];
      }
    }
  }

  /** A rearrangement by a permutation keeps a list free of repetitions. */
  lemma RearrangeDistinct<T>(s: seq<T>, p: seq<nat>)
    requires |p| == |s| && IsPermutation(p)
    ensures Distinct(s) ==> Distinct(Rearrange(s, p))
  {
    if Distinct(s) {
      var t := Rearrange(s, p);
      forall i, j | 0 <= i < j < |t|
        ensures t[i] != t[j]
      {
        assert p[i] != p[j];
      }
    }
  }

  /**
   * Shuffling a sample yields a sample of the same size from the same pool, made of
   * exactly the same positions.
   */
  lemma ShuffleKeepsSample(s: seq<nat>, p: seq<nat>, n: nat, k: nat)
    requires IsSample(s, n, k) && |p| == |s| && IsPermutation(p)
    ensures IsSample(Shuffle(s, p), n, k)
    ensures Elements(Shuffle(s, p)) == Elements(s)
  {
  }

  /** A permutation hits every position: an injection of `0 .. n-1` into itself is onto. */
  lemma PermutationOnto(p: seq<nat>)
    requires IsPermutation(p)
    ensures Elements(p) == Elements(Indices(|p|))
  {
    var range := Elements(Indices(|p|));
    var hit := Elements(p);
    assert hit <= range by {
      forall x | x in hit
        ensures x in range
      {
        var i :| 0 <= i < |p| && p[i] == x;
        assert Indices(|p|)[x] == x;
      }
    }
    DistinctCard(p);
    DistinctCard(Indices(|p|));
    SubsetOfSameSize(hit, range);
  }
}

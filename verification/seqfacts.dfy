/**
 * Facts about sequences that the visitors and builders rely on: prefixes,
 * and rearrangements of a sequence by a permutation of its positions.
 */
module SeqFacts {
  /** A prefix one longer is the prefix with the next element appended. */
  lemma TakeOneMore<T>(xs: seq<T>, k: nat)
    requires k < |xs|
    ensures xs[..k] + [xs[k]] == xs[..k + 1]
  {
  }

  /** A sequence that starts with `acc + [v]` starts with `acc`, followed by `v`. */
  lemma PrefixSnoc<T>(xs: seq<T>, acc: seq<T>, v: T)
    requires |xs| > |acc| && xs[..|acc| + 1] == acc + [v]
    ensures xs[..|acc|] == acc && xs[|acc|] == v
  {
    assert xs[..|acc|] == xs[..|acc| + 1][..|acc|];
    assert xs[|acc|] == xs[..|acc| + 1][|acc|];
  }

  /** `p` lists every position below `n` exactly once. */
  predicate IsPermutation(p: seq<nat>, n: nat) {
    |p| == n
    && (forall i :: 0 <= i < n ==> p[i] < n)
    && (forall i, j :: 0 <= i < j < n ==> p[i] != p[j])
    && (forall k :: 0 <= k < n ==> k in p)
  }

  /** The positions below `n` in increasing order: the rearrangement that changes nothing. */
  function Positions(n: nat): (p: seq<nat>)
    ensures |p| == n && forall i :: 0 <= i < n ==> p[i] == i
    ensures IsPermutation(p, n)
  {
    if n == 0 then [] else Positions(n - 1) + [n - 1]
  }

  /** `s` rearranged so that its `i`-th element is `s[p[i]]`. */
  function Permute<T>(s: seq<T>, p: seq<nat>): (r: seq<T>)
    requires IsPermutation(p, |s|)
    ensures |r| == |s| && forall i :: 0 <= i < |s| ==> r[i] == s[p[i]]
  {
    seq(|s|, i requires 0 <= i < |s| => s[p[i]])
  }

  /** Dropping the position of the largest index leaves a permutation of the smaller ones. */
  lemma DropLast(p: seq<nat>, n: nat, j: nat)
    requires n > 0 && IsPermutation(p, n) && j < n && p[j] == n - 1
    ensures IsPermutation(p[..j] + p[j + 1..], n - 1)
  {
    var q := p[..j] + p[j + 1..];
    assert forall i :: 0 <= i < n - 1 ==> q[i] == if i < j then p[i] else p[i + 1];
    forall k | 0 <= k < n - 1
      ensures k in q
    {
      assert k in p;
      var m :| 0 <= m < n && p[m] == k;
      if m < j {
        assert q[m] == k;
      } else {
        assert m != j;
        assert q[m - 1] == k;
      }
    }
  }

  /** Rearranging a sequence keeps its elements, each as often as before. */
  lemma {:induction false} PermuteMultiset<T>(s: seq<T>, p: seq<nat>)
    requires IsPermutation(p, |s|)
    ensures multiset(Permute(s, p)) == multiset(s)
  {
    var n := |s|;
    if n > 0 {
      assert n - 1 in p;
      var j :| 0 <= j < n && p[j] == n - 1;
      var q := p[..j] + p[j + 1..];
      DropLast(p, n, j);
      var r := Permute(s, p);
      var init := s[..n - 1];
      PermuteDrop(s, p, j, q);
      PermuteMultiset(init, q);
      SpliceMultiset(r, j);
      assert s == init + [s[n - 1]];
    }
  }

  /** Taking out the element at `j` takes one copy of it out of the multiset. */
  lemma SpliceMultiset<T>(r: seq<T>, j: nat)
    requires j < |r|
    ensures multiset(r) == multiset(r[..j] + r[j + 1..]) + multiset{r[j]}
  {
    assert r == r[..j] + [r[j]] + r[j + 1..];
  }

  /** Rearranging without the largest position is rearranging with it, that element taken out. */
  lemma PermuteDrop<T>(s: seq<T>, p: seq<nat>, j: nat, q: seq<nat>)
    requires |s| > 0 && IsPermutation(p, |s|) && j < |s| && p[j] == |s| - 1
    requires q == p[..j] + p[j + 1..] && IsPermutation(q, |s| - 1)
    ensures Permute(s[..|s| - 1], q) == Permute(s, p)[..j] + Permute(s, p)[j + 1..]
  {
  }
}

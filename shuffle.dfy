/** `random.shuffle` and `DataFrame.sample(frac = 1)` reorder a list at random.
    The model takes the reordering as a parameter: a permutation of the list's
    indices, chosen by the caller. Nothing is assumed about how it was drawn. */
module Shuffle {

  /** `p` lists every index below `n` exactly once. (The last conjunct follows
      from the first three by counting; stating it spares the proofs a
      pigeonhole argument.) */
  predicate IsPermutation(p: seq<nat>, n: nat) {
    && |p| == n
    && (forall i :: 0 <= i < n ==> p[i] < n)
    && (forall i, j :: 0 <= i < j < n ==> p[i] != p[j])
    && (forall v :: 0 <= v < n ==> v in p)
  }

  /** `s` reordered by `p`: position `i` receives the element that stood at `p[i]`. */
  function Permute<T>(s: seq<T>, p: seq<nat>): (r: seq<T>)
    requires IsPermutation(p, |s|)
    ensures |r| == |s|
    ensures forall i :: 0 <= i < |s| ==> r[i] == s[p[i]]
  {
    seq(|s|, i requires 0 <= i < |s| => s[p[i]])
  }

  /** Removing the entry `n - 1` from a permutation of `n` indices leaves a
      permutation of `n - 1` indices. */
  lemma DropLargest(p: seq<nat>, n: nat, k: nat)
    requires n > 0 && IsPermutation(p, n)
    requires k < n && p[k] == n - 1
    ensures IsPermutation(p[..k] + p[k + 1..], n - 1)
  {
    var q := p[..k] + p[k + 1..];
    assert |q| == n - 1;
    forall i | 0 <= i < n - 1
      ensures q[i] == p[if i < k then i else i + 1]
    {
    }
    forall i | 0 <= i < n - 1
      ensures q[i] < n - 1
    {
      var m := if i < k then i else i + 1;
      assert q[i] == p[m] && m != k;
    }
    forall v | 0 <= v < n - 1
      ensures v in q
    {
      assert v in p;
      var m :| 0 <= m < n && p[m] == v;
      assert m != k;
      if m < k {
        assert q[m] == v;
      } else {
        assert q[m - 1] == v;
      }
    }
  }

  /** Where a permutation of `n > 0` indices puts the largest one. */
  lemma PositionOfLargest(p: seq<nat>, n: nat) returns (k: nat)
    requires n > 0 && IsPermutation(p, n)
    ensures k < n && p[k] == n - 1
  {
    assert n - 1 in p;
    k :| 0 <= k < n && p[k] == n - 1;
  }

  /** With `p[k] == n - 1`, the shuffle of `s` is the shuffle of `s` without
      its last element, with that element put back at position `k`. */
  lemma PermuteSplit<T>(s: seq<T>, p: seq<nat>, k: nat)
    requires |s| > 0 && IsPermutation(p, |s|)
    requires k < |s| && p[k] == |s| - 1
    ensures IsPermutation(p[..k] + p[k + 1..], |s| - 1)
    ensures var r' := Permute(s[..|s| - 1], p[..k] + p[k + 1..]);
      Permute(s, p) == r'[..k] + [s[|s| - 1]] + r'[k..]
  {
    var n := |s|;
    var q := p[..k] + p[k + 1..];
    DropLargest(p, n, k);
    var r, r' := Permute(s, p), Permute(s[..n - 1], q);
    forall i | 0 <= i < n
      ensures r[i] == (r'[..k] + [s[n - 1]] + r'[k..])[i]
    {
      if i < k {
        assert q[i] == p[i];
      } else if i > k {
        assert q[i - 1] == p[i];
      }
    }
  }

  /** The same split, counted as a multiset. */
  lemma PermuteSplitMultiset<T>(s: seq<T>, p: seq<nat>, k: nat)
    requires |s| > 0 && IsPermutation(p, |s|)
    requires k < |s| && p[k] == |s| - 1
    ensures IsPermutation(p[..k] + p[k + 1..], |s| - 1)
    ensures multiset(Permute(s, p)) ==
      multiset(Permute(s[..|s| - 1], p[..k] + p[k + 1..])) + multiset{s[|s| - 1]}
  {
    PermuteSplit(s, p, k);
    var r' := Permute(s[..|s| - 1], p[..k] + p[k + 1..]);
    assert r' == r'[..k] + r'[k..];
  }

  /** Shuffling keeps every element and its multiplicity. */
  lemma {:induction false} PermutePreservesMultiset<T>(s: seq<T>, p: seq<nat>)
    requires IsPermutation(p, |s|)
    ensures multiset(Permute(s, p)) == multiset(s)
  {
    var n := |s|;
    if n > 0 {
      var k := PositionOfLargest(p, n);
      PermuteSplitMultiset(s, p, k);
      PermutePreservesMultiset(s[..n - 1], p[..k] + p[k + 1..]);
      assert s == s[..n - 1] + [s[n - 1]];
    }
  }
}

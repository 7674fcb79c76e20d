/** Index permutations, used to state order-insensitivity. */
module Permutations {

  /** p is a bijection of 0..n-1 (injective into 0..n-1, hence onto). */
  predicate IsPermutation(p: seq<nat>, n: nat) {
    && |p| == n
    && (forall i :: 0 <= i < n ==> p[i] < n)
    && (forall i, j :: 0 <= i < j < n ==> p[i] != p[j])
  }

  /** s reordered so that position i holds s[p[i]]. */
  function Permute<T>(s: seq<T>, p: seq<nat>): (r: seq<T>)
    requires IsPermutation(p, |s|)
    ensures |r| == |s|
    ensures forall i :: 0 <= i < |s| ==> r[i] == s[p[i]]
  {
    seq(|s|, i requires 0 <= i < |s| => s[p[i]])
  }

  function Image(p: seq<nat>, k: nat): set<nat>
    requires k <= |p|
  {
    set i | 0 <= i < k :: p[i]
  }

  lemma {:induction false} ImageSize(p: seq<nat>, k: nat)
    requires k <= |p|
    requires forall i, j :: 0 <= i < j < |p| ==> p[i] != p[j]
    ensures |Image(p, k)| == k
  {
    if k > 0 {
      ImageSize(p, k - 1);
      assert Image(p, k) == Image(p, k - 1) + {p[k - 1]};
      assert p[k - 1] !in Image(p, k - 1);
    }
  }

  /** The indices 0..n-1. */
  function Range(n: nat): (r: set<nat>)
    ensures |r| == n
    ensures forall i: nat :: i in r <==> i < n
  {
    if n == 0 then {} else Range(n - 1) + {n - 1}
  }

  /** Pigeonhole: an injective map of 0..n-1 into itself hits every index. */
  lemma PermutationIsOnto(p: seq<nat>, n: nat, m: nat)
    requires IsPermutation(p, n)
    requires m < n
    ensures exists j :: 0 <= j < n && p[j] == m
  {
    var hit := Image(p, n);
    var range := Range(n);
    ImageSize(p, n);
    assert hit <= range;
    if m !in hit {
      assert hit <= range - {m};
      assert |range - {m}| == n - 1;
      SubsetSize(hit, range - {m});
      assert false;
    }
  }

  lemma SubsetSize<T>(a: set<T>, b: set<T>)
    requires a <= b
    ensures |a| <= |b|
  {
    assert b == a + (b - a);
  }
}

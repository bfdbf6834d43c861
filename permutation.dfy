/** Row-permutation vectors (`pi` in both LU variants) and the 0/1 matrix
    built from them after the elimination loop. */
module Permutations {

  /** `s` maps {0,…,|s|-1} into itself without repeating a value. */
  ghost predicate IsPermutation(s: seq<int>) {
    && (forall i :: 0 <= i < |s| ==> 0 <= s[i] < |s|)
    && (forall i, j :: 0 <= i < j < |s| ==> s[i] != s[j])
  }

  /** The vector `pi` holds after its initialising loop. */
  function Identity(n: nat): (s: seq<int>)
    ensures |s| == n
    ensures forall i :: 0 <= i < n ==> s[i] == i
  {
    seq(n, i => i)
  }

  /** Exchanging two entries, as each elimination step does with pi[k] and pi[index]. */
  function Swap(s: seq<int>, i: nat, j: nat): (r: seq<int>)
    requires i < |s| && j < |s|
    ensures |r| == |s| && r[i] == s[j] && r[j] == s[i]
    ensures forall m :: 0 <= m < |s| && m != i && m != j ==> r[m] == s[m]
  {
    s[i := s[j]][j := s[i]]
  }

  lemma IdentityIsPermutation(n: nat)
    ensures IsPermutation(Identity(n))
  {
  }

  lemma SwapIsPermutation(s: seq<int>, i: nat, j: nat)
    requires IsPermutation(s) && i < |s| && j < |s|
    ensures IsPermutation(Swap(s, i, j))
  {
  }

  /** The set {0,…,n-1}. */
  function Below(n: nat): (r: set<int>)
    ensures forall v :: v in r <==> 0 <= v < n
    ensures |r| == n
  {
    if n == 0 then {} else Below(n - 1) + {n - 1}
  }

  /** The values taken by s[0..m). */
  function Image(s: seq<int>, m: nat): (r: set<int>)
    requires m <= |s|
    ensures forall v :: v in r <==> exists i :: 0 <= i < m && s[i] == v
  {
    set i | 0 <= i < m :: s[i]
  }

  lemma {:induction false} ImageSize(s: seq<int>, m: nat)
    requires IsPermutation(s) && m <= |s|
    ensures |Image(s, m)| == m
  {
    if m > 0 {
      ImageSize(s, m - 1);
      assert Image(s, m) == Image(s, m - 1) + {s[m - 1]};
      assert s[m - 1] !in Image(s, m - 1);
    }
  }

  /** Pigeonhole: an injective map of {0,…,n-1} into itself is onto. */
  lemma PermutationIsOnto(s: seq<int>)
    requires IsPermutation(s)
    ensures Image(s, |s|) == Below(|s|)
  {
    var img, all := Image(s, |s|), Below(|s|);
    ImageSize(s, |s|);
    assert img <= all;
    assert img * all == img;
    assert |all - img| == 0;
  }

  /** Entry (i, j) of the matrix P built from pi: 1 exactly at column pi[i]. */
  function PermutationEntry(pi: seq<int>, i: nat, j: int): (r: real)
    requires i < |pi|
    ensures r == 0.0 || r == 1.0
    ensures r == 1.0 <==> j == pi[i]
  {
    if j == pi[i] then 1.0 else 0.0
  }

  /** The columns holding a 1 in row i of P. */
  function OnesInRow(pi: seq<int>, i: nat): set<int>
    requires i < |pi|
  {
    set j | 0 <= j < |pi| && PermutationEntry(pi, i, j) == 1.0
  }

  /** The rows holding a 1 in column j of P. */
  function OnesInColumn(pi: seq<int>, j: int): set<nat>
  {
    set i: nat | i < |pi| && PermutationEntry(pi, i, j) == 1.0
  }

  /** Row i of P holds its single 1 at column pi[i]. */
  lemma OneInEachRow(pi: seq<int>, i: nat)
    requires IsPermutation(pi) && i < |pi|
    ensures OnesInRow(pi, i) == {pi[i]}
  {
    assert pi[i] in OnesInRow(pi, i);
  }

  /** Since pi is a permutation, column j of P holds exactly one 1. */
  lemma OneInEachColumn(pi: seq<int>, j: int)
    requires IsPermutation(pi) && 0 <= j < |pi|
    ensures |OnesInColumn(pi, j)| == 1
  {
    PermutationIsOnto(pi);
    assert j in Image(pi, |pi|);
    var i: nat :| i < |pi| && pi[i] == j;
    forall i' | i' in OnesInColumn(pi, j)
      ensures i' == i
    {
    }
    assert OnesInColumn(pi, j) == {i};
  }
}

/** How the thread variant hands the rows (k, n) of the trailing update to
    its workers at step k: each of the T workers gets the quotient
    (n-k-1)/T of rows and the last one also gets the remainder. All operands
    are non-negative, so C's truncating division agrees with Dafny's. */
module WorkerSplit {
  import opened Arith

  /** `num_of_elements`: the rows every worker gets, at most the n-k-1 rows
      of the trailing block, and all of them when there is one worker. */
  function Quota(n: nat, k: nat, threads: nat): (q: nat)
    requires k < n && threads > 0
    ensures q <= n - k - 1
    ensures threads == 1 ==> q == n - k - 1
  {
    var rows := n - k - 1;
    DivisionIdentity(rows, threads);
    ScaleMonotone(1, threads, rows / threads);
    rows / threads
  }

  /** `remaining`: zero except for the last worker, which takes the rows the
      quotient leaves. */
  function Remaining(n: nat, k: nat, threads: nat, rank: nat): (r: nat)
    requires k < n && 0 < threads && rank < threads
    ensures rank < threads - 1 ==> r == 0
    ensures r <= n - k - 1
  {
    var q := Quota(n, k, threads);
    if rank == threads - 1 then
      assert q * threads <= n - k - 1 by {
        assert n - k - 1 == q * threads + (n - k - 1) % threads;
      }
      (n - k - 1) - q * threads
    else 0
  }

  /** `begin_in_thread`: the first row owned by worker `rank`; worker 0
      starts right below the pivot row. */
  function RangeBegin(n: nat, k: nat, threads: nat, rank: nat): (b: nat)
    requires k < n && 0 < threads && rank < threads
    ensures k + 1 <= b
    ensures rank == 0 ==> b == k + 1
  {
    k + 1 + Quota(n, k, threads) * rank
  }

  /** `last_in_thread`: one past the last row owned by worker `rank`; a
      range never runs backwards. */
  function RangeEnd(n: nat, k: nat, threads: nat, rank: nat): (e: nat)
    requires k < n && 0 < threads && rank < threads
    ensures RangeBegin(n, k, threads, rank) <= e
  {
    RangeBegin(n, k, threads, rank) + Quota(n, k, threads) + Remaining(n, k, threads, rank)
  }

  /** Each worker's range follows on from the previous one, and the last
      one ends at n: the ranges tile [k+1, n) in rank order. */
  lemma RangesAreConsecutive(n: nat, k: nat, threads: nat, rank: nat)
    requires k < n && 0 < threads && rank < threads
    ensures rank == 0 ==> RangeBegin(n, k, threads, rank) == k + 1
    ensures rank + 1 < threads ==> RangeEnd(n, k, threads, rank) == RangeBegin(n, k, threads, rank + 1)
    ensures rank + 1 == threads ==> RangeEnd(n, k, threads, rank) == n
  {
    var q := Quota(n, k, threads);
    assert q * (rank + 1) == q * rank + q;
  }

  /** Every range lies inside [k+1, n). */
  lemma RangeInside(n: nat, k: nat, threads: nat, rank: nat)
    requires k < n && 0 < threads && rank < threads
    ensures k + 1 <= RangeBegin(n, k, threads, rank) <= RangeEnd(n, k, threads, rank) <= n
  {
    var q := Quota(n, k, threads);
    assert q * threads <= n - k - 1 by {
      assert n - k - 1 == q * threads + (n - k - 1) % threads;
    }
    assert q * rank + q == q * (rank + 1) <= q * threads by {
      ScaleMonotone(rank + 1, threads, q);
    }
  }

  /** Ranges of distinct workers do not overlap. */
  lemma RangesDisjoint(n: nat, k: nat, threads: nat, r1: nat, r2: nat)
    requires k < n && 0 < threads && r1 < r2 < threads
    ensures RangeEnd(n, k, threads, r1) <= RangeBegin(n, k, threads, r2)
  {
    var q := Quota(n, k, threads);
    assert r1 != threads - 1;
    assert q * r1 + q == q * (r1 + 1) <= q * r2 by {
      ScaleMonotone(r1 + 1, r2, q);
    }
  }

  /** The worker that owns row i. */
  function Owner(n: nat, k: nat, threads: nat, i: nat): (r: nat)
    requires k < n && 0 < threads && k < i < n
    ensures r < threads
  {
    var q := Quota(n, k, threads);
    if q == 0 || (i - k - 1) / q >= threads then threads - 1 else (i - k - 1) / q
  }

  /** Every row of (k, n) lies in the range of its owner. */
  lemma OwnerCovers(n: nat, k: nat, threads: nat, i: nat)
    requires k < n && 0 < threads && k < i < n
    ensures var r := Owner(n, k, threads, i);
      && r < threads
      && RangeBegin(n, k, threads, r) <= i < RangeEnd(n, k, threads, r)
  {
    var q, d, o := Quota(n, k, threads), i - k - 1, Owner(n, k, threads, i);
    RangesAreConsecutive(n, k, threads, threads - 1);
    if q == 0 {
      assert o == threads - 1;
      assert RangeBegin(n, k, threads, o) == k + 1;
    } else {
      DivisionIdentity(d, q);
      if d / q < threads {
        assert o == d / q;
        assert RangeBegin(n, k, threads, o) == k + 1 + q * (d / q);
        assert RangeEnd(n, k, threads, o) >= k + 1 + q * (d / q) + q;
      } else {
        assert o == threads - 1;
        ScaleMonotone(threads - 1, d / q, q);
        assert RangeBegin(n, k, threads, o) == k + 1 + q * (threads - 1);
      }
    }
  }

  /** No other worker's range contains row i. */
  lemma OwnerIsUnique(n: nat, k: nat, threads: nat, i: nat, r: nat)
    requires k < n && 0 < threads && k < i < n && r < threads
    requires RangeBegin(n, k, threads, r) <= i < RangeEnd(n, k, threads, r)
    ensures r == Owner(n, k, threads, i)
  {
    var o := Owner(n, k, threads, i);
    OwnerCovers(n, k, threads, i);
    if r < o {
      RangesDisjoint(n, k, threads, r, o);
    } else if o < r {
      RangesDisjoint(n, k, threads, o, r);
    }
  }
}

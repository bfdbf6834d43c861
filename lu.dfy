/** LU factorisation with partial pivoting, as both the thread variant
    (A2/pthread.cpp) and the directive-parallel variant (A2/openmp.cpp)
    run it: the working matrix `a`, the factors `l` and `u`, the
    permutation matrix `p` and the row-permutation vector `pi`, all updated
    in place. Entries are exact reals; the worker fan-out is run as one
    sequential loop over ranks. */
module LuFactorisation {
  import opened Arith
  import opened PivotSearch
  import opened Permutations
  import opened WorkerSplit

  /** `threshold`, 10^-16, added to every pivot denominator. */
  const THRESHOLD: real := 0.0000000000000001

  /** The multiplier of an entry below a pivot: the entry divided by the
      regularised pivot, pivot + 10^-16. A zero denominator (a pivot of
      exactly -10^-16) gives 0 here; IEEE arithmetic gives an infinity or NaN. */
  function Multiplier(x: real, pivot: real): (r: real)
    ensures pivot + THRESHOLD != 0.0 ==> r * (pivot + THRESHOLD) == x
  {
    if pivot + THRESHOLD == 0.0 then 0.0 else x / (pivot + THRESHOLD)
  }

  /** The row that a swap of rows r1 and r2 brings to position i. */
  function RowSwap(i: int, r1: int, r2: int): int {
    if i == r1 then r2 else if i == r2 then r1 else i
  }

  /** Entry (i, j) of `initialise(n, flag, init)`: zero unless `init` is 1;
      flag 0 fills everything, flag 1 the upper triangle, any other flag
      puts 1 on the diagonal and fills the strictly lower triangle. */
  function InitialEntry(flag: int, init: int, random: (int, int) -> real, i: int, j: int): (r: real)
    ensures init != 1 ==> r == 0.0
    // the upper-factor buffer (flag 1) starts with zeros strictly below the diagonal
    ensures init == 1 && flag == 1 && j < i ==> r == 0.0
    // the lower-factor buffer (any flag but 0 and 1) starts unit lower triangular
    ensures init == 1 && flag != 0 && flag != 1 && i == j ==> r == 1.0
    ensures init == 1 && flag != 0 && flag != 1 && i < j ==> r == 0.0
    // every other entry is drawn from the generator
    ensures init == 1 && (flag == 0 || (flag == 1 && i <= j) || (flag != 1 && j < i)) ==> r == random(i, j)
  {
    if init != 1 then 0.0
    else if flag == 0 then random(i, j)
    else if flag == 1 then (if i <= j then random(i, j) else 0.0)
    else if i == j then 1.0
    else if i > j then random(i, j)
    else 0.0
  }

  /** `initialise`: a zeroed n×n buffer, then filled row by row. The random
      source is a parameter. */
  method Initialise(n: nat, flag: int, init: int, random: (int, int) -> real) returns (m: array2<real>)
    ensures fresh(m) && m.Length0 == n && m.Length1 == n
    ensures forall i, j :: 0 <= i < n && 0 <= j < n ==> m[i, j] == InitialEntry(flag, init, random, i, j)
  {
    m := new real[n, n]((i, j) => 0.0);
    for i := 0 to n
      invariant forall r, c :: 0 <= r < n && 0 <= c < n ==>
        m[r, c] == if r < i then InitialEntry(flag, init, random, r, c) else 0.0
    {
      if init == 1 {
        for j := 0 to n
          invariant forall r, c :: 0 <= r < n && 0 <= c < n ==>
            m[r, c] == if r < i || (r == i && c < j) then InitialEntry(flag, init, random, r, c) else 0.0
        {
          if flag == 0 {
            m[i, j] := random(i, j);
          } else if flag == 1 {
            if i <= j {
              m[i, j] := random(i, j);
            }
          } else {
            if i == j {
              m[i, j] := 1.0;
            } else if i > j {
              m[i, j] := random(i, j);
            }
          }
        }
      }
    }
  }

  /** Swaps the first `width` columns of rows r1 and r2: the full-row swap
      of `a` (width n) and the prefix swap of `l` (width k). */
  method SwapRowPrefix(m: array2<real>, r1: nat, r2: nat, width: nat)
    requires r1 < m.Length0 && r2 < m.Length0 && width <= m.Length1
    modifies m
    ensures forall i, j :: 0 <= i < m.Length0 && 0 <= j < m.Length1 ==>
      m[i, j] == if j < width then old(m[RowSwap(i, r1, r2), j]) else old(m[i, j])
  {
    for j := 0 to width
      invariant forall i, c :: 0 <= i < m.Length0 && 0 <= c < m.Length1 ==>
        m[i, c] == if c < j then old(m[RowSwap(i, r1, r2), c]) else old(m[i, c])
    {
      var temp := m[r1, j];
      m[r1, j] := m[r2, j];
      m[r2, j] := temp;
    }
  }

  /** A matrix as the sequence of its rows. */
  type Matrix = seq<seq<real>>

  /** `m` has n rows of n entries each. */
  predicate IsSquare(m: Matrix, n: nat) {
    |m| == n && forall i :: 0 <= i < n ==> |m[i]| == n
  }

  /** The contents of an array, row by row. */
  ghost function Rows(m: array2<real>): (r: Matrix)
    reads m
    ensures |r| == m.Length0 && forall i :: 0 <= i < m.Length0 ==> |r[i]| == m.Length1
    ensures forall i, j {:trigger r[i][j]} :: 0 <= i < m.Length0 && 0 <= j < m.Length1 ==> r[i][j] == m[i, j]
  {
    seq(m.Length0, i reads m requires 0 <= i < m.Length0 =>
      seq(m.Length1, j reads m requires 0 <= j < m.Length1 => m[i, j]))
  }

  /** Column k of a matrix. */
  function ColumnOf(m: Matrix, n: nat, k: nat): (col: seq<real>)
    requires IsSquare(m, n) && k < n
    ensures |col| == n && forall i :: 0 <= i < n ==> col[i] == m[i][k]
  {
    seq(n, i requires 0 <= i < n => m[i][k])
  }

  /** One cell of the trailing update: the entry less multiplier times pivot-row entry. */
  function Reduce(x: real, multiplier: real, pivotRowEntry: real): real {
    x - multiplier * pivotRowEntry
  }

  /** Rows r1 and r2 exchanged over columns [0, width); the other columns kept. */
  function SwapRows(m: Matrix, n: nat, r1: nat, r2: nat, width: nat): (r: Matrix)
    requires IsSquare(m, n) && r1 < n && r2 < n
    ensures IsSquare(r, n)
  {
    seq(n, i requires 0 <= i < n =>
      seq(n, j requires 0 <= j < n => if j < width then m[RowSwap(i, r1, r2)][j] else m[i][j]))
  }

  /** U after step k: its row k from column k on copied from the working matrix. */
  function EliminateU(a: Matrix, u: Matrix, n: nat, k: nat): (r: Matrix)
    requires IsSquare(a, n) && IsSquare(u, n) && k < n
    ensures IsSquare(r, n)
  {
    seq(n, i requires 0 <= i < n =>
      seq(n, j requires 0 <= j < n => if i == k && k <= j then a[k][j] else u[i][j]))
  }

  /** L after step k: its column k below the diagonal holds the entries of
      the working matrix divided by the regularised pivot. */
  function EliminateL(a: Matrix, l: Matrix, n: nat, k: nat): (r: Matrix)
    requires IsSquare(a, n) && IsSquare(l, n) && k < n
    ensures IsSquare(r, n)
  {
    seq(n, i requires 0 <= i < n =>
      seq(n, j requires 0 <= j < n => if j == k && k < i then Multiplier(a[i][k], a[k][k]) else l[i][j]))
  }

  /** The trailing update of step k: a[i][j] -= l[i][k]·u[k][j] for i, j > k. */
  function UpdateTrailing(a: Matrix, l: Matrix, u: Matrix, n: nat, k: nat): (r: Matrix)
    requires IsSquare(a, n) && IsSquare(l, n) && IsSquare(u, n) && k < n
    ensures IsSquare(r, n)
  {
    seq(n, i requires 0 <= i < n =>
      seq(n, j requires 0 <= j < n => if k < i && k < j then Reduce(a[i][j], l[i][k], u[k][j]) else a[i][j]))
  }

  /** Entries of `SwapRows`: rows r1 and r2 exchanged in columns below `width`. */
  lemma SwapRowsEntries(m: Matrix, n: nat, r1: nat, r2: nat, width: nat)
    requires IsSquare(m, n) && r1 < n && r2 < n
    ensures forall i, j {:trigger SwapRows(m, n, r1, r2, width)[i][j]} :: 0 <= i < n && 0 <= j < n ==>
      SwapRows(m, n, r1, r2, width)[i][j] == if j < width then m[RowSwap(i, r1, r2)][j] else m[i][j]
  {
  }

  /** Entries of `EliminateU`: row k of U from column k on is row k of `a`. */
  lemma EliminateUEntries(a: Matrix, u: Matrix, n: nat, k: nat)
    requires IsSquare(a, n) && IsSquare(u, n) && k < n
    ensures forall i, j {:trigger EliminateU(a, u, n, k)[i][j]} :: 0 <= i < n && 0 <= j < n ==>
      EliminateU(a, u, n, k)[i][j] == if i == k && k <= j then a[k][j] else u[i][j]
  {
  }

  /** Entries of `EliminateL`: column k of L below the diagonal holds the multipliers. */
  lemma EliminateLEntries(a: Matrix, l: Matrix, n: nat, k: nat)
    requires IsSquare(a, n) && IsSquare(l, n) && k < n
    ensures forall i, j {:trigger EliminateL(a, l, n, k)[i][j]} :: 0 <= i < n && 0 <= j < n ==>
      EliminateL(a, l, n, k)[i][j] == if j == k && k < i then Multiplier(a[i][k], a[k][k]) else l[i][j]
  {
  }

  /** Entries of `UpdateTrailing`: the block beyond row and column k loses l[i][k]·u[k][j]. */
  lemma UpdateTrailingEntries(a: Matrix, l: Matrix, u: Matrix, n: nat, k: nat)
    requires IsSquare(a, n) && IsSquare(l, n) && IsSquare(u, n) && k < n
    ensures forall i, j {:trigger UpdateTrailing(a, l, u, n, k)[i][j]} :: 0 <= i < n && 0 <= j < n ==>
      UpdateTrailing(a, l, u, n, k)[i][j] == if k < i && k < j then Reduce(a[i][j], l[i][k], u[k][j]) else a[i][j]
  {
  }

  /** The whole state of the factorisation at one moment. */
  datatype Snapshot = Snapshot(a: Matrix, l: Matrix, u: Matrix, pi: seq<int>)

  /** All three matrices are n×n and `pi` has n entries. */
  predicate Shaped(s: Snapshot, n: nat) {
    IsSquare(s.a, n) && IsSquare(s.l, n) && IsSquare(s.u, n) && |s.pi| == n
  }

  /** Elimination step k, independent of how the trailing update is split
      among workers: the pivot search from row k, the interchange (`pi`,
      all of rows k and index of `a`, columns [0, k) of those rows of L),
      row k of U and column k of L, and then, when `update` holds, the
      trailing update. */
  function Step(s: Snapshot, n: nat, k: nat, update: bool): (r: Snapshot)
    requires Shaped(s, n) && k < n
    ensures Shaped(r, n)
    ensures r.pi == Swap(s.pi, k, Pivot(ColumnOf(s.a, n, k), k).index)
  {
    var index := Pivot(ColumnOf(s.a, n, k), k).index;
    var a := SwapRows(s.a, n, k, index, n);
    var l := EliminateL(a, SwapRows(s.l, n, k, index, k), n, k);
    var u := EliminateU(a, s.u, n, k);
    Snapshot(if update then UpdateTrailing(a, l, u, n, k) else a, l, u, Swap(s.pi, k, index))
  }

  /** The first `steps` elimination steps applied to `s`. */
  function Run(s: Snapshot, n: nat, steps: nat, update: bool): (r: Snapshot)
    requires Shaped(s, n) && steps <= n
    ensures Shaped(r, n)
    decreases steps
  {
    if steps == 0 then s else Step(Run(s, n, steps - 1, update), n, steps - 1, update)
  }

  /** Entry by entry, `t` is `s` after elimination step k with pivot row
      `index`: `pi` has entries k and index exchanged; L has rows k and
      index exchanged in columns [0, k) and the multipliers in column k
      below the diagonal; U gets row k of the interchanged matrix from
      column k on; the working matrix is interchanged and, when `update`
      holds, loses l[i][k]·u[k][j] in every cell beyond row and column k. */
  ghost predicate Stepped(s: Snapshot, t: Snapshot, n: nat, k: nat, update: bool, index: nat)
    requires Shaped(s, n) && Shaped(t, n) && k <= index < n
  {
    && t.pi == Swap(s.pi, k, index)
    && (forall i, j {:trigger t.l[i][j]} :: 0 <= i < n && 0 <= j < n ==>
          t.l[i][j] == if j < k then s.l[RowSwap(i, k, index)][j]
                       else if j == k && k < i then Multiplier(s.a[RowSwap(i, k, index)][k], s.a[index][k])
                       else s.l[i][j])
    && (forall i, j {:trigger t.u[i][j]} :: 0 <= i < n && 0 <= j < n ==>
          t.u[i][j] == if i == k && k <= j then s.a[index][j] else s.u[i][j])
    && (forall i, j {:trigger t.a[i][j]} :: 0 <= i < n && 0 <= j < n ==>
          t.a[i][j] == if update && k < i && k < j
                       then Reduce(s.a[RowSwap(i, k, index)][j], t.l[i][k], t.u[k][j])
                       else s.a[RowSwap(i, k, index)][j])
  }

  /** `Step` is the step that `Stepped` describes, with the pivot row of
      the search over column k. */
  lemma StepIsStepped(s: Snapshot, n: nat, k: nat, update: bool)
    requires Shaped(s, n) && k < n
    ensures Stepped(s, Step(s, n, k, update), n, k, update, Pivot(ColumnOf(s.a, n, k), k).index)
  {
    var index := Pivot(ColumnOf(s.a, n, k), k).index;
    var swapped := SwapRows(s.a, n, k, index, n);
    var l1 := EliminateL(swapped, SwapRows(s.l, n, k, index, k), n, k);
    var u1 := EliminateU(swapped, s.u, n, k);
    var t := Step(s, n, k, update);
    assert t.l == l1 && t.u == u1 && t.pi == Swap(s.pi, k, index);
    assert t.a == if update then UpdateTrailing(swapped, l1, u1, n, k) else swapped;
    FactorsOfStep(s, n, k, index);
    SwapRowsEntries(s.a, n, k, index, n);
    if update {
      UpdateTrailingEntries(swapped, l1, u1, n, k);
    }
  }

  /** Entries of L and U after step k with pivot row `index`. */
  lemma FactorsOfStep(s: Snapshot, n: nat, k: nat, index: nat)
    requires Shaped(s, n) && k <= index < n
    ensures var swapped := SwapRows(s.a, n, k, index, n);
      var l1 := EliminateL(swapped, SwapRows(s.l, n, k, index, k), n, k);
      var u1 := EliminateU(swapped, s.u, n, k);
      && (forall i, j {:trigger l1[i][j]} :: 0 <= i < n && 0 <= j < n ==>
            l1[i][j] == if j < k then s.l[RowSwap(i, k, index)][j]
                        else if j == k && k < i then Multiplier(s.a[RowSwap(i, k, index)][k], s.a[index][k])
                        else s.l[i][j])
      && (forall i, j {:trigger u1[i][j]} :: 0 <= i < n && 0 <= j < n ==>
            u1[i][j] == if i == k && k <= j then s.a[index][j] else s.u[i][j])
  {
    var swapped := SwapRows(s.a, n, k, index, n);
    SwapRowsEntries(s.a, n, k, index, n);
    SwapRowsEntries(s.l, n, k, index, k);
    EliminateLEntries(swapped, SwapRows(s.l, n, k, index, k), n, k);
    EliminateUEntries(swapped, s.u, n, k);
  }

  /** A step exchanges two entries of `pi`, so a permutation stays one. */
  lemma StepPermutes(s: Snapshot, n: nat, k: nat, update: bool)
    requires Shaped(s, n) && k < n && IsPermutation(s.pi)
    ensures IsPermutation(Step(s, n, k, update).pi)
  {
    SwapIsPermutation(s.pi, k, Pivot(ColumnOf(s.a, n, k), k).index);
  }

  /** Every step only exchanges two entries of `pi`, so a permutation stays
      one however many steps run. */
  lemma {:induction false} RunPermutes(s: Snapshot, n: nat, steps: nat, update: bool)
    requires Shaped(s, n) && steps <= n && IsPermutation(s.pi)
    ensures IsPermutation(Run(s, n, steps, update).pi)
  {
    if steps > 0 {
      RunPermutes(s, n, steps - 1, update);
      StepPermutes(Run(s, n, steps - 1, update), n, steps - 1, update);
    }
  }

  class Factorisation {
    const n: nat
    const a: array2<real>
    const l: array2<real>
    const u: array2<real>
    const p: array2<real>
    const pi: array<int>

    /** All buffers are n×n (pi has n entries) and no two of them alias. */
    ghost predicate Valid() {
      && a.Length0 == n && a.Length1 == n
      && l.Length0 == n && l.Length1 == n
      && u.Length0 == n && u.Length1 == n
      && p.Length0 == n && p.Length1 == n
      && pi.Length == n
      && a != l && a != u && a != p && l != u && l != p && u != p
    }

    /** L has 1 on its diagonal and 0 strictly above it. */
    ghost predicate UnitLower()
      requires Valid()
      reads l
    {
      forall i, j :: 0 <= i < n && 0 <= j < n ==> (i == j ==> l[i, j] == 1.0) && (i < j ==> l[i, j] == 0.0)
    }

    /** U has 0 strictly below its diagonal. */
    ghost predicate Upper()
      requires Valid()
      reads u
    {
      forall i, j :: 0 <= j < i < n ==> u[i, j] == 0.0
    }

    /** What the first k steps have settled: rows < k of U are the upper part
        of those rows of `a`; columns < k of L hold the entries of `a` below the
        diagonal divided by the regularised pivot; and no such entry exceeds
        its pivot in magnitude (partial pivoting). */
    ghost predicate Finished(k: nat)
      requires Valid() && k <= n
      reads a, l, u
    {
      && (forall i, j :: 0 <= i < k && i <= j < n ==> u[i, j] == a[i, j])
      && (forall i, j :: 0 <= j < k && j < i < n ==>
            l[i, j] == Multiplier(a[i, j], u[j, j]) && Abs(a[i, j]) <= Abs(u[j, j]))
    }

    /** The factorisation state after k elimination steps. */
    ghost predicate Invariant(k: nat)
      requires Valid() && k <= n
      reads a, l, u, pi
    {
      UnitLower() && Upper() && IsPermutation(pi[..]) && Finished(k)
    }

    /** Column k of the working matrix. */
    ghost function Column(k: nat): (col: seq<real>)
      requires Valid() && k < n
      reads a
      ensures |col| == n && forall i :: 0 <= i < n ==> col[i] == a[i, k]
    {
      seq(n, i reads a requires 0 <= i < n => a[i, k])
    }

    /** The arrays hold exactly the snapshot `s`. */
    ghost predicate Agrees(s: Snapshot)
      requires Valid() && Shaped(s, n)
      reads a, l, u, pi
    {
      && pi[..] == s.pi
      && (forall i, j {:trigger s.a[i][j]} :: 0 <= i < n && 0 <= j < n ==> a[i, j] == s.a[i][j])
      && (forall i, j {:trigger s.l[i][j]} :: 0 <= i < n && 0 <= j < n ==> l[i, j] == s.l[i][j])
      && (forall i, j {:trigger s.u[i][j]} :: 0 <= i < n && 0 <= j < n ==> u[i, j] == s.u[i][j])
    }

    /** Allocation: `pi` zeroed, `u` and `l` from `initialise` with flags 1
        and 2, `p` zeroed. The matrix `a` belongs to the caller and is
        factored in place. */
    constructor (a: array2<real>, randomU: (int, int) -> real, randomL: (int, int) -> real)
      requires a.Length0 == a.Length1
      ensures Valid() && this.a == a && n == a.Length0
      ensures fresh(l) && fresh(u) && fresh(p) && fresh(pi)
      ensures forall i, j :: 0 <= i < n && 0 <= j < n ==>
        && u[i, j] == InitialEntry(1, 1, randomU, i, j)
        && l[i, j] == InitialEntry(2, 1, randomL, i, j)
        && p[i, j] == 0.0
      ensures UnitLower() && Upper()
    {
      var size := a.Length0;
      var piBuffer := new int[size](i => 0);
      var uBuffer := Initialise(size, 1, 1, randomU);
      var lBuffer := Initialise(size, 2, 1, randomL);
      var pBuffer := Initialise(size, 0, 0, (i, j) => 0.0);
      n, this.a, pi, u, l, p := size, a, piBuffer, uBuffer, lBuffer, pBuffer;
    }

    /** The loop that sets `pi` to the identity. */
    method InitPermutation()
      requires Valid()
      modifies pi
      ensures pi[..] == Identity(n)
    {
      for i := 0 to n
        invariant forall r :: 0 <= r < i ==> pi[r] == r
      {
        pi[i] := i;
      }
    }

    /** The pivot scan over column k, with `index` starting at k (see
        PivotAsWritten for the code's start at 0). */
    method FindPivot(k: nat) returns (index: nat, max: real)
      requires Valid() && k < n
      ensures Choice(max, index) == Pivot(Column(k), k)
    {
      ghost var col := Column(k);
      max, index := 0.0, k;
      for i := k to n
        invariant Choice(max, index) == Scan(col, k, i, k)
      {
        if max < Abs(a[i, k]) {
          max := Abs(a[i, k]);
          index := i;
        }
      }
    }

    /** The pivot scan as the code writes it, with `index` starting at 0. */
    method FindPivotAsWritten(k: nat) returns (index: nat, max: real)
      requires Valid() && k < n
      ensures Choice(max, index) == PivotAsWritten(Column(k), k)
    {
      ghost var col := Column(k);
      max, index := 0.0, 0;
      for i := k to n
        invariant Choice(max, index) == Scan(col, k, i, 0)
      {
        if max < Abs(a[i, k]) {
          max := Abs(a[i, k]);
          index := i;
        }
      }
    }

    /** The interchange: pi[k] and pi[index] swapped, rows k and index of `a`
        swapped over every column, and of `l` over columns [0, k). */
    method Interchange(k: nat, index: nat)
      requires Valid() && k < n && index < n
      modifies a, l, pi
      ensures pi[..] == Swap(old(pi[..]), k, index)
      ensures forall i, j :: 0 <= i < n && 0 <= j < n ==> a[i, j] == old(a[RowSwap(i, k, index), j])
      ensures forall i, j :: 0 <= i < n && 0 <= j < n ==>
        l[i, j] == if j < k then old(l[RowSwap(i, k, index), j]) else old(l[i, j])
    {
      var temp := pi[k];
      pi[k] := pi[index];
      pi[index] := temp;
      SwapRowPrefix(a, k, index, n);
      SwapRowPrefix(l, k, index, k);
    }

    /** Row k of U and column k of L: u[k][k..n) copied from `a`, and
        l[i][k] = a[i][k] / (u[k][k] + threshold) for i > k. */
    method Eliminate(k: nat)
      requires Valid() && k < n
      modifies l, u
      ensures forall i, j :: 0 <= i < n && 0 <= j < n ==>
        u[i, j] == if i == k && k <= j then a[k, j] else old(u[i, j])
      ensures forall i, j :: 0 <= i < n && 0 <= j < n ==>
        l[i, j] == if j == k && k < i then Multiplier(a[i, k], a[k, k]) else old(l[i, j])
    {
      u[k, k] := a[k, k];
      for i := k + 1 to n
        invariant u[k, k] == a[k, k]
        invariant forall r, c :: 0 <= r < n && 0 <= c < n ==>
          u[r, c] == if r == k && k <= c < i then a[k, c] else old(u[r, c])
        invariant forall r, c :: 0 <= r < n && 0 <= c < n ==>
          l[r, c] == if c == k && k < r < i then Multiplier(a[r, k], a[k, k]) else old(l[r, c])
      {
        l[i, k] := Multiplier(a[i, k], u[k, k]);
        u[k, i] := a[k, i];
      }
    }

    /** Steps one and two of elimination step k: the pivot search and the
        interchange. What the first k steps settled still holds, and the
        pivot now in row k is the largest in magnitude from row k down.
        Returns whether the column was all zero (where the code prints
        "singular matrix"). */
    method PivotStep(k: nat) returns (singular: bool, index: nat)
      requires Valid() && k < n && Invariant(k)
      modifies a, l, pi
      ensures k <= index < n && index == Pivot(old(Column(k)), k).index
      ensures pi[..] == Swap(old(pi[..]), k, index)
      ensures forall i, j :: 0 <= i < n && 0 <= j < n ==> a[i, j] == old(a[RowSwap(i, k, index), j])
      ensures forall i, j :: 0 <= i < n && 0 <= j < n ==>
        l[i, j] == if j < k then old(l[RowSwap(i, k, index), j]) else old(l[i, j])
      ensures Invariant(k)
      ensures forall i :: k <= i < n ==> Abs(a[i, k]) <= Abs(a[k, k])
      ensures singular <==> a[k, k] == 0.0
    {
      var max;
      index, max := FindPivot(k);
      PivotIsFirstMaximum(Column(k), k);
      singular := max == 0.0;
      ghost var pi0 := pi[..];
      Interchange(k, index);
      SwapIsPermutation(pi0, k, index);
    }

    /** Steps one to three of elimination step k: pivot search, interchange
        and the writes of U's row k and L's column k. */
    method PivotAndEliminate(k: nat) returns (singular: bool, index: nat)
      requires Valid() && k < n && Invariant(k)
      modifies a, l, u, pi
      ensures k <= index < n && index == Pivot(old(Column(k)), k).index
      ensures pi[..] == Swap(old(pi[..]), k, index)
      ensures forall i, j :: 0 <= i < n && 0 <= j < n ==> a[i, j] == old(a[RowSwap(i, k, index), j])
      ensures forall i, j :: 0 <= i < n && 0 <= j < n ==>
        l[i, j] == if j < k then old(l[RowSwap(i, k, index), j])
                   else if j == k && k < i then Multiplier(a[i, k], a[k, k])
                   else old(l[i, j])
      ensures forall i, j :: 0 <= i < n && 0 <= j < n ==>
        u[i, j] == if i == k && k <= j then a[k, j] else old(u[i, j])
      ensures Invariant(k + 1)
      ensures singular <==> u[k, k] == 0.0
      ensures forall i, j :: 0 <= i < n && 0 <= j < n && i != k ==> u[i, j] == old(u[i, j])
    {
      singular, index := PivotStep(k);
      Eliminate(k);
    }

    /** Entry (i, j) of the working matrix, `x` before the trailing update
        of step k, after it: less l[i][k]·u[k][j] inside the trailing block
        when `update` holds, and `x` otherwise. */
    function Updated(k: nat, update: bool, i: nat, j: nat, x: real): (r: real)
      requires Valid() && k < n && i < n && j < n
      reads l, u
      ensures !(update && k < i && k < j) ==> r == x
      ensures update && k < i && k < j && (l[i, k] == 0.0 || u[k, j] == 0.0) ==> r == x
    {
      if update && k < i && k < j then Reduce(x, l[i, k], u[k, j]) else x
    }

    /** The update of row i, columns (k, n): the body of one iteration of
        the row loop, and of one row of a worker. It writes no other cell and
        reads only row i of `a`, which no other iteration writes. */
    method UpdateRow(k: nat, i: nat)
      requires Valid() && k < n && i < n
      modifies a
      ensures forall r, c :: 0 <= r < n && 0 <= c < n ==>
        a[r, c] == if r == i && k < c then old(a[r, c]) - l[r, k] * u[k, c] else old(a[r, c])
    {
      for j := k + 1 to n
        invariant forall r, c :: 0 <= r < n && 0 <= c < n ==>
          a[r, c] == if r == i && k < c < j then old(a[r, c]) - l[r, k] * u[k, c] else old(a[r, c])
      {
        a[i, j] := a[i, j] - l[i, k] * u[k, j];
      }
    }

    /** One worker (`lu_computation_in_each_thread`): rows
        [begin + num·rank, begin + num·rank + num + remaining) of `a`, columns
        [begin, width), where `width` is the global N that main sets to n. */
    method RunWorker(rank: nat, numOfElements: nat, begin: nat, remaining: nat, width: int)
      requires Valid() && 0 < begin <= n && width == n
      requires begin + numOfElements * rank + numOfElements + remaining <= n
      modifies a
      ensures var first := begin + numOfElements * rank;
        var last := first + numOfElements + remaining;
        forall r, c :: 0 <= r < n && 0 <= c < n ==>
          a[r, c] == if first <= r < last && begin <= c then old(a[r, c]) - l[r, begin - 1] * u[begin - 1, c]
                     else old(a[r, c])
    {
      var k := begin - 1;
      var first := begin + numOfElements * rank;
      var last := first + numOfElements + remaining;
      for i := first to last
        invariant forall r, c :: 0 <= r < n && 0 <= c < n ==>
          a[r, c] == if first <= r < i && k < c then old(a[r, c]) - l[r, k] * u[k, c] else old(a[r, c])
      {
        UpdateRow(k, i);
      }
    }

    /** One pass of the creation loop: worker `rank` gets the quotient of the
        rows (k, n) and, when it is the last, the remainder, and updates
        exactly its own range of rows. */
    method LaunchWorker(k: nat, threads: int, rank: nat)
      requires Valid() && k < n && 0 < threads && rank < threads
      modifies a
      ensures forall i, j :: 0 <= i < n && 0 <= j < n ==>
        a[i, j] == if RangeBegin(n, k, threads, rank) <= i < RangeEnd(n, k, threads, rank) && k < j
                   then old(a[i, j]) - l[i, k] * u[k, j] else old(a[i, j])
    {
      var numOfElements := (n - k - 1) / threads;
      var remaining := 0;
      if rank == threads - 1 {
        remaining := (n - k - 1) - numOfElements * threads;
      }
      assert numOfElements == Quota(n, k, threads);
      assert remaining == Remaining(n, k, threads, rank);
      assert k + 1 + numOfElements * rank == RangeBegin(n, k, threads, rank);
      assert k + 1 + numOfElements * rank + numOfElements + remaining == RangeEnd(n, k, threads, rank);
      RangeInside(n, k, threads, rank);
      RunWorker(rank, numOfElements, k + 1, remaining, n);
    }

    /** The trailing update of the thread variant: T workers, run one after
        the other, each with the quotient of rows and the last with the
        remainder too. For every T > 0 the result is the same; with T <= 0
        no worker runs and `a` is left as it is. */
    method UpdateByWorkers(k: nat, threads: int)
      requires Valid() && k < n
      modifies a
      ensures forall i, j :: 0 <= i < n && 0 <= j < n ==> a[i, j] == Updated(k, 0 < threads, i, j, old(a[i, j]))
    {
      ghost var done := k + 1;
      var rank := 0;
      while rank < threads
        invariant 0 <= rank && (0 < threads ==> rank <= threads) && (threads <= 0 ==> rank == 0)
        invariant rank == 0 ==> done == k + 1
        invariant rank < threads ==> done == RangeBegin(n, k, threads, rank)
        invariant 0 < threads && rank == threads ==> done == n
        invariant k < done <= n
        invariant forall i, j :: 0 <= i < n && 0 <= j < n ==>
          a[i, j] == if k < i < done && k < j then old(a[i, j]) - l[i, k] * u[k, j] else old(a[i, j])
      {
        LaunchWorker(k, threads, rank);
        RangeInside(n, k, threads, rank);
        RangesAreConsecutive(n, k, threads, rank);
        done := RangeEnd(n, k, threads, rank);
        rank := rank + 1;
      }
      assert done == if 0 < threads then n else k + 1;
    }

    /** The trailing update of the directive-parallel variant: one loop over
        rows (k, n), each iteration updating its own row. */
    method UpdateByRows(k: nat)
      requires Valid() && k < n
      modifies a
      ensures forall i, j :: 0 <= i < n && 0 <= j < n ==> a[i, j] == Updated(k, true, i, j, old(a[i, j]))
    {
      for i := k + 1 to n
        invariant forall r, c :: 0 <= r < n && 0 <= c < n ==>
          a[r, c] == if k < r < i && k < c then old(a[r, c]) - l[r, k] * u[k, c] else old(a[r, c])
      {
        UpdateRow(k, i);
      }
    }

    /** The trailing update of step k writes only rows and columns beyond k,
        so what the first k + 1 steps settled is kept. */
    twostate lemma UpdateKeepsInvariant(k: nat)
      requires Valid() && k < n && old(Invariant(k + 1))
      requires unchanged(l, u, pi)
      requires forall i, j :: 0 <= i < n && 0 <= j < n && (i <= k || j <= k) ==> a[i, j] == old(a[i, j])
      ensures Invariant(k + 1)
    {
    }

    /** The arrays hold `t` when `t` is `s` after step k with pivot row
        `index`, and `pi`, L, U and the working matrix are what pivoting,
        eliminating and the trailing update (when `update` holds) made of `s`. */
    lemma AgreesWithStepped(s: Snapshot, t: Snapshot, k: nat, update: bool, index: nat)
      requires Valid() && Shaped(s, n) && Shaped(t, n) && k <= index < n
      requires Stepped(s, t, n, k, update, index)
      requires pi[..] == Swap(s.pi, k, index)
      requires forall i, j {:trigger l[i, j]} :: 0 <= i < n && 0 <= j < n ==>
        l[i, j] == if j < k then s.l[RowSwap(i, k, index)][j]
                   else if j == k && k < i then Multiplier(s.a[RowSwap(i, k, index)][k], s.a[index][k])
                   else s.l[i][j]
      requires forall i, j {:trigger u[i, j]} :: 0 <= i < n && 0 <= j < n ==>
        u[i, j] == if i == k && k <= j then s.a[index][j] else s.u[i][j]
      requires forall i, j {:trigger a[i, j]} :: 0 <= i < n && 0 <= j < n ==>
        a[i, j] == Updated(k, update, i, j, s.a[RowSwap(i, k, index)][j])
      ensures Agrees(t)
    {
      forall i, j | 0 <= i < n && 0 <= j < n
        ensures a[i, j] == t.a[i][j]
      {
        assert l[i, k] == t.l[i][k] && u[k, j] == t.u[k][j];
      }
    }

    /** The arrays hold the reference step k applied to `s` once `pi`, L, U
        and the working matrix are what pivoting row `index` of the search
        over column k, eliminating and the trailing update (when `update`
        holds) made of `s`. */
    lemma AgreesWithStep(s: Snapshot, k: nat, update: bool, index: nat)
      requires Valid() && Shaped(s, n) && k < n
      requires index == Pivot(ColumnOf(s.a, n, k), k).index
      requires pi[..] == Swap(s.pi, k, index)
      requires forall i, j {:trigger l[i, j]} :: 0 <= i < n && 0 <= j < n ==>
        l[i, j] == if j < k then s.l[RowSwap(i, k, index)][j]
                   else if j == k && k < i then Multiplier(s.a[RowSwap(i, k, index)][k], s.a[index][k])
                   else s.l[i][j]
      requires forall i, j {:trigger u[i, j]} :: 0 <= i < n && 0 <= j < n ==>
        u[i, j] == if i == k && k <= j then s.a[index][j] else s.u[i][j]
      requires forall i, j {:trigger a[i, j]} :: 0 <= i < n && 0 <= j < n ==>
        a[i, j] == Updated(k, update, i, j, s.a[RowSwap(i, k, index)][j])
      ensures Agrees(Step(s, n, k, update))
    {
      StepIsStepped(s, n, k, update);
      AgreesWithStepped(s, Step(s, n, k, update), k, update, index);
    }

    /** Elimination step k of the thread variant: pivoting, row k of U and
        column k of L, then the trailing update by T workers. The arrays go
        from holding `s` to holding the reference step applied to `s`. */
    method StepWithWorkers(k: nat, threads: int, ghost s: Snapshot, before: set<int>) returns (singular: set<int>)
      requires Valid() && k < n && Invariant(k)
      requires Shaped(s, n) && Agrees(s)
      requires forall j :: j in before <==> 0 <= j < k && u[j, j] == 0.0
      modifies a, l, u, pi
      ensures Agrees(Step(s, n, k, 0 < threads))
      ensures Invariant(k + 1)
      ensures forall j :: j in singular <==> 0 <= j < k + 1 && u[j, j] == 0.0
    {
      assert Column(k) == ColumnOf(s.a, n, k);
      var zero, index := PivotAndEliminate(k);
      singular := if zero then before + {k} else before;
      assert forall j :: j in singular <==> 0 <= j < k + 1 && u[j, j] == 0.0;
      forall i, j | 0 <= i < n && 0 <= j < n
        ensures a[i, j] == s.a[RowSwap(i, k, index)][j]
      {
      }
      label Eliminated:
      UpdateByWorkers(k, threads);
      UpdateKeepsInvariant@Eliminated(k);
      AgreesWithStep(s, k, 0 < threads, index);
    }

    /** Elimination step k of the directive-parallel variant: pivoting, row k
        of U and column k of L, then the trailing update row by row. */
    method StepByRows(k: nat, ghost s: Snapshot, before: set<int>) returns (singular: set<int>)
      requires Valid() && k < n && Invariant(k)
      requires Shaped(s, n) && Agrees(s)
      requires forall j :: j in before <==> 0 <= j < k && u[j, j] == 0.0
      modifies a, l, u, pi
      ensures Agrees(Step(s, n, k, true))
      ensures Invariant(k + 1)
      ensures forall j :: j in singular <==> 0 <= j < k + 1 && u[j, j] == 0.0
    {
      assert Column(k) == ColumnOf(s.a, n, k);
      var zero, index := PivotAndEliminate(k);
      singular := if zero then before + {k} else before;
      assert forall j :: j in singular <==> 0 <= j < k + 1 && u[j, j] == 0.0;
      forall i, j | 0 <= i < n && 0 <= j < n
        ensures a[i, j] == s.a[RowSwap(i, k, index)][j]
      {
      }
      label Eliminated:
      UpdateByRows(k);
      UpdateKeepsInvariant@Eliminated(k);
      AgreesWithStep(s, k, true, index);
    }

    /** After the loop: p[i][pi[i]] = 1 for every row i. */
    method BuildPermutationMatrix()
      requires Valid()
      requires forall i :: 0 <= i < n ==> 0 <= pi[i] < n
      requires forall i, j :: 0 <= i < n && 0 <= j < n ==> p[i, j] == 0.0
      modifies p
      ensures forall i, j :: 0 <= i < n && 0 <= j < n ==> p[i, j] == PermutationEntry(pi[..], i, j)
    {
      for i := 0 to n
        invariant forall r, c :: 0 <= r < n && 0 <= c < n ==>
          p[r, c] == if r < i then PermutationEntry(pi[..], r, c) else 0.0
      {
        p[i, pi[i]] := 1.0;
      }
    }

    /** The elimination loop of the thread variant: steps 0 to n-1 take the
        arrays from holding `start` to holding the n reference steps applied
        to it, with the trailing update when T > 0 and without it otherwise. */
    method EliminateWithThreads(threads: int, ghost start: Snapshot) returns (singular: set<int>)
      requires Valid() && Invariant(0)
      requires Shaped(start, n) && Agrees(start)
      modifies a, l, u, pi
      ensures Agrees(Run(start, n, n, 0 < threads))
      ensures Invariant(n)
      ensures forall k :: k in singular <==> 0 <= k < n && u[k, k] == 0.0
    {
      singular := {};
      for k := 0 to n
        invariant Agrees(Run(start, n, k, 0 < threads))
        invariant Invariant(k)
        invariant forall j :: j in singular <==> 0 <= j < k && u[j, j] == 0.0
      {
        singular := StepWithWorkers(k, threads, Run(start, n, k, 0 < threads), singular);
      }
    }

    /** The elimination loop of the directive-parallel variant. */
    method EliminateByRows(ghost start: Snapshot) returns (singular: set<int>)
      requires Valid() && Invariant(0)
      requires Shaped(start, n) && Agrees(start)
      modifies a, l, u, pi
      ensures Agrees(Run(start, n, n, true))
      ensures Invariant(n)
      ensures forall k :: k in singular <==> 0 <= k < n && u[k, k] == 0.0
    {
      singular := {};
      for k := 0 to n
        invariant Agrees(Run(start, n, k, true))
        invariant Invariant(k)
        invariant forall j :: j in singular <==> 0 <= j < k && u[j, j] == 0.0
      {
        singular := StepByRows(k, Run(start, n, k, true), singular);
      }
    }

    /** `LU_Decomposition` of the thread variant. Returns the steps at which
        "singular matrix" is printed. The final `a`, `l`, `u` and `pi` are the
        n reference steps applied to the input, with the trailing update
        when T > 0 and without it otherwise. */
    method DecomposeWithThreads(threads: int) returns (singular: set<int>)
      requires Valid() && UnitLower() && Upper()
      requires forall i, j :: 0 <= i < n && 0 <= j < n ==> p[i, j] == 0.0
      modifies a, l, u, p, pi
      ensures Agrees(Run(Snapshot(old(Rows(a)), old(Rows(l)), old(Rows(u)), Identity(n)), n, n, 0 < threads))
      ensures Invariant(n)
      ensures forall k :: k in singular <==> 0 <= k < n && u[k, k] == 0.0
      ensures forall i, j :: 0 <= i < n && 0 <= j < n ==> p[i, j] == PermutationEntry(pi[..], i, j)
    {
      InitPermutation();
      IdentityIsPermutation(n);
      singular := EliminateWithThreads(threads, Snapshot(old(Rows(a)), old(Rows(l)), old(Rows(u)), Identity(n)));
      BuildPermutationMatrix();
    }

    /** `LU_Decomposition` of the directive-parallel variant. */
    method DecomposeByRows() returns (singular: set<int>)
      requires Valid() && UnitLower() && Upper()
      requires forall i, j :: 0 <= i < n && 0 <= j < n ==> p[i, j] == 0.0
      modifies a, l, u, p, pi
      ensures Agrees(Run(Snapshot(old(Rows(a)), old(Rows(l)), old(Rows(u)), Identity(n)), n, n, true))
      ensures Invariant(n)
      ensures forall k :: k in singular <==> 0 <= k < n && u[k, k] == 0.0
      ensures forall i, j :: 0 <= i < n && 0 <= j < n ==> p[i, j] == PermutationEntry(pi[..], i, j)
    {
      InitPermutation();
      IdentityIsPermutation(n);
      singular := EliminateByRows(Snapshot(old(Rows(a)), old(Rows(l)), old(Rows(u)), Identity(n)));
      BuildPermutationMatrix();
    }
  }

  /** Step 0 on the 2×2 matrix [[1, 0], [0, 0]]: the pivot is row 0, so
      nothing moves; L's column 0 gets the multiplier 0 and column 1 of the
      working matrix stays zero. */
  method FirstStepOnExample() returns (f: Factorisation)
    ensures f.Valid() && f.n == 2 && fresh(f.a) && fresh(f.l) && fresh(f.pi)
    ensures f.l[0, 0] == 1.0 && f.l[1, 0] == 0.0 && f.a[0, 1] == 0.0 && f.a[1, 1] == 0.0
  {
    var a := new real[2, 2]((i, j) => if i == 0 && j == 0 then 1.0 else 0.0);
    var zero := (i: int, j: int) => 0.0;
    f := new Factorisation(a, zero, zero);
    assert f.l[0, 0] == 1.0 && f.a[0, 0] == 1.0 && f.a[0, 1] == 0.0 && f.a[1, 0] == 0.0 && f.a[1, 1] == 0.0;
    PivotIsFirstMaximum(f.Column(0), 0);
    var first, firstMax := f.FindPivot(0);
    assert first == 0;
    f.Interchange(0, first);
    assert f.l[0, 0] == 1.0 && f.a[0, 0] == 1.0 && f.a[0, 1] == 0.0 && f.a[1, 0] == 0.0 && f.a[1, 1] == 0.0;
    f.Eliminate(0);
    assert f.l[0, 0] == 1.0 && f.l[1, 0] == 0.0 && f.u[0, 1] == 0.0;
    f.UpdateByRows(0);
  }

  /** The pivot search as written, on the 2×2 matrix [[1, 0], [0, 0]]:
      after step 0, column 1 is zero below the diagonal, so at step 1 the
      search returns row 0, and the interchange moves L's finished entries:
      L ends with 0 on its diagonal and 1 below it. */
  method AsWrittenPivotBreaksUnitDiagonal() returns (f: Factorisation, index: nat)
    ensures f.Valid() && f.n == 2
    ensures index == 0 && f.l[0, 0] == 0.0 && f.l[1, 0] == 1.0
  {
    f := FirstStepOnExample();
    var max;
    index, max := f.FindPivotAsWritten(1);
    PivotAsWrittenLeavesRange(f.Column(1), 1);
    f.Interchange(1, index);
  }
}

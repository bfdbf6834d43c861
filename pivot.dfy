/** Partial pivoting: the scan of column k over rows [k, n) that picks the
    pivot row at each elimination step. */
module PivotSearch {
  import opened Arith

  /** The running maximum magnitude and the row it was seen in. */
  datatype Choice = Choice(max: real, index: int)

  /** The scan loop over rows [lo, hi) of a column: it starts from maximum 0
      and row `start`, and a row replaces the current choice only when its
      magnitude is strictly larger. */
  function Scan(col: seq<real>, lo: nat, hi: nat, start: int): (c: Choice)
    requires lo <= hi <= |col|
    ensures c.max >= 0.0
    ensures c.index == start || lo <= c.index < hi
    decreases hi
  {
    if hi == lo then Choice(0.0, start)
    else
      var c := Scan(col, lo, hi - 1, start);
      if c.max < Abs(col[hi - 1]) then Choice(Abs(col[hi - 1]), hi - 1) else c
  }

  /** The scan finds the first row of maximal magnitude; when every magnitude
      is zero it keeps `start`. */
  lemma {:induction false} ScanFindsFirstMaximum(col: seq<real>, lo: nat, hi: nat, start: int)
    requires lo <= hi <= |col|
    ensures var c := Scan(col, lo, hi, start);
      && c.max >= 0.0
      && (forall i :: lo <= i < hi ==> Abs(col[i]) <= c.max)
      && (c.max == 0.0 ==> c.index == start)
      && (c.max > 0.0 ==>
            && lo <= c.index < hi
            && Abs(col[c.index]) == c.max
            && forall i :: lo <= i < c.index ==> Abs(col[i]) < c.max)
  {
    if hi > lo {
      ScanFindsFirstMaximum(col, lo, hi - 1, start);
    }
  }

  /** The pivot search as written: `index` starts at 0, so an all-zero column
      below row k yields row 0 even when k > 0. Whenever the column is not
      zero from row k down, it agrees with the corrected search. */
  function PivotAsWritten(col: seq<real>, k: nat): (c: Choice)
    requires k < |col|
    ensures c.index == 0 || k <= c.index < |col|
    ensures c.max == Pivot(col, k).max
    ensures c.max > 0.0 ==> c.index == Pivot(col, k).index
  {
    ScanStartOnlyKeptForZero(col, k, |col|, 0, k);
    Scan(col, k, |col|, 0)
  }

  /** The pivot search with `index` starting at k, so it always names a row of [k, n). */
  function Pivot(col: seq<real>, k: nat): (c: Choice)
    requires k < |col|
    ensures k <= c.index < |col|
  {
    Scan(col, k, |col|, k)
  }

  /** The starting row matters only while every magnitude seen is zero: two
      scans from different starting rows find the same maximum, and the
      same row once that maximum is positive. */
  lemma {:induction false} ScanStartOnlyKeptForZero(col: seq<real>, lo: nat, hi: nat, s1: int, s2: int)
    requires lo <= hi <= |col|
    ensures Scan(col, lo, hi, s1).max == Scan(col, lo, hi, s2).max
    ensures Scan(col, lo, hi, s1).max > 0.0 ==> Scan(col, lo, hi, s1).index == Scan(col, lo, hi, s2).index
  {
    if hi > lo {
      ScanStartOnlyKeptForZero(col, lo, hi - 1, s1, s2);
    }
  }

  /** With an all-zero column below a row k > 0, the as-written search picks
      row 0, a row that an earlier step has already finished. */
  lemma PivotAsWrittenLeavesRange(col: seq<real>, k: nat)
    requires 0 < k < |col|
    requires forall i :: k <= i < |col| ==> col[i] == 0.0
    ensures PivotAsWritten(col, k).index == 0 < k
    ensures PivotAsWritten(col, k).max == 0.0
  {
    ScanFindsFirstMaximum(col, k, |col|, 0);
  }

  /** The corrected pivot lies in [k, n), has the largest magnitude there, is
      the first such row, and its magnitude is the reported maximum. */
  lemma PivotIsFirstMaximum(col: seq<real>, k: nat)
    requires k < |col|
    ensures var c := Pivot(col, k);
      && k <= c.index < |col|
      && c.max == Abs(col[c.index])
      && (forall i :: k <= i < |col| ==> Abs(col[i]) <= c.max)
      && (forall i :: k <= i < c.index ==> Abs(col[i]) < c.max)
      && (c.max == 0.0 <==> forall i :: k <= i < |col| ==> col[i] == 0.0)
  {
    ScanFindsFirstMaximum(col, k, |col|, k);
    var c := Pivot(col, k);
    if c.max == 0.0 {
      assert c.index == k;
    }
  }
}

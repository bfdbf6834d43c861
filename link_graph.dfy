/** The link graph that all three PageRank programs build with the same
    `add_edge`: `rows[to]` lists the nodes linking to `to`, and
    `num_outgoing[from]` counts the links leaving `from`. */
module LinkGraph {

  /** `alpha`, the damping factor. */
  const ALPHA: real := 0.85

  function Max(x: int, y: int): int {
    if x < y then y else x
  }

  /** Occurrences of v in one adjacency list. */
  function Count(s: seq<int>, v: int): nat {
    if s == [] then 0 else Count(s[..|s| - 1], v) + (if s[|s| - 1] == v then 1 else 0)
  }

  /** Occurrences of v across all adjacency lists. */
  function Occurrences(rows: seq<seq<int>>, v: int): nat {
    if rows == [] then 0 else Occurrences(rows[..|rows| - 1], v) + Count(rows[|rows| - 1], v)
  }

  lemma CountAppend(s: seq<int>, x: int, v: int)
    ensures Count(s + [x], v) == Count(s, v) + (if x == v then 1 else 0)
  {
    assert (s + [x])[..|s|] == s;
  }

  /** Slots added by a resize hold empty lists, so no count changes. */
  lemma {:induction false} OccurrencesWithEmptyTail(rows: seq<seq<int>>, m: nat, v: int)
    ensures Occurrences(rows + seq(m, _ => []), v) == Occurrences(rows, v)
  {
    if m > 0 {
      var longer := rows + seq(m, _ => []);
      assert longer[..|longer| - 1] == rows + seq(m - 1, _ => []);
      OccurrencesWithEmptyTail(rows, m - 1, v);
    } else {
      assert rows + seq(m, _ => []) == rows;
    }
  }

  /** Appending `from` to one list adds one occurrence of `from` and none of anything else. */
  lemma {:induction false} OccurrencesAfterPush(rows: seq<seq<int>>, to: nat, from: int, v: int)
    requires to < |rows|
    ensures Occurrences(rows[to := rows[to] + [from]], v) == Occurrences(rows, v) + (if v == from then 1 else 0)
  {
    var pushed := rows[to := rows[to] + [from]];
    var last := |rows| - 1;
    assert pushed[..last] == if to == last then rows[..last] else rows[..last][to := rows[to] + [from]];
    if to == last {
      CountAppend(rows[to], from, v);
    } else {
      OccurrencesAfterPush(rows[..last], to, from, v);
    }
  }

  /** A node listed nowhere has no occurrences. */
  lemma {:induction false} OccurrencesOfUnlisted(rows: seq<seq<int>>, v: int)
    requires forall t, e :: 0 <= t < |rows| && 0 <= e < |rows[t]| ==> rows[t][e] != v
    ensures Occurrences(rows, v) == 0
  {
    if rows != [] {
      OccurrencesOfUnlisted(rows[..|rows| - 1], v);
      CountOfUnlisted(rows[|rows| - 1], v);
    }
  }

  lemma {:induction false} CountOfUnlisted(s: seq<int>, v: int)
    requires forall e :: 0 <= e < |s| ==> s[e] != v
    ensures Count(s, v) == 0
  {
    if s != [] {
      CountOfUnlisted(s[..|s| - 1], v);
    }
  }

  /** `std::vector::resize(m, fill)`: keeps the first m entries and pads with `fill`. */
  function Resize<T>(s: seq<T>, m: nat, fill: T): (r: seq<T>)
    ensures |r| == m
    ensures forall i :: 0 <= i < m ==> r[i] == if i < |s| then s[i] else fill
  {
    if m <= |s| then s[..m] else s + seq(m - |s|, _ => fill)
  }

  /** What one in-link from a node with the given out-degree contributes:
      its old rank over its out-degree, and nothing when the out-degree is
      not positive, so no division by zero happens. */
  function Contribution(outDegree: int, rank: real): (r: real)
    ensures outDegree > 0 ==> r * outDegree as real == rank
    ensures outDegree <= 0 ==> r == 0.0
    ensures rank >= 0.0 ==> r >= 0.0
  {
    if outDegree > 0 then 1.0 / outDegree as real * rank else 0.0
  }

  /** The in-link sum over the list `ins`, accumulated left to right. */
  function InflowSum(ins: seq<int>, numOutgoing: seq<int>, oldPr: seq<real>): (r: real)
    requires forall e :: 0 <= e < |ins| ==> 0 <= ins[e] < |numOutgoing| && ins[e] < |oldPr|
    ensures (forall w :: 0 <= w < |oldPr| ==> oldPr[w] >= 0.0) ==> r >= 0.0
  {
    if ins == [] then 0.0
    else
      var last := ins[|ins| - 1];
      InflowSum(ins[..|ins| - 1], numOutgoing, oldPr) + Contribution(numOutgoing[last], oldPr[last])
  }

  /** The in-link loop shared by `gather` and the per-rank loop: for each
      in-link, 1/out-degree when the out-degree is positive (else 0) times
      the old rank, added up. */
  method AccumulateInflow(ins: seq<int>, numOutgoing: seq<int>, oldPr: seq<real>) returns (h: real)
    requires forall e :: 0 <= e < |ins| ==> 0 <= ins[e] < |numOutgoing| && ins[e] < |oldPr|
    ensures h == InflowSum(ins, numOutgoing, oldPr)
  {
    h := 0.0;
    for e := 0 to |ins|
      invariant h == InflowSum(ins[..e], numOutgoing, oldPr)
    {
      assert ins[..e + 1][..e] == ins[..e];
      var ci := ins[e];
      var hv := 0.0;
      if numOutgoing[ci] > 0 {
        hv := 1.0 / numOutgoing[ci] as real;
      }
      h := h + hv * oldPr[ci];
    }
    assert ins[..|ins|] == ins;
  }

  /** Sum of a sequence, left to right. */
  function Sum(s: seq<real>): real {
    if s == [] then 0.0 else Sum(s[..|s| - 1]) + s[|s| - 1]
  }

  /** The graph invariant on the two vectors: one slot per node in each,
      every listed node a valid index, and each out-degree equal to the
      node's occurrences across all in-link lists. */
  ghost predicate WellFormed(rows: seq<seq<int>>, numOutgoing: seq<int>) {
    && |rows| == |numOutgoing|
    && (forall t, e :: 0 <= t < |rows| && 0 <= e < |rows[t]| ==> 0 <= rows[t][e] < |rows|)
    && (forall v :: 0 <= v < |rows| ==> numOutgoing[v] == Occurrences(rows, v))
  }

  /** Growing both vectors with empty lists and zero counts keeps the invariant. */
  lemma GrowKeepsWellFormed(rows: seq<seq<int>>, numOutgoing: seq<int>, m: nat)
    requires WellFormed(rows, numOutgoing) && |rows| <= m
    ensures WellFormed(Resize(rows, m, []), Resize(numOutgoing, m, 0))
  {
    var grown := Resize(rows, m, []);
    assert grown == rows + seq(m - |rows|, _ => []);
    forall v | 0 <= v < m
      ensures Resize(numOutgoing, m, 0)[v] == Occurrences(grown, v)
    {
      OccurrencesWithEmptyTail(rows, m - |rows|, v);
      if v >= |rows| {
        OccurrencesOfUnlisted(rows, v);
      }
    }
  }

  /** Recording one link keeps the invariant. */
  lemma PushKeepsWellFormed(rows: seq<seq<int>>, numOutgoing: seq<int>, from: nat, to: nat)
    requires WellFormed(rows, numOutgoing) && from < |rows| && to < |rows|
    ensures WellFormed(rows[to := rows[to] + [from]], numOutgoing[from := numOutgoing[from] + 1])
  {
    var pushed, counted := rows[to := rows[to] + [from]], numOutgoing[from := numOutgoing[from] + 1];
    forall v | 0 <= v < |rows|
      ensures counted[v] == Occurrences(pushed, v)
    {
      OccurrencesAfterPush(rows, to, from, v);
    }
  }

  class Graph {
    var rows: seq<seq<int>>
    var numOutgoing: seq<int>

    ghost predicate Valid()
      reads this
    {
      WellFormed(rows, numOutgoing)
    }

    /** The two global vectors start empty. */
    constructor ()
      ensures Valid() && rows == [] && numOutgoing == []
    {
      rows, numOutgoing := [], [];
    }

    /** `add_edge(from, to)`: grow both vectors to cover max(from, to), then
        append `from` to `rows[to]` and count one more link out of `from`. */
    method AddEdge(from: int, to: int)
      requires Valid() && 0 <= from && 0 <= to
      modifies this
      ensures Valid()
      ensures |rows| == Max(old(|rows|), Max(from, to) + 1)
      ensures forall v :: 0 <= v < |rows| ==>
        rows[v] == (if v < old(|rows|) then old(rows[v]) else []) + (if v == to then [from] else [])
      ensures forall v :: 0 <= v < |rows| ==>
        numOutgoing[v] == (if v < old(|rows|) then old(numOutgoing[v]) else 0) + (if v == from then 1 else 0)
    {
      var maximumDimension := Max(from, to);
      if |rows| <= maximumDimension {
        maximumDimension := maximumDimension + 1;
        GrowKeepsWellFormed(rows, numOutgoing, maximumDimension);
        rows := Resize(rows, maximumDimension, []);
        if |numOutgoing| < maximumDimension {
          numOutgoing := Resize(numOutgoing, maximumDimension, 0);
        }
      }
      PushKeepsWellFormed(rows, numOutgoing, from, to);
      rows := rows[to := rows[to] + [from]];
      numOutgoing := numOutgoing[from := numOutgoing[from] + 1];
    }
  }
}

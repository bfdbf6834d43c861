/** The PageRank on the MR-MPI library (A3/mr-pr-mpi-base.cpp): map task
    `rank` of `num_processors` emits a contiguous block of node keys, and
    `gather` computes one node's damped in-link sum into `h_`. */
module MrMpiPageRank {
  import opened Arith
  import opened LinkGraph

  /** `sizeof(int)`: a 4-byte `int` is assumed. */
  const INT_BYTES: nat := 4

  /** `number_of_proc`: the keys each map task emits, at most num_rows, and
      all of them when there is one processor. The plain-MPI back end splits
      its keys among ranks by the same arithmetic, computed separately in its
      own source file (see MpiPageRank.ChunkSize). */
  function KeysPerTask(numRows: nat, numProcessors: nat): (q: nat)
    requires 0 < numProcessors
    ensures q <= numRows
    ensures numProcessors == 1 ==> q == numRows
  {
    DivisionIdentity(numRows, numProcessors);
    ScaleMonotone(1, numProcessors, numRows / numProcessors);
    numRows / numProcessors
  }

  /** The first key emitted by map task `rank`; task 0 starts at key 0. */
  function TaskBegin(numRows: nat, numProcessors: nat, rank: nat): (b: nat)
    requires 0 < numProcessors
    ensures rank == 0 ==> b == 0
  {
    rank * KeysPerTask(numRows, numProcessors)
  }

  /** One past the last key emitted by map task `rank`: every task's range
      holds exactly `number_of_proc` keys. */
  function TaskEnd(numRows: nat, numProcessors: nat, rank: nat): (e: nat)
    requires 0 < numProcessors
    ensures e == TaskBegin(numRows, numProcessors, rank) + KeysPerTask(numRows, numProcessors)
  {
    (rank + 1) * KeysPerTask(numRows, numProcessors)
  }

  /** Every task's keys are node indices: [rank·q, (rank+1)·q) lies inside
      [0, num_processors·q), which lies inside [0, num_rows). */
  lemma TaskKeysInBounds(numRows: nat, numProcessors: nat, rank: nat)
    requires 0 < numProcessors && rank < numProcessors
    ensures TaskEnd(numRows, numProcessors, rank) == TaskBegin(numRows, numProcessors, rank) + KeysPerTask(numRows, numProcessors)
    ensures TaskEnd(numRows, numProcessors, rank) <= numProcessors * KeysPerTask(numRows, numProcessors) <= numRows
  {
    var q := KeysPerTask(numRows, numProcessors);
    DivisionIdentity(numRows, numProcessors);
    assert (rank + 1) * q == rank * q + q;
    ScaleMonotone(rank + 1, numProcessors, q);
  }

  /** Distinct tasks emit disjoint key ranges. */
  lemma TaskKeysDisjoint(numRows: nat, numProcessors: nat, r1: nat, r2: nat)
    requires 0 < numProcessors && r1 < r2
    ensures TaskEnd(numRows, numProcessors, r1) <= TaskBegin(numRows, numProcessors, r2)
  {
    ScaleMonotone(r1 + 1, r2, KeysPerTask(numRows, numProcessors));
  }

  /** Keys from num_processors·q on are emitted by no task; there are
      num_rows mod num_processors of them. */
  lemma TrailingKeysNeverEmitted(numRows: nat, numProcessors: nat, key: int)
    requires 0 < numProcessors
    requires numProcessors * KeysPerTask(numRows, numProcessors) <= key
    ensures forall rank :: 0 <= rank < numProcessors ==> key >= TaskEnd(numRows, numProcessors, rank)
    ensures numRows - numProcessors * KeysPerTask(numRows, numProcessors) == numRows % numProcessors
  {
    DivisionIdentity(numRows, numProcessors);
    forall rank | 0 <= rank < numProcessors
      ensures key >= TaskEnd(numRows, numProcessors, rank)
    {
      TaskKeysInBounds(numRows, numProcessors, rank);
    }
  }

  /** One key-value pair added by the map task: the key and the byte length
      of its value, `rows[key].size()*sizeof(int)`. */
  datatype Pair = Pair(key: int, valueBytes: int)

  /** `maptask(rank)`: one pair per key of [rank·q, (rank+1)·q), in order. */
  method MapTask(g: Graph, numRows: nat, numProcessors: nat, rank: nat) returns (kv: seq<Pair>)
    requires numRows == |g.rows|
    requires 0 < numProcessors && rank < numProcessors
    ensures |kv| == KeysPerTask(numRows, numProcessors)
    ensures TaskBegin(numRows, numProcessors, rank) + |kv| == TaskEnd(numRows, numProcessors, rank) <= numRows
    ensures forall e :: 0 <= e < |kv| ==>
      var key := TaskBegin(numRows, numProcessors, rank) + e;
      kv[e] == Pair(key, INT_BYTES * |g.rows[key]|)
  {
    var first, last := TaskBegin(numRows, numProcessors, rank), TaskEnd(numRows, numProcessors, rank);
    TaskKeysInBounds(numRows, numProcessors, rank);
    var rows := g.rows;
    kv := [];
    for key := first to last
      invariant |kv| == key - first
      invariant forall e :: 0 <= e < |kv| ==> kv[e] == Pair(first + e, INT_BYTES * |rows[first + e]|)
    {
      var len := INT_BYTES * |rows[key]|;
      kv := kv + [Pair(key, len)];
    }
  }

  /** The calculation's state: `pr`, `old_pr`, the per-node sums `h_`, and
      whether MPI has been started. */
  class Ranking {
    const graph: Graph
    var pr: seq<real>
    var oldPr: seq<real>
    var h: seq<real>
    var numRows: nat
    var mpiStarted: bool

    constructor (graph: Graph)
      ensures this.graph == graph && pr == [] && oldPr == [] && h == [] && numRows == 0 && !mpiStarted
    {
      this.graph := graph;
      pr, oldPr, h, numRows, mpiStarted := [], [], [], 0, false;
    }

    /** The start of `pagerank_calculation`: with no rows it returns before
        any MPI or map-reduce work; otherwise `pr` gets a 1.0 per node, `h_`
        a 0.0 per node, `old_pr` a copy of `pr`, and MPI is started. */
    method BeginCalculation() returns (started: bool)
      modifies this
      ensures numRows == |graph.rows|
      ensures started <==> numRows != 0
      ensures !started ==> pr == old(pr) && oldPr == old(oldPr) && h == old(h) && mpiStarted == old(mpiStarted)
      ensures started ==> && pr == Resize(old(pr), numRows, 1.0) && h == Resize(old(h), numRows, 0.0)
                          && oldPr == pr && mpiStarted
    {
      numRows := |graph.rows|;
      if numRows == 0 {
        return false;
      }
      pr := Resize(pr, numRows, 1.0);
      h := Resize(h, numRows, 0.0);
      oldPr := pr;
      mpiStarted := true;
      started := true;
    }

    /** `gather` for node `key`: its in-link sum times alpha goes into
        `h_[key]` and nowhere else, and is also the value emitted. */
    method Gather(key: int) returns (emitted: real)
      requires graph.Valid() && |h| == |graph.rows| && |oldPr| == |graph.rows| && 0 <= key < |graph.rows|
      modifies this
      ensures pr == old(pr) && oldPr == old(oldPr) && numRows == old(numRows) && mpiStarted == old(mpiStarted)
      ensures graph.Valid()
      ensures h == old(h)[key := ALPHA * InflowSum(graph.rows[key], graph.numOutgoing, oldPr)]
      ensures emitted == h[key]
    {
      var sum := AccumulateInflow(graph.rows[key], graph.numOutgoing, oldPr);
      sum := sum * ALPHA;
      h := h[key := sum];
      emitted := sum;
    }
  }
}

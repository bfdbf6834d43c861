/** The PageRank on plain MPI (A3/mr-pr-mpi.cpp), as seen by one process:
    rank 0 fills the identity key table, MPI_Scatter hands rank r the chunk
    of `n_per_proc` keys starting at r·n_per_proc, each process recomputes
    the ranks of its own keys, and MPI_Gather collects the per-key
    differences at rank 0, which adds up the first `num_rows` of them. */
module MpiPageRank {
  import opened Arith
  import opened Permutations
  import opened LinkGraph

  /** `n_per_proc`: the keys each process receives, at most num_rows, and
      all of them when there is one process. This is the split of the MR-MPI
      map tasks (MrMpiPageRank.KeysPerTask), which that back end's source
      file computes separately; the chunk lemmas below mirror its task lemmas. */
  function ChunkSize(numRows: nat, size: nat): (q: nat)
    requires 0 < size
    ensures q <= numRows
    ensures size == 1 ==> q == numRows
  {
    DivisionIdentity(numRows, size);
    ScaleMonotone(1, size, numRows / size);
    numRows / size
  }

  /** The first key of process `rank`'s chunk; rank 0's starts at key 0. */
  function ChunkBegin(numRows: nat, size: nat, rank: nat): (b: nat)
    requires 0 < size
    ensures rank == 0 ==> b == 0
  {
    rank * ChunkSize(numRows, size)
  }

  /** One past the last key of process `rank`'s chunk: every chunk holds
      exactly `n_per_proc` keys. */
  function ChunkEnd(numRows: nat, size: nat, rank: nat): (e: nat)
    requires 0 < size
    ensures e == ChunkBegin(numRows, size, rank) + ChunkSize(numRows, size)
  {
    (rank + 1) * ChunkSize(numRows, size)
  }

  /** MPI_Scatter with `count` elements per process (section 5.6 of the
      MPI 3.1 standard): process `rank` receives the `count` elements of the
      root's send buffer that start at rank·count. */
  function Scatter<T>(sendbuf: seq<T>, count: nat, rank: nat): (r: seq<T>)
    requires (rank + 1) * count <= |sendbuf|
    ensures |r| == count
    ensures forall i :: 0 <= i < count ==> r[i] == sendbuf[rank * count + i]
  {
    sendbuf[rank * count..(rank + 1) * count]
  }

  /** Every process's chunk lies inside the key table, and the chunks stop
      at size·n_per_proc <= num_rows. */
  lemma ChunkInBounds(numRows: nat, size: nat, rank: nat)
    requires 0 < size && rank < size
    ensures ChunkEnd(numRows, size, rank) == ChunkBegin(numRows, size, rank) + ChunkSize(numRows, size)
    ensures ChunkEnd(numRows, size, rank) <= size * ChunkSize(numRows, size) <= numRows
  {
    var q := ChunkSize(numRows, size);
    DivisionIdentity(numRows, size);
    assert (rank + 1) * q == rank * q + q;
    ScaleMonotone(rank + 1, size, q);
  }

  /** Scattering the identity key table gives process `rank` exactly the
      keys of its chunk, in order. */
  lemma ScatteredKeys(numRows: nat, size: nat, rank: nat)
    requires 0 < size && rank < size
    ensures ChunkEnd(numRows, size, rank) <= numRows
    ensures var keys := Scatter(Identity(numRows), ChunkSize(numRows, size), rank);
      forall i :: 0 <= i < |keys| ==> keys[i] == ChunkBegin(numRows, size, rank) + i
  {
    ChunkInBounds(numRows, size, rank);
  }

  /** Distinct processes receive disjoint chunks of keys. */
  lemma ChunksDisjoint(numRows: nat, size: nat, r1: nat, r2: nat)
    requires 0 < size && r1 < r2
    ensures ChunkEnd(numRows, size, r1) <= ChunkBegin(numRows, size, r2)
  {
    ScaleMonotone(r1 + 1, r2, ChunkSize(numRows, size));
  }

  /** Every key below size·n_per_proc belongs to the chunk of process
      key / n_per_proc. */
  lemma ChunkOwner(numRows: nat, size: nat, key: nat)
    requires 0 < size && key < size * ChunkSize(numRows, size)
    ensures var owner := ChunkOf(numRows, size, key);
      owner < size && ChunkBegin(numRows, size, owner) <= key < ChunkEnd(numRows, size, owner)
  {
    var q := ChunkSize(numRows, size);
    assert 0 < q;
    var r := key / q;
    assert key == r * q + key % q;
  }

  /** The process whose chunk would hold `key`: key / n_per_proc. */
  function ChunkOf(numRows: nat, size: nat, key: nat): nat
    requires 0 < size
  {
    var q := ChunkSize(numRows, size);
    if q == 0 then 0 else key / q
  }

  /** The keys from size·n_per_proc on, num_rows mod size of them, lie in
      no process's chunk and are never recomputed. */
  lemma TrailingKeysUnprocessed(numRows: nat, size: nat, key: int)
    requires 0 < size && size * ChunkSize(numRows, size) <= key
    ensures numRows - size * ChunkSize(numRows, size) == numRows % size
    ensures forall rank :: 0 <= rank < size ==> key >= ChunkEnd(numRows, size, rank)
  {
    DivisionIdentity(numRows, size);
    forall rank | 0 <= rank < size
      ensures key >= ChunkEnd(numRows, size, rank)
    {
      ChunkInBounds(numRows, size, rank);
    }
  }

  /** The gathered blocks reach every one of the num_rows entries that the
      sum reads exactly when size divides num_rows. */
  lemma GatherCoversSumExactlyWhenDivisible(numRows: nat, size: nat)
    requires 0 < size
    ensures size * ChunkSize(numRows, size) <= numRows
    ensures size * ChunkSize(numRows, size) == numRows <==> numRows % size == 0
  {
    DivisionIdentity(numRows, size);
  }

  /** The blocks one after another, as MPI_Gather lays them out at the root. */
  function Concat(blocks: seq<seq<real>>): (r: seq<real>)
    ensures forall b, i {:trigger blocks[b][i] in r} :: 0 <= b < |blocks| && 0 <= i < |blocks[b]| ==> blocks[b][i] in r
  {
    if blocks == [] then []
    else
      var init, last := blocks[..|blocks| - 1], blocks[|blocks| - 1];
      var r := Concat(init) + last;
      assert forall b, i {:trigger blocks[b][i] in r} :: 0 <= b < |blocks| && 0 <= i < |blocks[b]| ==> blocks[b][i] in r by {
        forall b, i | 0 <= b < |blocks| && 0 <= i < |blocks[b]|
          ensures blocks[b][i] in r
        {
          if b < |init| {
            assert init[b][i] in Concat(init);
          } else {
            assert last[i] in last;
          }
        }
      }
      r
  }

  /** When every block holds `count` values, entry b·count + i of the
      gathered buffer is entry i of block b, which came from process b. */
  lemma {:induction false} ConcatIndex(blocks: seq<seq<real>>, count: nat, b: nat, i: nat)
    requires forall c :: 0 <= c < |blocks| ==> |blocks[c]| == count
    requires b < |blocks| && i < count
    ensures |Concat(blocks)| == |blocks| * count
    ensures b * count + i < |Concat(blocks)| && Concat(blocks)[b * count + i] == blocks[b][i]
  {
    var last := |blocks| - 1;
    ConcatLength(blocks[..last], count);
    assert |blocks[..last]| * count + count == |blocks| * count;
    if b < last {
      ConcatIndex(blocks[..last], count, b, i);
    } else {
      assert b * count == |blocks[..last]| * count;
    }
  }

  /** The blocks before block b, then block b, fit in the gathered buffer. */
  lemma {:induction false} ConcatPrefix(blocks: seq<seq<real>>, b: nat)
    requires b < |blocks|
    ensures |Concat(blocks[..b])| + |blocks[b]| <= |Concat(blocks)|
  {
    var last := |blocks| - 1;
    assert blocks[..last] == blocks[..|blocks| - 1];
    if b < last {
      ConcatPrefix(blocks[..last], b);
      assert blocks[..last][..b] == blocks[..b];
    } else {
      assert blocks[..b] == blocks[..last];
    }
  }

  lemma {:induction false} ConcatLength(blocks: seq<seq<real>>, count: nat)
    requires forall c :: 0 <= c < |blocks| ==> |blocks[c]| == count
    ensures |Concat(blocks)| == |blocks| * count
  {
    if blocks != [] {
      var init := blocks[..|blocks| - 1];
      ConcatLength(init, count);
      assert Concat(blocks) == Concat(init) + blocks[|blocks| - 1];
      assert |init| * count + count == |blocks| * count;
    }
  }

  /** The rank a process computes for node v: alpha times the in-link sum,
      plus the process's own `one_Av` and `one_Iv`. */
  function NewRank(g: Graph, v: nat, oldPr: seq<real>, oneAv: real, oneIv: real): (r: real)
    reads g
    requires g.Valid() && v < |g.rows| && |oldPr| == |g.rows|
    ensures (forall w :: 0 <= w < |oldPr| ==> oldPr[w] >= 0.0) ==> r >= oneAv + oneIv
  {
    ALPHA * InflowSum(g.rows[v], g.numOutgoing, oldPr) + oneAv + oneIv
  }

  /** One MPI process's copy of the calculation's state. Every process keeps
      its own `pr` and `old_pr`; only rank 0 fills `keys` and recomputes
      `one_Av` and `one_Iv`, and only rank 0's `d` receives the gather. */
  class Process {
    const graph: Graph
    const rank: nat
    const size: nat
    var pr: seq<real>
    var oldPr: seq<real>
    var oneAv: real
    var oneIv: real
    var keys: array<int>
    var d: array<real>
    var mpiStarted: bool

    constructor (graph: Graph, rank: nat, size: nat)
      requires rank < size
      ensures this.graph == graph && this.rank == rank && this.size == size
      ensures pr == [] && oldPr == [] && oneAv == 0.0 && oneIv == 0.0 && !mpiStarted
    {
      this.graph, this.rank, this.size := graph, rank, size;
      pr, oldPr, oneAv, oneIv := [], [], 0.0, 0.0;
      keys := new int[0];
      d := new real[0];
      mpiStarted := false;
    }

    /** The buffers and vectors of a started calculation: one slot per node. */
    ghost predicate Started()
      reads this, graph
    {
      && 0 < size && rank < size
      && graph.Valid()
      && keys.Length == d.Length == |pr| == |oldPr| == |graph.rows|
    }

    /** The start of `pagerank_calculation`: with no rows it returns before
        MPI is initialised; otherwise it allocates `keys` and `d`, gives
        every node rank 1.0, copies `pr` into `old_pr` and starts MPI. */
    method BeginCalculation() returns (started: bool)
      requires graph.Valid() && rank < size
      modifies this
      ensures started <==> |graph.rows| != 0
      ensures !started ==> pr == old(pr) && oldPr == old(oldPr) && mpiStarted == old(mpiStarted)
                           && keys == old(keys) && d == old(d)
      ensures started ==> && Started() && fresh(keys) && fresh(d)
                          && pr == Resize(old(pr), |graph.rows|, 1.0) && oldPr == pr && mpiStarted
      ensures oneAv == old(oneAv) && oneIv == old(oneIv)
    {
      var numRows := |graph.rows|;
      if numRows == 0 {
        return false;
      }
      keys := new int[numRows];
      d := new real[numRows];
      pr := Resize(pr, numRows, 1.0);
      oldPr := pr;
      mpiStarted := true;
      started := true;
    }

    /** Rank 0's loop over the nodes sets `keys[to] = to`, so the key table
        is the identity. */
    method FillKeys()
      requires Started()
      requires rank == 0
      modifies keys
      ensures keys[..] == Identity(|pr|)
    {
      for to := 0 to |pr|
        invariant forall i :: 0 <= i < to ==> keys[i] == i
      {
        keys[to] := to;
      }
    }

    /** The per-process loop over the scattered keys: each key's rank is
        recomputed from `old_pr` into `pr`, and its absolute change is the
        matching entry of `difference`. Nodes outside the chunk keep their
        rank, and `old_pr` is not touched. */
    method ProcessChunk(keysScattered: seq<int>) returns (difference: seq<real>)
      requires Started()
      requires forall i :: 0 <= i < |keysScattered| ==> 0 <= keysScattered[i] < |graph.rows|
      modifies this
      ensures Started() && keys == old(keys) && d == old(d)
      ensures oldPr == old(oldPr) && oneAv == old(oneAv) && oneIv == old(oneIv) && mpiStarted == old(mpiStarted)
      ensures |pr| == |old(pr)|
      ensures forall v :: 0 <= v < |pr| ==>
        pr[v] == if v in keysScattered then NewRank(graph, v, oldPr, oneAv, oneIv) else old(pr)[v]
      ensures |difference| == |keysScattered|
      ensures forall i :: 0 <= i < |keysScattered| ==>
        difference[i] == Abs(NewRank(graph, keysScattered[i], oldPr, oneAv, oneIv) - oldPr[keysScattered[i]])
    {
      ghost var previous, av, iv := oldPr, oneAv, oneIv;
      ghost var target := seq(|pr|, v requires 0 <= v < |graph.rows| && graph.Valid() && |previous| == |graph.rows| reads graph =>
        NewRank(graph, v, previous, av, iv));
      difference := [];
      for i := 0 to |keysScattered|
        invariant Started() && keys == old(keys) && d == old(d) && |pr| == |old(pr)|
        invariant oldPr == old(oldPr) && oneAv == old(oneAv) && oneIv == old(oneIv) && mpiStarted == old(mpiStarted)
        invariant forall v :: 0 <= v < |pr| ==> pr[v] == if v in keysScattered[..i] then target[v] else old(pr)[v]
        invariant |difference| == i
        invariant forall j :: 0 <= j < i ==> difference[j] == Abs(target[keysScattered[j]] - oldPr[keysScattered[j]])
      {
        var key := keysScattered[i];
        assert keysScattered[..i + 1] == keysScattered[..i] + [key];
        var h := AccumulateInflow(graph.rows[key], graph.numOutgoing, oldPr);
        h := h * ALPHA;
        pr := pr[key := h + oneAv + oneIv];
        assert pr[key] == target[key];
        difference := difference + [Abs(pr[key] - oldPr[key])];
      }
      assert keysScattered[..|keysScattered|] == keysScattered;
    }

    /** MPI_Gather at rank 0: block b, sent by process b, lands at
        d[b·n_per_proc ..], and the entries of `d` beyond size·n_per_proc
        keep whatever they held. */
    method GatherDifferences(blocks: seq<seq<real>>, count: nat)
      requires Started()
      requires rank == 0
      requires |blocks| == size && forall b :: 0 <= b < size ==> |blocks[b]| == count
      requires size * count <= d.Length
      modifies d
      ensures |Concat(blocks)| == size * count
      ensures forall j :: 0 <= j < size * count ==> d[j] == Concat(blocks)[j]
      ensures forall j :: size * count <= j < d.Length ==> d[j] == old(d[j])
    {
      ConcatLength(blocks, count);
      var pos := 0;
      for b := 0 to size
        invariant pos == |Concat(blocks[..b])| <= |Concat(blocks)|
        invariant forall j :: 0 <= j < pos ==> d[j] == Concat(blocks[..b])[j]
        invariant forall j :: pos <= j < d.Length ==> d[j] == old(d[j])
      {
        ConcatPrefix(blocks, b);
        assert blocks[..b + 1][..b] == blocks[..b];
        assert Concat(blocks[..b + 1]) == Concat(blocks[..b]) + blocks[b];
        CopyBlock(blocks[b], pos);
        forall j | pos <= j < pos + count
          ensures d[j] == Concat(blocks[..b + 1])[j]
        {
          assert d[pos + (j - pos)] == blocks[b][j - pos];
        }
        pos := pos + count;
      }
      assert blocks[..size] == blocks;
    }

    /** One block of the gather: `block` lands at d[pos ..], nothing else changes. */
    method CopyBlock(block: seq<real>, pos: nat)
      requires pos + |block| <= d.Length
      modifies d
      ensures forall m :: 0 <= m < |block| ==> d[pos + m] == block[m]
      ensures forall j :: 0 <= j < d.Length && !(pos <= j < pos + |block|) ==> d[j] == old(d[j])
    {
      for i := 0 to |block|
        invariant forall m :: 0 <= m < i ==> d[pos + m] == block[m]
        invariant forall j :: 0 <= j < d.Length && !(pos <= j < pos + i) ==> d[j] == old(d[j])
      {
        d[pos + i] := block[i];
      }
    }

    /** Rank 0's sum of the differences: `d[0]` through `d[num_rows - 1]`. */
    method SumDifferences() returns (diff: real)
      requires Started()
      requires rank == 0
      ensures diff == Sum(d[..|pr|])
    {
      diff := 0.0;
      for i := 0 to |pr|
        invariant diff == Sum(d[..i])
      {
        assert d[..i + 1][..i] == d[..i];
        diff := diff + d[i];
      }
    }
  }
}

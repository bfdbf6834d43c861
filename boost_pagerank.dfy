/** The map-reduce PageRank on the header-only map-reduce library
    (A3/mr-pr-cpp.cpp): the datasource that hands out node keys, the map
    task that emits one value per in-link, and the empty-graph guard at the
    start of the calculation. */
module BoostPageRank {
  import opened LinkGraph

  /** `datasource`: a counter of the keys handed out so far. */
  class Datasource {
    var sequence: int

    constructor ()
      ensures sequence == 0
    {
      sequence := 0;
    }

    /** `setup_key`: hands out the next key and reports whether it names a
        node, that is, lies below n. */
    method SetupKey(n: int) returns (key: int, more: bool)
      modifies this
      ensures key == old(sequence) && sequence == old(sequence) + 1
      ensures more <==> key < n
    {
      key := sequence;
      sequence := sequence + 1;
      more := key < n;
    }

    /** `get_data`: the in-link list of node `key`; always succeeds. */
    method GetData(g: Graph, key: int) returns (value: seq<int>, ok: bool)
      requires 0 <= key < |g.rows|
      ensures ok && value == g.rows[key]
    {
      value := g.rows[key];
      ok := true;
    }
  }

  /** A fresh datasource asked for keys until it refuses one hands out
      exactly the nodes 0, 1, …, n-1, in that order. */
  method DrainKeys(n: int) returns (keys: seq<int>)
    ensures |keys| == if n < 0 then 0 else n
    ensures forall i :: 0 <= i < |keys| ==> keys[i] == i
  {
    var source := new Datasource();
    keys := [];
    var key, more := source.SetupKey(n);
    while more
      invariant key == |keys| && source.sequence == key + 1
      invariant more <==> key < n
      invariant key <= if n < 0 then 0 else n
      invariant forall i :: 0 <= i < |keys| ==> keys[i] == i
      decreases n - key
    {
      keys := keys + [key];
      key, more := source.SetupKey(n);
    }
  }

  /** One intermediate pair emitted by the map task. */
  datatype Emit = Emit(key: int, value: real)

  /** `map_task` for node `key` with in-link list `value`: first 0.0, then
      one value per in-link, dividing by the in-link's out-degree only when
      that is positive. */
  method MapTask(g: Graph, key: int, value: seq<int>, oldPr: seq<real>) returns (emitted: seq<Emit>)
    requires g.Valid() && |oldPr| == |g.rows|
    requires forall e :: 0 <= e < |value| ==> 0 <= value[e] < |g.rows|
    ensures |emitted| == |value| + 1
    ensures forall e :: 0 <= e < |emitted| ==> emitted[e].key == key
    ensures emitted[0].value == 0.0
    ensures forall e :: 0 <= e < |value| ==>
      emitted[e + 1].value == Contribution(g.numOutgoing[value[e]], oldPr[value[e]])
  {
    emitted := [Emit(key, 0.0)];
    for e := 0 to |value|
      invariant |emitted| == e + 1
      invariant forall m :: 0 <= m < |emitted| ==> emitted[m].key == key
      invariant emitted[0].value == 0.0
      invariant forall m :: 0 <= m < e ==>
        emitted[m + 1].value == Contribution(g.numOutgoing[value[m]], oldPr[value[m]])
    {
      var ci := value[e];
      if g.numOutgoing[ci] > 0 {
        emitted := emitted + [Emit(key, 1.0 / g.numOutgoing[ci] as real * oldPr[ci])];
      } else {
        emitted := emitted + [Emit(key, 0.0)];
      }
    }
  }

  /** Skipping the leading 0.0, the values a map task emits add up to the
      node's in-link sum, the same quantity the MPI variants accumulate. */
  lemma {:induction false} EmitsAfterFirstSumToInflow(values: seq<real>, ins: seq<int>, numOutgoing: seq<int>, oldPr: seq<real>)
    requires forall e :: 0 <= e < |ins| ==> 0 <= ins[e] < |numOutgoing| && ins[e] < |oldPr|
    requires |values| == |ins| + 1
    requires forall e :: 0 <= e < |ins| ==> values[e + 1] == Contribution(numOutgoing[ins[e]], oldPr[ins[e]])
    ensures Sum(values[1..]) == InflowSum(ins, numOutgoing, oldPr)
  {
    if ins != [] {
      var m := |ins| - 1;
      EmitsAfterFirstSumToInflow(values[..m + 1], ins[..m], numOutgoing, oldPr);
      assert values[1..][..m] == values[..m + 1][1..];
    }
  }

  /** The calculation's own state: the rank vectors `pr` and `old_pr`. */
  class Ranking {
    const graph: Graph
    var pr: seq<real>
    var oldPr: seq<real>

    constructor (graph: Graph)
      ensures this.graph == graph && pr == [] && oldPr == []
    {
      this.graph := graph;
      pr, oldPr := [], [];
    }

    /** The start of `pagerank_calculation`: with no rows it returns at once
        and touches nothing; otherwise `pr` is resized to one rank of 1.0 per
        node and copied into `old_pr`. */
    method BeginCalculation() returns (started: bool)
      modifies this
      ensures started <==> |graph.rows| != 0
      ensures !started ==> pr == old(pr) && oldPr == old(oldPr)
      ensures started ==> pr == Resize(old(pr), |graph.rows|, 1.0) && oldPr == pr
    {
      var numRows := |graph.rows|;
      if numRows == 0 {
        return false;
      }
      pr := Resize(pr, numRows, 1.0);
      oldPr := pr;
      started := true;
    }
  }
}

/**
 * `initOrder(g)` (lib/order/init-order.js:18-83): the rank-DFS layering followed
 * by the alternating-layer aligner, as one method proved to compute
 * `Aligned(g, DfsLayering(g))`, and the properties of that result.
 */
module InitOrder {
  import opened Collections
  import opened Graphs
  import opened StableSort
  import opened RankDfs
  import opened Aligner

  /** Lines 19-43: the layering left in `layers` once `_.each(orderedVs, dfs)` returns. */
  method RankLayers(g: Graph) returns (layers: Layering)
    requires WellFormed(g)
    ensures layers == DfsLayering(g)
  {
    var t := new Traversal(g);
    var orderedVs := StartOrder(g);
    t.Each(orderedVs);
    layers := t.layers[..];
    ghost var trace := Trace(g);
    TraceUnfold(g);
    assert [] + trace == trace;
    assert layers == Pushed(g, trace);
    forall i | 0 <= i < |layers|
      ensures layers[i] == DfsLayering(g)[i]
    {
      PushedInRank(g, trace, i);
    }
  }

  /** Once one prefix of the `map` has thrown, every longer prefix throws the same error. */
  lemma {:induction false} AlignUpToErrStays(g: Graph, sorted: Layering, mid: int, m: nat, n: nat)
    requires m <= n <= |sorted|
    requires AlignUpTo(g, sorted, mid, m).Err?
    ensures AlignUpTo(g, sorted, mid, n) == AlignUpTo(g, sorted, mid, m)
    decreases n
  {
    if n > m {
      AlignUpToErrStays(g, sorted, mid, m, n - 1);
      var e := AlignUpTo(g, sorted, mid, n - 1).error;
      assert AlignUpTo(g, sorted, mid, n) == Err(e);
    }
  }

  /** One step of the `map`: a callback that returns extends the results by one. */
  lemma AlignUpToStep(g: Graph, sorted: Layering, mid: int, n: nat, prev: Layering, layer: seq<NodeId>)
    requires n < |sorted|
    requires AlignUpTo(g, sorted, mid, n) == Ok(prev)
    requires AlignAt(g, sorted, mid, n) == Ok(layer)
    ensures AlignUpTo(g, sorted, mid, n + 1) == Ok(prev + [layer])
  {
  }

  /** The callback of the `map` of lines 54-80 for the layer at index. */
  method AlignCallback(g: Graph, nodeSortedLayers: Layering, midLayerCount: int, index: int)
    returns (r: Result<seq<NodeId>, AlignError>)
    requires 0 <= index < |nodeSortedLayers|
    ensures r == AlignAt(g, nodeSortedLayers, midLayerCount, index)
  {
    var layer := nodeSortedLayers[index];
    if index % 2 == 0 {
      return Ok(layer);
    }
    var grouped;
    if index > midLayerCount {
      if index + 1 >= |nodeSortedLayers| {
        return Err(MissingLayer(index + 1));
      }
      grouped := SortProcesses(g, layer, nodeSortedLayers[index + 1], Target);
    } else {
      grouped := SortProcesses(g, layer, nodeSortedLayers[index - 1], Source);
    }
    match grouped
    case Err(e) =>
      return Err(e);
    case Ok(sortedProcesses) =>
      var otherProcesses := Filter(layer, NotIn(sortedProcesses));
      return Ok(sortedProcesses + otherProcesses);
  }

  /**
   * `initOrder(g)`: the aligned layering, or the TypeError it throws. With fewer
   * than two layers it is the DFS layering itself.
   */
  method InitOrder(g: Graph) returns (result: Result<Layering, AlignError>)
    requires WellFormed(g)
    ensures result == Aligned(g, DfsLayering(g))
    ensures LayerCount(g) <= 1 ==> result == Ok(DfsLayering(g))
  {
    var layers := RankLayers(g);
    var midLayerCount := |layers| / 2;
    if midLayerCount == 0 {
      return Ok(layers);
    }
    var nodeSortedLayers := NodeSorted(g, layers);
    var updatedLayers := [];
    for index := 0 to |nodeSortedLayers|
      invariant AlignUpTo(g, nodeSortedLayers, midLayerCount, index) == Ok(updatedLayers)
    {
      var aligned := AlignCallback(g, nodeSortedLayers, midLayerCount, index);
      match aligned
      case Err(e) =>
        AlignUpToErrStays(g, nodeSortedLayers, midLayerCount, index + 1, |layers|);
        return Err(e);
      case Ok(layer) =>
        AlignUpToStep(g, nodeSortedLayers, midLayerCount, index, updatedLayers, layer);
        updatedLayers := updatedLayers + [layer];
    }
    return Ok(updatedLayers);
  }

  /** Every process, a simple node on an odd rank, carries the edge it stands for. */
  ghost predicate ProcessesCarryEdges(g: Graph)
  {
    forall v :: IsSimple(g, v) && g.node(v).rank % 2 == 1 ==> g.node(v).edgeObj.Some?
  }

  /**
   * The result of `initOrder`: when it returns, it has one layer per rank, and each
   * layer holds exactly the simple nodes of that rank, once each, a permutation
   * of the DFS layer.
   */
  lemma InitOrderLayers(g: Graph)
    requires WellFormed(g)
    requires Aligned(g, DfsLayering(g)).Ok?
    ensures |Aligned(g, DfsLayering(g)).value| == LayerCount(g)
    ensures forall i, x :: 0 <= i < LayerCount(g) ==>
      (x in Aligned(g, DfsLayering(g)).value[i] <==> IsSimple(g, x) && g.node(x).rank == i)
    ensures forall i :: 0 <= i < LayerCount(g) ==>
      multiset(Aligned(g, DfsLayering(g)).value[i]) == multiset(DfsLayering(g)[i])
    ensures forall i :: 0 <= i < LayerCount(g) ==> Distinct(Aligned(g, DfsLayering(g)).value[i])
  {
    var layers := DfsLayering(g);
    AlignedPermutation(g, layers);
    var out := Aligned(g, layers).value;
    forall i, x | 0 <= i < LayerCount(g)
      ensures x in out[i] <==> IsSimple(g, x) && g.node(x).rank == i
    {
      assert x in out[i] <==> x in multiset(out[i]);
      assert x in layers[i] <==> x in multiset(layers[i]);
    }
  }

  /**
   * When every process carries its edge, `initOrder` throws exactly when the layer
   * count is even and at least 4, reading the layer past the last one.
   */
  lemma InitOrderThrows(g: Graph)
    requires WellFormed(g) && ProcessesCarryEdges(g)
    ensures Aligned(g, DfsLayering(g)).Err? <==> LayerCount(g) % 2 == 0 && LayerCount(g) >= 4
    ensures Aligned(g, DfsLayering(g)).Err? ==> Aligned(g, DfsLayering(g)).error == MissingLayer(LayerCount(g))
  {
    var layers := DfsLayering(g);
    AlignedErrors(g, layers);
  }
}

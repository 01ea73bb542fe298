/**
 * The alternating-layer aligner of `initOrder` (lib/order/init-order.js:45-82).
 *
 * Even-indexed layers hold graph nodes and are stably sorted by `order`.
 * Odd-indexed layers hold "processes", interaction nodes that stand for an edge
 * (`edgeObj`). Each odd layer is rebuilt against a sorted neighbouring reference
 * layer: first the processes whose edge ends at a reference node, grouped by
 * reference node in reference order, then all other processes in their order.
 * Past the middle layer the reference is the next layer, matched on the edge's
 * target `w`; elsewhere it is the previous layer, matched on its source `v`.
 */
module Aligner {
  import opened Collections
  import opened Graphs
  import opened StableSort

  /** One sequence of node ids per rank. */
  type Layering = seq<seq<NodeId>>

  /** The two ways the aligner throws a TypeError. */
  datatype AlignError =
    | /** `nodeSortedLayers[index]` is read past the end of the layering. */
      MissingLayer(index: int)
    | /** A process without an `edgeObj` is compared with a reference node. */
      MissingEdgeObj(process: NodeId)

  /** The sort key of the even layers: a node's `order`. */
  function OrderKey(g: Graph): NodeId -> int
  {
    v => g.node(v).order
  }

  /** Whether process p's edge ends, on `side`, at the reference node id. */
  function Claims(g: Graph, id: NodeId, side: Side): NodeId -> bool
  {
    p => Endpoint(g, p, side) == Some(id)
  }

  /** `layer.filter(p => g.node(p).edgeObj.w === id)` (or `.v`), without the crash. */
  function Claimed(g: Graph, layer: seq<NodeId>, id: NodeId, side: Side): (r: seq<NodeId>)
    ensures forall p :: p in r <==> p in layer && Endpoint(g, p, side) == Some(id)
  {
    Filter(layer, Claims(g, id, side))
  }

  /** The processes claimed by each reference node in turn, concatenated. */
  function Matched(g: Graph, layer: seq<NodeId>, ref: seq<NodeId>, side: Side): seq<NodeId>
    decreases |ref|
  {
    if ref == [] then []
    else Matched(g, layer, ref[..|ref| - 1], side) + Claimed(g, layer, ref[|ref| - 1], side)
  }

  /** Process p has an edge that ends, on `side`, at some node of ref. */
  predicate InRef(g: Graph, ref: seq<NodeId>, side: Side, p: NodeId)
  {
    Endpoint(g, p, side).Some? && Endpoint(g, p, side).value in ref
  }

  function InRefFn(g: Graph, ref: seq<NodeId>, side: Side): NodeId -> bool
  {
    p => InRef(g, ref, side, p)
  }

  function NotInRefFn(g: Graph, ref: seq<NodeId>, side: Side): NodeId -> bool
  {
    p => !InRef(g, ref, side, p)
  }

  function NotIn(m: seq<NodeId>): NodeId -> bool
  {
    p => p !in m
  }

  function In(m: seq<NodeId>): NodeId -> bool
  {
    p => p in m
  }

  /** The matched processes are exactly the processes whose edge ends at a reference node. */
  lemma {:induction false} MatchedMembers(g: Graph, layer: seq<NodeId>, ref: seq<NodeId>, side: Side)
    ensures forall p :: p in Matched(g, layer, ref, side) <==> p in layer && InRef(g, ref, side, p)
    decreases |ref|
  {
    if ref != [] {
      var init, last := ref[..|ref| - 1], ref[|ref| - 1];
      MatchedMembers(g, layer, init, side);
      assert ref == init + [last];
    }
  }

  /** Distinct processes matched against distinct reference nodes are matched once each. */
  lemma {:induction false} MatchedDistinct(g: Graph, layer: seq<NodeId>, ref: seq<NodeId>, side: Side)
    requires Distinct(layer) && Distinct(ref)
    ensures Distinct(Matched(g, layer, ref, side))
    decreases |ref|
  {
    if ref != [] {
      var init, last := ref[..|ref| - 1], ref[|ref| - 1];
      assert Distinct(init) by {
        forall i, j | 0 <= i < j < |init| ensures init[i] != init[j] {
          assert init[i] == ref[i] && init[j] == ref[j];
        }
      }
      assert last !in init;
      MatchedDistinct(g, layer, init, side);
      MatchedMembers(g, layer, init, side);
      FilterDistinct(layer, Claims(g, last, side));
      DistinctConcat(Matched(g, layer, init, side), Claimed(g, layer, last, side));
    }
  }

  /** The position of the first occurrence of id in ref, or |ref| when it does not occur. */
  function RefIndex(ref: seq<NodeId>, id: NodeId): (r: nat)
    ensures r <= |ref|
    ensures r < |ref| ==> ref[r] == id
    ensures forall j :: 0 <= j < r ==> ref[j] != id
    decreases |ref|
  {
    if ref == [] || ref[0] == id then 0
    else
      var r := 1 + RefIndex(ref[1..], id);
      assert forall j :: 1 <= j < r ==> ref[j] == ref[1..][j - 1];
      r
  }

  lemma RefIndexOf(ref: seq<NodeId>, j: int)
    requires Distinct(ref) && 0 <= j < |ref|
    ensures RefIndex(ref, ref[j]) == j
  {
  }

  /** The position in ref of the node a process's edge ends at; |ref| for the unmatched. */
  function PositionKey(g: Graph, ref: seq<NodeId>, side: Side): NodeId -> int
  {
    p => if InRef(g, ref, side, p) then RefIndex(ref, Endpoint(g, p, side).value) else |ref|
  }

  /** The processes claimed by the reference node at position j all have key j. */
  lemma ClaimedKeys(g: Graph, layer: seq<NodeId>, full: seq<NodeId>, side: Side, j: int)
    requires Distinct(full) && 0 <= j < |full|
    ensures forall p :: p in Claimed(g, layer, full[j], side) ==> PositionKey(g, full, side)(p) == j
  {
    RefIndexOf(full, j);
  }

  /** The processes matched against the first n reference nodes come in reference order. */
  lemma {:induction false} MatchedSorted(g: Graph, layer: seq<NodeId>, full: seq<NodeId>, n: nat, side: Side)
    requires Distinct(full) && n <= |full|
    ensures SortedBy(Matched(g, layer, full[..n], side), PositionKey(g, full, side))
    ensures forall p :: p in Matched(g, layer, full[..n], side) ==> PositionKey(g, full, side)(p) < n
    decreases n
  {
    if n > 0 {
      var key := PositionKey(g, full, side);
      assert full[..n][..n - 1] == full[..n - 1];
      MatchedSorted(g, layer, full, n - 1, side);
      var c := Claimed(g, layer, full[n - 1], side);
      ClaimedKeys(g, layer, full, side, n - 1);
      assert SortedBy(c, key) by {
        forall i, j | 0 <= i < j < |c| ensures key(c[i]) <= key(c[j]) {
          assert c[i] in c && c[j] in c;
        }
      }
      SortedConcat(Matched(g, layer, full[..n - 1], side), c, key);
    }
  }

  /** Among the processes matched against the first n reference nodes, those at position k are k's claim. */
  lemma {:induction false} MatchedWithKey(g: Graph, layer: seq<NodeId>, full: seq<NodeId>, n: nat, side: Side, k: int)
    requires Distinct(full) && n <= |full|
    ensures WithKey(Matched(g, layer, full[..n], side), PositionKey(g, full, side), k)
         == if 0 <= k < n then Claimed(g, layer, full[k], side) else []
    decreases n
  {
    var key := PositionKey(g, full, side);
    if n > 0 {
      assert full[..n][..n - 1] == full[..n - 1];
      MatchedWithKey(g, layer, full, n - 1, side, k);
      var c := Claimed(g, layer, full[n - 1], side);
      ClaimedKeys(g, layer, full, side, n - 1);
      FilterConcat(Matched(g, layer, full[..n - 1], side), c, HasKey(key, k));
      if k == n - 1 {
        FilterAll(c, HasKey(key, k));
      } else {
        FilterNone(c, HasKey(key, k));
      }
    }
  }

  /** Among the processes with a reference node, those at position k are k's claim. */
  lemma InRefWithKey(g: Graph, layer: seq<NodeId>, full: seq<NodeId>, side: Side, k: int)
    requires Distinct(full)
    ensures WithKey(Filter(layer, InRefFn(g, full, side)), PositionKey(g, full, side), k)
         == if 0 <= k < |full| then Claimed(g, layer, full[k], side) else []
  {
    var key := PositionKey(g, full, side);
    var inRef := Filter(layer, InRefFn(g, full, side));
    if 0 <= k < |full| {
      RefIndexOf(full, k);
      FilterFilter(layer, InRefFn(g, full, side), HasKey(key, k), Claims(g, full[k], side));
    } else {
      FilterNone(inRef, HasKey(key, k));
    }
  }

  /**
   * The grouping the `forEach` builds is the stable sort of the processes that have
   * a reference node by that node's position: groups follow the reference order and
   * each group keeps the layer's order.
   */
  lemma MatchedIsStableSort(g: Graph, layer: seq<NodeId>, ref: seq<NodeId>, side: Side)
    requires Distinct(ref)
    ensures Matched(g, layer, ref, side)
         == SortBy(Filter(layer, InRefFn(g, ref, side)), PositionKey(g, ref, side))
  {
    var key := PositionKey(g, ref, side);
    assert ref[..|ref|] == ref;
    MatchedSorted(g, layer, ref, |ref|, side);
    forall k
      ensures WithKey(Matched(g, layer, ref, side), key, k)
           == WithKey(Filter(layer, InRefFn(g, ref, side)), key, k)
    {
      MatchedWithKey(g, layer, ref, |ref|, side, k);
      InRefWithKey(g, layer, ref, side, k);
    }
    SortByCharacterized(Matched(g, layer, ref, side), Filter(layer, InRefFn(g, ref, side)), key);
  }

  /** The unmatched processes are those without a reference node, in layer order. */
  lemma UnmatchedWithoutRef(g: Graph, layer: seq<NodeId>, ref: seq<NodeId>, side: Side)
    ensures Filter(layer, NotIn(Matched(g, layer, ref, side))) == Filter(layer, NotInRefFn(g, ref, side))
  {
    MatchedMembers(g, layer, ref, side);
    FilterCongruent(layer, NotIn(Matched(g, layer, ref, side)), NotInRefFn(g, ref, side));
  }

  /** The first process of the layer without an `edgeObj`, if any. */
  function FirstMissingEdgeObj(g: Graph, layer: seq<NodeId>): (r: Option<NodeId>)
    ensures r.None? <==> forall p :: p in layer ==> g.node(p).edgeObj.Some?
    ensures r.Some? ==> exists i :: (0 <= i < |layer| && layer[i] == r.value
      && g.node(r.value).edgeObj.None?
      && forall j :: 0 <= j < i ==> g.node(layer[j]).edgeObj.Some?)
    decreases |layer|
  {
    if layer == [] then None
    else if g.node(layer[0]).edgeObj.None? then Some(layer[0])
    else
      var r := FirstMissingEdgeObj(g, layer[1..]);
      assert forall p :: p in layer ==> p == layer[0] || p in layer[1..];
      assert r.Some? ==> exists i :: (0 <= i < |layer| && layer[i] == r.value
        && g.node(r.value).edgeObj.None?
        && forall j :: 0 <= j < i ==> g.node(layer[j]).edgeObj.Some?) by {
        if r.Some? {
          var i :| 0 <= i < |layer[1..]| && layer[1..][i] == r.value
            && g.node(r.value).edgeObj.None?
            && forall j :: 0 <= j < i ==> g.node(layer[1..][j]).edgeObj.Some?;
          assert forall j :: 1 <= j < i + 1 ==> layer[j] == layer[1..][j - 1];
          assert layer[i + 1] == r.value;
        }
      }
      r
  }

  /**
   * `sortedProcesses` after the `forEach` of lines 58-64 or 66-72: the matched
   * processes, or the TypeError of the first comparison with a missing `edgeObj`.
   * No comparison happens when the reference layer is empty.
   */
  function GroupByReference(g: Graph, layer: seq<NodeId>, ref: seq<NodeId>, side: Side): (r: Result<seq<NodeId>, AlignError>)
    ensures r.Err? <==> ref != [] && exists p :: p in layer && g.node(p).edgeObj.None?
    ensures r.Err? ==> (r.error.MissingEdgeObj? && r.error.process in layer
      && g.node(r.error.process).edgeObj.None?)
  {
    if ref == [] then Ok([])
    else
      match FirstMissingEdgeObj(g, layer)
      case Some(p) => Err(MissingEdgeObj(p))
      case None => Ok(Matched(g, layer, ref, side))
  }

  /**
   * The `forEach` over the reference layer pushing, for each reference node, the
   * processes it claims.
   */
  method SortProcesses(g: Graph, layer: seq<NodeId>, ref: seq<NodeId>, side: Side) returns (r: Result<seq<NodeId>, AlignError>)
    ensures r == GroupByReference(g, layer, ref, side)
  {
    var sortedProcesses := [];
    for j := 0 to |ref|
      invariant sortedProcesses == Matched(g, layer, ref[..j], side)
      invariant j > 0 ==> FirstMissingEdgeObj(g, layer) == None
    {
      match FirstMissingEdgeObj(g, layer)
      case Some(p) =>
        return Err(MissingEdgeObj(p));
      case None =>
      assert ref[..j + 1][..j] == ref[..j];
      sortedProcesses := sortedProcesses + Claimed(g, layer, ref[j], side);
    }
    assert ref[..|ref|] == ref;
    return Ok(sortedProcesses);
  }

  /** Lines 56-77: one odd layer rebuilt as matched processes followed by the others. */
  function AlignLayer(g: Graph, layer: seq<NodeId>, ref: seq<NodeId>, side: Side): (r: Result<seq<NodeId>, AlignError>)
    ensures ref == [] ==> r.Ok?
    ensures r.Err? ==> (r.error.MissingEdgeObj? && r.error.process in layer
      && g.node(r.error.process).edgeObj.None?)
  {
    match GroupByReference(g, layer, ref, side)
    case Err(e) => Err(e)
    case Ok(m) => Ok(m + Filter(layer, NotIn(m)))
  }

  /**
   * The intended reordering of a process layer, stated without the `forEach`: the
   * processes with a reference node stably sorted by that node's position, then
   * the others in layer order.
   */
  function Reorder(g: Graph, layer: seq<NodeId>, ref: seq<NodeId>, side: Side): seq<NodeId>
  {
    SortBy(Filter(layer, InRefFn(g, ref, side)), PositionKey(g, ref, side))
      + Filter(layer, NotInRefFn(g, ref, side))
  }

  /** A rebuilt layer is the reordering, against a reference without repetitions. */
  lemma AlignLayerIsReorder(g: Graph, layer: seq<NodeId>, ref: seq<NodeId>, side: Side)
    requires Distinct(ref)
    requires AlignLayer(g, layer, ref, side).Ok?
    ensures AlignLayer(g, layer, ref, side).value == Reorder(g, layer, ref, side)
  {
    MatchedIsStableSort(g, layer, ref, side);
    UnmatchedWithoutRef(g, layer, ref, side);
  }

  /** A rebuilt layer is a permutation of the layer: no process is lost or repeated. */
  lemma AlignLayerPermutation(g: Graph, layer: seq<NodeId>, ref: seq<NodeId>, side: Side)
    requires Distinct(layer) && Distinct(ref)
    requires AlignLayer(g, layer, ref, side).Ok?
    ensures multiset(AlignLayer(g, layer, ref, side).value) == multiset(layer)
    ensures Distinct(AlignLayer(g, layer, ref, side).value)
  {
    var m := Matched(g, layer, ref, side);
    var u := Filter(layer, NotIn(m));
    MatchedDistinct(g, layer, ref, side);
    MatchedMembers(g, layer, ref, side);
    FilterSplit(layer, In(m), NotIn(m));
    FilterDistinct(layer, In(m));
    FilterDistinct(layer, NotIn(m));
    DistinctSameElems(m, Filter(layer, In(m)));
    DistinctConcat(m, u);
  }

  /** `nodeSortedLayers` (lines 48-53): even layers stably sorted by `order`. */
  function NodeSorted(g: Graph, layers: Layering): (r: Layering)
    ensures |r| == |layers|
  {
    seq(|layers|, i requires 0 <= i < |layers| =>
      if i % 2 == 0 then SortBy(layers[i], OrderKey(g)) else layers[i])
  }

  /** The callback of the `map` of lines 54-80 for the layer at index i. */
  function AlignAt(g: Graph, sorted: Layering, mid: int, i: int): (r: Result<seq<NodeId>, AlignError>)
    requires 0 <= i < |sorted|
    ensures r.Err? ==> i % 2 == 1
    ensures r.Err? && r.error.MissingLayer? ==> i > mid && i == |sorted| - 1 && r.error.index == |sorted|
  {
    if i % 2 == 0 then Ok(sorted[i])
    else if i > mid then
      if i + 1 < |sorted| then AlignLayer(g, sorted[i], sorted[i + 1], Target)
      else Err(MissingLayer(i + 1))
    else AlignLayer(g, sorted[i], sorted[i - 1], Source)
  }

  /**
   * The first n results of the `map`; the first callback that throws ends it
   * with its error.
   */
  function AlignUpTo(g: Graph, sorted: Layering, mid: int, n: nat): (r: Result<Layering, AlignError>)
    requires n <= |sorted|
    ensures r.Ok? ==> |r.value| == n
    decreases n
  {
    if n == 0 then Ok([])
    else
      match AlignUpTo(g, sorted, mid, n - 1)
      case Err(e) => Err(e)
      case Ok(prev) =>
        match AlignAt(g, sorted, mid, n - 1)
        case Err(e) => Err(e)
        case Ok(layer) => Ok(prev + [layer])
  }

  /**
   * The first n results of the `map` are there exactly when no callback among them
   * throws; otherwise the error is that of the first callback that throws.
   */
  lemma {:induction false} AlignUpToSpec(g: Graph, sorted: Layering, mid: int, n: nat)
    requires n <= |sorted|
    ensures AlignUpTo(g, sorted, mid, n).Ok? <==> forall i :: 0 <= i < n ==> AlignAt(g, sorted, mid, i).Ok?
    ensures AlignUpTo(g, sorted, mid, n).Ok? ==>
      forall i :: 0 <= i < n ==> AlignAt(g, sorted, mid, i) == Ok(AlignUpTo(g, sorted, mid, n).value[i])
    ensures AlignUpTo(g, sorted, mid, n).Err? ==> exists i :: (0 <= i < n
      && AlignAt(g, sorted, mid, i) == Err(AlignUpTo(g, sorted, mid, n).error)
      && forall j :: 0 <= j < i ==> AlignAt(g, sorted, mid, j).Ok?)
    decreases n
  {
    if n > 0 {
      AlignUpToSpec(g, sorted, mid, n - 1);
      var prev, last := AlignUpTo(g, sorted, mid, n - 1), AlignAt(g, sorted, mid, n - 1);
      if prev.Err? {
        assert AlignUpTo(g, sorted, mid, n) == prev;
        var i :| 0 <= i < n - 1 && AlignAt(g, sorted, mid, i) == Err(prev.error)
          && forall j :: 0 <= j < i ==> AlignAt(g, sorted, mid, j).Ok?;
      } else if last.Err? {
        assert AlignUpTo(g, sorted, mid, n) == Err(last.error);
      } else {
        var out := prev.value + [last.value];
        assert AlignUpTo(g, sorted, mid, n) == Ok(out);
        forall i | 0 <= i < n
          ensures AlignAt(g, sorted, mid, i) == Ok(out[i])
        {
          if i < n - 1 {
            assert out[i] == prev.value[i];
          }
        }
      }
    }
  }

  /** The layering `initOrder` returns given the DFS layering, or the error it throws. */
  function Aligned(g: Graph, layers: Layering): (r: Result<Layering, AlignError>)
    ensures r.Ok? ==> |r.value| == |layers|
  {
    var mid := |layers| / 2;
    if mid == 0 then Ok(layers)
    else AlignUpTo(g, NodeSorted(g, layers), mid, |layers|)
  }

  /** The reference layer of the odd layer i: the next one past the middle, else the previous one. */
  function ReferenceIndex(layers: Layering, i: int): int
  {
    if i > |layers| / 2 then i + 1 else i - 1
  }

  /** The end of a process's edge matched against the reference layer of layer i. */
  function SideAt(layers: Layering, i: int): Side
  {
    if i > |layers| / 2 then Target else Source
  }

  /**
   * When every process carries an `edgeObj`, the aligner throws exactly when the
   * layer count is even and at least 4: the last layer is then odd and past the
   * middle, and its reference index is the layer count.
   */
  lemma AlignedErrors(g: Graph, layers: Layering)
    requires forall i, p :: 0 <= i < |layers| && i % 2 == 1 && p in layers[i] ==> g.node(p).edgeObj.Some?
    ensures Aligned(g, layers).Err? <==> |layers| % 2 == 0 && |layers| >= 4
    ensures Aligned(g, layers).Err? ==> Aligned(g, layers).error == MissingLayer(|layers|)
  {
    var n, mid := |layers|, |layers| / 2;
    if mid > 0 {
      var sorted := NodeSorted(g, layers);
      assert Aligned(g, layers) == AlignUpTo(g, sorted, mid, n);
      AllButLastCarried(g, layers);
      OnlyLastThrows(g, sorted, mid, n);
      LastAlignAt(g, layers);
    }
  }

  /** The callback on the last layer throws exactly when the layer count is even and at least 4. */
  lemma LastAlignAt(g: Graph, layers: Layering)
    requires forall i, p :: 0 <= i < |layers| && i % 2 == 1 && p in layers[i] ==> g.node(p).edgeObj.Some?
    requires |layers| >= 2
    ensures AlignAt(g, NodeSorted(g, layers), |layers| / 2, |layers| - 1).Err?
        <==> |layers| % 2 == 0 && |layers| >= 4
    ensures AlignAt(g, NodeSorted(g, layers), |layers| / 2, |layers| - 1).Err?
        ==> AlignAt(g, NodeSorted(g, layers), |layers| / 2, |layers| - 1) == Err(MissingLayer(|layers|))
  {
    var n := |layers|;
    LastIndexArith(n);
    if !(n % 2 == 0 && n >= 4) {
      AlignAtCarried(g, layers, n - 1);
    }
  }

  lemma LastIndexArith(n: int)
    requires n >= 2
    ensures ((n - 1) % 2 == 1 && n - 1 > n / 2) <==> (n % 2 == 0 && n >= 4)
  {
    var q := n / 2;
    assert n == 2 * q + n % 2;
  }

  /** When every callback but the last returns, the `map` fails exactly as the last one does. */
  lemma OnlyLastThrows(g: Graph, sorted: Layering, mid: int, n: nat)
    requires 1 <= n <= |sorted|
    requires forall i :: 0 <= i < n - 1 ==> AlignAt(g, sorted, mid, i).Ok?
    ensures AlignUpTo(g, sorted, mid, n).Err? <==> AlignAt(g, sorted, mid, n - 1).Err?
    ensures AlignUpTo(g, sorted, mid, n).Err? ==> AlignAt(g, sorted, mid, n - 1) == Err(AlignUpTo(g, sorted, mid, n).error)
  {
    AlignUpToSpec(g, sorted, mid, n - 1);
  }

  lemma AllButLastCarried(g: Graph, layers: Layering)
    requires forall i, p :: 0 <= i < |layers| && i % 2 == 1 && p in layers[i] ==> g.node(p).edgeObj.Some?
    requires |layers| >= 2
    ensures forall i :: 0 <= i < |layers| - 1 ==> AlignAt(g, NodeSorted(g, layers), |layers| / 2, i).Ok?
  {
    forall i | 0 <= i < |layers| - 1
      ensures AlignAt(g, NodeSorted(g, layers), |layers| / 2, i).Ok?
    {
      AlignAtCarried(g, layers, i);
    }
  }

  /** The callback returns on every layer but an odd one whose reference index is past the end. */
  lemma AlignAtCarried(g: Graph, layers: Layering, i: int)
    requires forall i, p :: 0 <= i < |layers| && i % 2 == 1 && p in layers[i] ==> g.node(p).edgeObj.Some?
    requires |layers| >= 2 && 0 <= i < |layers|
    requires i % 2 == 0 || i <= |layers| / 2 || i + 1 < |layers|
    ensures AlignAt(g, NodeSorted(g, layers), |layers| / 2, i).Ok?
  {
    if i % 2 == 1 {
      var sorted := NodeSorted(g, layers);
      assert sorted[i] == layers[i];
      assert FirstMissingEdgeObj(g, sorted[i]) == None;
    }
  }

  /** Output layer i of the aligner is the callback's result for index i. */
  lemma AlignedAt(g: Graph, layers: Layering, i: int)
    requires Aligned(g, layers).Ok? && |layers| >= 2 && 0 <= i < |layers|
    ensures |Aligned(g, layers).value| == |layers|
    ensures AlignAt(g, NodeSorted(g, layers), |layers| / 2, i) == Ok(Aligned(g, layers).value[i])
  {
    AlignUpToSpec(g, NodeSorted(g, layers), |layers| / 2, |layers|);
  }

  /** Each output layer is a permutation of its DFS layer, and the layer count is kept. */
  lemma AlignedPermutation(g: Graph, layers: Layering)
    requires forall i :: 0 <= i < |layers| ==> Distinct(layers[i])
    requires Aligned(g, layers).Ok?
    ensures |Aligned(g, layers).value| == |layers|
    ensures forall i :: 0 <= i < |layers| ==> multiset(Aligned(g, layers).value[i]) == multiset(layers[i])
    ensures forall i :: 0 <= i < |layers| ==> Distinct(Aligned(g, layers).value[i])
  {
    var out := Aligned(g, layers).value;
    forall i | 0 <= i < |layers|
      ensures multiset(out[i]) == multiset(layers[i]) && Distinct(out[i])
    {
      AlignedLayerPermutation(g, layers, i);
    }
  }

  lemma NeighboursEven(i: int)
    requires i % 2 == 1
    ensures (i + 1) % 2 == 0 && (i - 1) % 2 == 0
  {
    var q := i / 2;
    assert i == 2 * q + 1;
    assert i + 1 == 2 * (q + 1) && i - 1 == 2 * q;
  }

  /** The callback for an odd index whose reference layer exists rebuilds it against that layer. */
  lemma AlignAtReference(g: Graph, sorted: Layering, mid: int, i: int)
    requires 0 <= i < |sorted| && i % 2 == 1
    requires i <= mid || i + 1 < |sorted|
    ensures AlignAt(g, sorted, mid, i)
         == if i > mid then AlignLayer(g, sorted[i], sorted[i + 1], Target)
            else AlignLayer(g, sorted[i], sorted[i - 1], Source)
  {
  }

  /**
   * The callback for an odd index whose reference layer exists realigns that layer
   * against the sorted layer the selection rule names, error results included.
   */
  lemma AlignAtOdd(g: Graph, layers: Layering, i: int)
    requires |layers| >= 2 && 0 <= i < |layers| && i % 2 == 1
    requires i <= |layers| / 2 || i + 1 < |layers|
    ensures 0 <= ReferenceIndex(layers, i) < |layers| && ReferenceIndex(layers, i) % 2 == 0
    ensures AlignAt(g, NodeSorted(g, layers), |layers| / 2, i)
         == AlignLayer(g, layers[i], SortBy(layers[ReferenceIndex(layers, i)], OrderKey(g)), SideAt(layers, i))
  {
    var sorted, mid := NodeSorted(g, layers), |layers| / 2;
    var r := ReferenceIndex(layers, i);
    NeighboursEven(i);
    AlignAtReference(g, sorted, mid, i);
    assert sorted[i] == layers[i];
    assert sorted[r] == SortBy(layers[r], OrderKey(g));
  }

  lemma AlignedLayerPermutation(g: Graph, layers: Layering, i: int)
    requires forall j :: 0 <= j < |layers| ==> Distinct(layers[j])
    requires Aligned(g, layers).Ok? && 0 <= i < |layers|
    ensures |Aligned(g, layers).value| == |layers|
    ensures multiset(Aligned(g, layers).value[i]) == multiset(layers[i])
    ensures Distinct(Aligned(g, layers).value[i])
  {
    if |layers| >= 2 {
      AlignedAt(g, layers, i);
      if i % 2 == 0 {
        SortByDistinct(layers[i], OrderKey(g));
      } else {
        AlignAtOdd(g, layers, i);
        var ref := SortBy(layers[ReferenceIndex(layers, i)], OrderKey(g));
        SortByDistinct(layers[ReferenceIndex(layers, i)], OrderKey(g));
        AlignLayerPermutation(g, layers[i], ref, SideAt(layers, i));
      }
    }
  }

  /** Each even output layer is its DFS layer stably sorted by `order`. */
  lemma AlignedEvenLayer(g: Graph, layers: Layering, i: int)
    requires Aligned(g, layers).Ok? && |layers| >= 2
    requires 0 <= i < |layers| && i % 2 == 0
    ensures |Aligned(g, layers).value| == |layers|
    ensures Aligned(g, layers).value[i] == SortBy(layers[i], OrderKey(g))
    ensures SortedBy(Aligned(g, layers).value[i], OrderKey(g))
    ensures forall k :: WithKey(Aligned(g, layers).value[i], OrderKey(g), k) == WithKey(layers[i], OrderKey(g), k)
  {
    var sorted := NodeSorted(g, layers);
    AlignedAt(g, layers, i);
    forall k ensures WithKey(SortBy(layers[i], OrderKey(g)), OrderKey(g), k) == WithKey(layers[i], OrderKey(g), k) {
      SortByStable(layers[i], OrderKey(g), k);
    }
  }

  /**
   * Each odd output layer is its DFS layer reordered against the sorted reference
   * layer the selection rule names: an even layer inside the layering.
   */
  lemma AlignedOddLayer(g: Graph, layers: Layering, i: int)
    requires forall j :: 0 <= j < |layers| ==> Distinct(layers[j])
    requires Aligned(g, layers).Ok? && |layers| >= 2
    requires 0 <= i < |layers| && i % 2 == 1
    ensures |Aligned(g, layers).value| == |layers|
    ensures 0 <= ReferenceIndex(layers, i) < |layers| && ReferenceIndex(layers, i) % 2 == 0
    ensures Aligned(g, layers).value[i]
         == Reorder(g, layers[i], SortBy(layers[ReferenceIndex(layers, i)], OrderKey(g)), SideAt(layers, i))
  {
    AlignedAt(g, layers, i);
    AlignAtOdd(g, layers, i);
    var r := ReferenceIndex(layers, i);
    SortByDistinct(layers[r], OrderKey(g));
    AlignLayerIsReorder(g, layers[i], SortBy(layers[r], OrderKey(g)), SideAt(layers, i));
  }
}

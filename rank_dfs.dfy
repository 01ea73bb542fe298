/**
 * The rank-DFS layering of `initOrder` (lib/order/init-order.js:19-43): the simple
 * nodes, taken in ascending rank, start a depth-first search over successors; a node
 * is appended to the layer of its rank when it is first visited.
 *
 * `Visit` and `VisitAll` give the visiting order as values; the class `Traversal`
 * is the closure state the source mutates (the `visited` map and the `layers`
 * arrays) and its method `Dfs` is the recursive `dfs`, proved to follow `Visit`.
 */
module RankDfs {
  import opened Collections
  import opened Graphs
  import opened StableSort

  /** The nodes `dfs(v)` appends, in order, when `vis` holds the visited nodes. */
  ghost function Visit(g: Graph, v: NodeId, vis: set<NodeId>): seq<NodeId>
    requires WellFormed(g) && IsSimple(g, v)
    decreases |SimpleSet(g) - vis|, 0
  {
    if v in vis then []
    else
      StrictSubsetCard(SimpleSet(g) - (vis + {v}), SimpleSet(g) - vis, v);
      [v] + VisitAll(g, g.successors(v), vis + {v})
  }

  /** The nodes appended by `dfs` applied to each of ss in turn, starting from `vis`. */
  ghost function VisitAll(g: Graph, ss: seq<NodeId>, vis: set<NodeId>): seq<NodeId>
    requires WellFormed(g) && forall s :: s in ss ==> IsSimple(g, s)
    decreases |SimpleSet(g) - vis|, |ss|
  {
    if ss == [] then []
    else
      var first := Visit(g, ss[0], vis);
      SubsetCard(SimpleSet(g) - (vis + Elems(first)), SimpleSet(g) - vis);
      first + VisitAll(g, ss[1..], vis + Elems(first))
  }

  /**
   * `dfs(v)` appends only simple nodes not yet visited, none twice, and appends
   * v itself first whenever v was not yet visited (pre-order).
   */
  lemma {:induction false} VisitSound(g: Graph, v: NodeId, vis: set<NodeId>)
    requires WellFormed(g) && IsSimple(g, v)
    ensures forall x :: x in Visit(g, v, vis) ==> IsSimple(g, x) && x !in vis
    ensures Distinct(Visit(g, v, vis))
    ensures v in vis <==> Visit(g, v, vis) == []
    ensures v !in vis ==> Visit(g, v, vis)[0] == v
    decreases |SimpleSet(g) - vis|, 0
  {
    if v !in vis {
      StrictSubsetCard(SimpleSet(g) - (vis + {v}), SimpleSet(g) - vis, v);
      var rest := VisitAll(g, g.successors(v), vis + {v});
      VisitAllSound(g, g.successors(v), vis + {v});
      DistinctConcat([v], rest);
    }
  }

  /**
   * `_.each(ss, dfs)` appends only simple nodes not yet visited, none twice, and
   * leaves every node of ss visited.
   */
  lemma {:induction false} VisitAllSound(g: Graph, ss: seq<NodeId>, vis: set<NodeId>)
    requires WellFormed(g) && forall s :: s in ss ==> IsSimple(g, s)
    ensures forall x :: x in VisitAll(g, ss, vis) ==> IsSimple(g, x) && x !in vis
    ensures Distinct(VisitAll(g, ss, vis))
    ensures forall s :: s in ss ==> s in vis || s in VisitAll(g, ss, vis)
    decreases |SimpleSet(g) - vis|, |ss|
  {
    if ss != [] {
      var first := Visit(g, ss[0], vis);
      VisitSound(g, ss[0], vis);
      SubsetCard(SimpleSet(g) - (vis + Elems(first)), SimpleSet(g) - vis);
      var rest := VisitAll(g, ss[1..], vis + Elems(first));
      VisitAllSound(g, ss[1..], vis + Elems(first));
      DistinctConcat(first, rest);
      assert forall s :: s in ss ==> s == ss[0] || s in ss[1..];
    }
  }

  /**
   * Once `dfs(v)` returns, every successor of a node it appended was already visited
   * or is appended by this call; completeness of the whole traversal is `Trace`.
   */
  lemma {:induction false} VisitClosed(g: Graph, v: NodeId, vis: set<NodeId>)
    requires WellFormed(g) && IsSimple(g, v)
    ensures forall x, s :: x in Visit(g, v, vis) && s in g.successors(x) ==> s in vis || s in Visit(g, v, vis)
    decreases |SimpleSet(g) - vis|, 0
  {
    if v !in vis {
      StrictSubsetCard(SimpleSet(g) - (vis + {v}), SimpleSet(g) - vis, v);
      VisitAllClosed(g, g.successors(v), vis + {v});
      VisitAllSound(g, g.successors(v), vis + {v});
    }
  }

  lemma {:induction false} VisitAllClosed(g: Graph, ss: seq<NodeId>, vis: set<NodeId>)
    requires WellFormed(g) && forall s :: s in ss ==> IsSimple(g, s)
    ensures forall x, s :: x in VisitAll(g, ss, vis) && s in g.successors(x) ==> s in vis || s in VisitAll(g, ss, vis)
    decreases |SimpleSet(g) - vis|, |ss|
  {
    if ss != [] {
      var first := Visit(g, ss[0], vis);
      VisitClosed(g, ss[0], vis);
      SubsetCard(SimpleSet(g) - (vis + Elems(first)), SimpleSet(g) - vis);
      VisitAllClosed(g, ss[1..], vis + Elems(first));
    }
  }

  /** The sort key of the start order: a node's rank. */
  function RankKey(g: Graph): NodeId -> int
  {
    v => g.node(v).rank
  }

  /** The DFS start order: the simple nodes stably sorted by rank. */
  function StartOrder(g: Graph): (r: seq<NodeId>)
    ensures SortedBy(r, RankKey(g))
    ensures multiset(r) == multiset(SimpleNodes(g))
    ensures forall k :: WithKey(r, RankKey(g), k) == WithKey(SimpleNodes(g), RankKey(g), k)
    ensures forall v :: v in r <==> IsSimple(g, v)
  {
    var key := RankKey(g);
    var r := SortBy(SimpleNodes(g), key);
    assert forall v :: v in r <==> IsSimple(g, v) by {
      forall v ensures v in r <==> IsSimple(g, v) {
        assert v in r <==> v in multiset(r);
        assert v in SimpleNodes(g) <==> v in multiset(SimpleNodes(g));
      }
    }
    forall k ensures WithKey(r, key, k) == WithKey(SimpleNodes(g), key, k) {
      SortByStable(SimpleNodes(g), key, k);
    }
    r
  }

  /** The order in which `initOrder` first visits the simple nodes. */
  ghost function Trace(g: Graph): (t: seq<NodeId>)
    requires WellFormed(g)
    ensures Distinct(t)
    ensures forall v :: v in t <==> IsSimple(g, v)
  {
    var starts := StartOrder(g);
    VisitAllSound(g, starts, {});
    VisitAll(g, starts, {})
  }

  lemma TraceUnfold(g: Graph)
    requires WellFormed(g)
    ensures Trace(g) == VisitAll(g, StartOrder(g), {})
  {
  }

  /** The nodes of t with rank i, in their order in t. */
  ghost function InRank(g: Graph, t: seq<NodeId>, i: int): seq<NodeId>
  {
    Filter(t, x => g.node(x).rank == i)
  }

  lemma InRankAppend(g: Graph, t: seq<NodeId>, v: NodeId, i: int)
    ensures InRank(g, t + [v], i) == InRank(g, t, i) + (if g.node(v).rank == i then [v] else [])
  {
    FilterConcat(t, [v], x => g.node(x).rank == i);
    assert Filter([v], x => g.node(x).rank == i) == (if g.node(v).rank == i then [v] else []) + Filter([], x => g.node(x).rank == i);
  }

  /**
   * The layers after pushing the nodes of t, in order, each onto the layer of its
   * rank, starting from one empty layer per rank.
   */
  ghost function Pushed(g: Graph, t: seq<NodeId>): (ls: seq<seq<NodeId>>)
    requires WellFormed(g)
    ensures |ls| == LayerCount(g)
    decreases |t|
  {
    if t == [] then seq(LayerCount(g), _ => [])
    else
      var ls := Pushed(g, t[..|t| - 1]);
      var v := t[|t| - 1];
      var r := g.node(v).rank;
      if 0 <= r < |ls| then ls[r := ls[r] + [v]] else ls
  }

  /** Pushing the nodes of t leaves in layer i exactly the nodes of t with rank i, in order. */
  lemma {:induction false} PushedInRank(g: Graph, t: seq<NodeId>, i: int)
    requires WellFormed(g) && forall x :: x in t ==> IsSimple(g, x)
    requires 0 <= i < LayerCount(g)
    ensures Pushed(g, t)[i] == InRank(g, t, i)
    decreases |t|
  {
    if t != [] {
      var init, v := t[..|t| - 1], t[|t| - 1];
      assert t == init + [v];
      PushedInRank(g, init, i);
      InRankAppend(g, init, v, i);
    }
  }

  /**
   * The layering the DFS builds: layer i holds the simple nodes of rank i in the
   * order they were first visited.
   */
  ghost function DfsLayering(g: Graph): (layers: seq<seq<NodeId>>)
    requires WellFormed(g)
    ensures |layers| == LayerCount(g)
    ensures forall i, x :: 0 <= i < |layers| ==> (x in layers[i] <==> IsSimple(g, x) && g.node(x).rank == i)
    ensures forall i :: 0 <= i < |layers| ==> Distinct(layers[i])
  {
    var t := Trace(g);
    var layers := seq(LayerCount(g), i => InRank(g, t, i));
    forall i | 0 <= i < |layers| ensures Distinct(layers[i]) {
      FilterDistinct(t, x => g.node(x).rank == i);
    }
    layers
  }

  lemma VisitAllUnfold(g: Graph, ss: seq<NodeId>, vis: set<NodeId>)
    requires WellFormed(g) && forall s :: s in ss ==> IsSimple(g, s)
    requires ss != []
    ensures VisitAll(g, ss, vis)
      == Visit(g, ss[0], vis) + VisitAll(g, ss[1..], vis + Elems(Visit(g, ss[0], vis)))
  {
  }

  lemma SeqAssoc(a: seq<NodeId>, b: seq<NodeId>, c: seq<NodeId>)
    ensures (a + b) + c == a + (b + c)
  {
  }

  /** The state `initOrder` shares with its inner `dfs`: `visited` and `layers`. */
  class Traversal {
    const g: Graph
    const layers: array<seq<NodeId>>
    var visited: set<NodeId>
    /** The nodes visited so far, in visiting order. */
    ghost var trace: seq<NodeId>

    ghost predicate Valid()
      reads this, layers
    {
      && WellFormed(g)
      && visited == Elems(trace)
      && layers[..] == Pushed(g, trace)
    }

    /** `visited = {}` and one empty layer per rank `0..maxRank`. */
    constructor (g: Graph)
      requires WellFormed(g)
      ensures Valid() && fresh(layers)
      ensures this.g == g && visited == {} && trace == []
      ensures layers[..] == seq(LayerCount(g), _ => [])
    {
      this.g := g;
      layers := new seq<NodeId>[LayerCount(g)](_ => []);
      visited := {};
      trace := [];
    }

    /** `visited[v] = true` and `layers[rank].push(v)`. */
    method Mark(v: NodeId)
      requires Valid() && IsSimple(g, v) && v !in visited
      modifies this, layers
      ensures Valid()
      ensures visited == old(visited) + {v} && trace == old(trace) + [v]
    {
      visited := visited + {v};
      var r := g.node(v).rank;
      assert (trace + [v])[..|trace|] == trace;
      layers[r] := layers[r] + [v];
      trace := trace + [v];
    }

    /** `dfs(v)`: appends the nodes `Visit` gives, each to the layer of its rank. */
    method Dfs(v: NodeId)
      requires Valid() && IsSimple(g, v)
      modifies this, layers
      ensures Valid()
      ensures trace == old(trace) + Visit(g, v, old(visited))
      decreases |SimpleSet(g) - visited|, 0
    {
      if v in visited {
        return;
      }
      Mark(v);
      StrictSubsetCard(SimpleSet(g) - visited, SimpleSet(g) - old(visited), v);
      ghost var mid := trace;
      ghost var rest := VisitAll(g, g.successors(v), visited);
      Each(g.successors(v));
      SeqAssoc(old(trace), [v], rest);
    }

    /** `_.each(ss, dfs)`: runs `dfs` on each of ss in order. */
    method Each(ss: seq<NodeId>)
      requires Valid() && forall s :: s in ss ==> IsSimple(g, s)
      modifies this, layers
      ensures Valid()
      ensures trace == old(trace) + VisitAll(g, ss, old(visited))
      decreases |SimpleSet(g) - visited|, 1
    {
      assert ss[0..] == ss;
      for i := 0 to |ss|
        invariant Valid()
        invariant old(visited) <= visited
        invariant trace + VisitAll(g, ss[i..], visited) == old(trace) + VisitAll(g, ss, old(visited))
      {
        SubsetCard(SimpleSet(g) - visited, SimpleSet(g) - old(visited));
        ghost var visitedBefore, traceBefore := visited, trace;
        ghost var step := Visit(g, ss[i], visited);
        VisitAllUnfold(g, ss[i..], visited);
        assert ss[i..][0] == ss[i] && ss[i..][1..] == ss[i + 1..];
        Dfs(ss[i]);
        ElemsConcat(traceBefore, step);
        SeqAssoc(traceBefore, step, VisitAll(g, ss[i + 1..], visited));
      }
    }
  }
}

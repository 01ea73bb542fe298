/**
 * The graph the ordering step reads. Only what `initOrder` consults is modelled:
 * the node enumeration, `children`, `successors` and each node's label with its
 * `rank`, `order` and optional `edgeObj`. The graph library's own storage is not
 * part of this model; its queries are the function fields of `Graph`.
 */
module Graphs {
  import opened Collections

  /** Node ids are the string keys the graph library uses. */
  type NodeId = string

  /** The edge an interaction node stands for: its source `v` and its target `w`. */
  datatype EdgeObj = EdgeObj(v: NodeId, w: NodeId)

  /** The attributes of a node label that the ordering step reads. */
  datatype Node = Node(rank: int, order: int, edgeObj: Option<EdgeObj>)

  /** `nodes()` in enumeration order, and the queries `children`, `successors` and `node`. */
  datatype Graph = Graph(
    nodes: seq<NodeId>,
    children: NodeId -> seq<NodeId>,
    successors: NodeId -> seq<NodeId>,
    node: NodeId -> Node)

  /** A simple node is a node of the graph without children. */
  predicate IsSimple(g: Graph, v: NodeId)
  {
    v in g.nodes && g.children(v) == []
  }

  ghost function SimpleSet(g: Graph): set<NodeId>
  {
    set v | v in g.nodes && IsSimple(g, v)
  }

  /**
   * What the traversal needs of its input: every simple node has a non-negative
   * rank, and the successors of a simple node are simple nodes (a compound
   * successor has no rank and a negative rank indexes no layer).
   */
  ghost predicate WellFormed(g: Graph)
  {
    && (forall v :: IsSimple(g, v) ==> g.node(v).rank >= 0)
    && (forall v, s :: IsSimple(g, v) && s in g.successors(v) ==> IsSimple(g, s))
  }

  /** The simple nodes, in the graph's enumeration order. */
  function SimpleNodes(g: Graph): (r: seq<NodeId>)
    ensures forall v :: v in r <==> IsSimple(g, v)
    ensures |r| <= |g.nodes|
  {
    Filter(g.nodes, v => g.children(v) == [])
  }

  /** The largest rank among the nodes vs. */
  function MaxRank(g: Graph, vs: seq<NodeId>): (m: int)
    requires |vs| > 0
    ensures forall v :: v in vs ==> g.node(v).rank <= m
    ensures exists i :: 0 <= i < |vs| && g.node(vs[i]).rank == m
    decreases |vs|
  {
    if |vs| == 1 then g.node(vs[0]).rank
    else
      var rest := MaxRank(g, vs[1..]);
      assert forall v :: v in vs ==> v == vs[0] || v in vs[1..];
      if g.node(vs[0]).rank >= rest then g.node(vs[0]).rank
      else
        var i :| 0 <= i < |vs[1..]| && g.node(vs[1..][i]).rank == rest;
        assert vs[i + 1] == vs[1..][i];
        rest
  }

  /**
   * The number of layers: one more than the largest rank of a simple node, and
   * none at all without simple nodes (`_.max` of no ranks is undefined, and the
   * range up to `undefined + 1` is empty).
   */
  function LayerCount(g: Graph): (n: nat)
    requires WellFormed(g)
    ensures n == 0 <==> forall v :: !IsSimple(g, v)
    ensures forall v :: IsSimple(g, v) ==> 0 <= g.node(v).rank < n
    ensures n > 0 ==> exists v :: IsSimple(g, v) && g.node(v).rank == n - 1
  {
    var simple := SimpleNodes(g);
    if simple == [] then 0
    else
      assert simple[0] in simple;
      var m := MaxRank(g, simple);
      var i :| 0 <= i < |simple| && g.node(simple[i]).rank == m;
      assert simple[i] in simple;
      m + 1
  }

  /** Which end of an interaction node's edge the alignment matches on. */
  datatype Side = Source | Target

  /** `edgeObj.v` or `edgeObj.w` of p, or None when p has no `edgeObj`. */
  function Endpoint(g: Graph, p: NodeId, side: Side): Option<NodeId>
  {
    match g.node(p).edgeObj
    case None => None
    case Some(e) => Some(if side == Source then e.v else e.w)
  }
}

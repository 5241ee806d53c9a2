/**
 The part of a networkx MultiDiGraph that the helpers build and read: the
 nodes in insertion order (adding a present node is a no-op) and the edges in
 insertion order, parallel edges kept. Node labels are integers.
 */
module Graphs {

  datatype Edge = Edge(src: int, dst: int)

  datatype Graph = Graph(nodes: seq<int>, edges: seq<Edge>)

  const EmptyGraph := Graph([], [])

  predicate Distinct(s: seq<int>)
  {
    forall i, j :: 0 <= i < j < |s| ==> s[i] != s[j]
  }

  /** Nodes are listed once, and every edge joins two listed nodes. */
  predicate Valid(g: Graph)
  {
    && Distinct(g.nodes)
    && forall e :: e in g.edges ==> e.src in g.nodes && e.dst in g.nodes
  }

  /** The node list after `add_node(x)`. */
  function AddNew(ns: seq<int>, x: int): seq<int>
  {
    if x in ns then ns else ns + [x]
  }

  /** The node list after adding each of `xs` in turn. */
  function AddAll(ns: seq<int>, xs: seq<int>): seq<int>
  {
    if xs == [] then ns else AddNew(AddAll(ns, xs[..|xs| - 1]), xs[|xs| - 1])
  }

  /** Each element of `xs` once, in order of first occurrence. */
  function FirstOccurrences(xs: seq<int>): seq<int>
  {
    AddAll([], xs)
  }

  lemma {:induction false} AddAllMembers(ns: seq<int>, xs: seq<int>)
    ensures forall x :: x in AddAll(ns, xs) <==> x in ns || x in xs
    ensures Distinct(ns) ==> Distinct(AddAll(ns, xs))
    ensures ns <= AddAll(ns, xs)
  {
    if xs != [] {
      var p := xs[..|xs| - 1];
      AddAllMembers(ns, p);
      assert xs == p + [xs[|xs| - 1]];
    }
  }

  lemma {:induction false} AddAllAppend(ns: seq<int>, xs: seq<int>, ys: seq<int>)
    ensures AddAll(ns, xs + ys) == AddAll(AddAll(ns, xs), ys)
  {
    if ys == [] {
      assert xs + ys == xs;
    } else {
      var p := ys[..|ys| - 1];
      AddAllAppend(ns, xs, p);
      assert (xs + ys)[..|xs + ys| - 1] == xs + p;
    }
  }

  /** The elements of a sequence, each once, in order of first occurrence. */
  lemma FirstOccurrencesFacts(xs: seq<int>)
    ensures forall x :: x in FirstOccurrences(xs) <==> x in xs
    ensures Distinct(FirstOccurrences(xs))
  {
    AddAllMembers([], xs);
  }

  /** `G.add_node(n)`. */
  function AddNode(g: Graph, n: int): (h: Graph)
    ensures h.edges == g.edges
    ensures h.nodes == AddNew(g.nodes, n)
    ensures n in h.nodes && forall x :: x in h.nodes <==> x == n || x in g.nodes
  {
    if n in g.nodes then g else Graph(g.nodes + [n], g.edges)
  }

  /** `G.add_edge(u, v)`: adds `u`, then `v`, then a new parallel edge. */
  function AddEdge(g: Graph, u: int, v: int): (h: Graph)
    ensures h.edges == g.edges + [Edge(u, v)]
    ensures h.nodes == AddNew(AddNew(g.nodes, u), v)
    ensures forall x :: x in h.nodes <==> x == u || x == v || x in g.nodes
  {
    var g' := AddNode(AddNode(g, u), v);
    Graph(g'.nodes, g.edges + [Edge(u, v)])
  }

  /** Adding a node to a valid graph keeps it valid. */
  lemma AddNodeValid(g: Graph, n: int)
    requires Valid(g)
    ensures Valid(AddNode(g, n))
  {
    if n !in g.nodes {
      var ns := g.nodes + [n];
      forall i, j | 0 <= i < j < |ns|
        ensures ns[i] != ns[j]
      {
        if j == |g.nodes| {
          assert ns[i] == g.nodes[i];
        }
      }
    }
  }

  /** Adding an edge to a valid graph keeps it valid: both endpoints become nodes. */
  lemma AddEdgeValid(g: Graph, u: int, v: int)
    requires Valid(g)
    ensures Valid(AddEdge(g, u, v))
  {
    AddNodeValid(g, u);
    AddNodeValid(AddNode(g, u), v);
    var h := AddEdge(g, u, v);
    forall e | e in h.edges
      ensures e.src in h.nodes && e.dst in h.nodes
    {
      if e in g.edges {
      } else {
        assert e == Edge(u, v);
      }
    }
  }

  /** `G.in_degree(v)`: the edges ending at `v`, parallel ones counted. */
  function InCount(es: seq<Edge>, v: int): nat
  {
    if es == [] then 0
    else InCount(es[..|es| - 1], v) + (if es[|es| - 1].dst == v then 1 else 0)
  }

  /** `G.out_degree(u)`: the edges starting at `u`, parallel ones counted. */
  function OutCount(es: seq<Edge>, u: int): nat
  {
    if es == [] then 0
    else OutCount(es[..|es| - 1], u) + (if es[|es| - 1].src == u then 1 else 0)
  }

  lemma CountsSnoc(es: seq<Edge>, e: Edge)
    ensures forall v :: InCount(es + [e], v) == InCount(es, v) + (if e.dst == v then 1 else 0)
    ensures forall u :: OutCount(es + [e], u) == OutCount(es, u) + (if e.src == u then 1 else 0)
  {
    assert (es + [e])[..|es|] == es;
  }
}

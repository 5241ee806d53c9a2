/**
 The sparse topology form: a connectivity map sends each node to a dict from
 each of its from-nodes to the list of connection states on that link. Every
 state in a list is one incoming connection, so two states on the same link
 are two parallel connections. Covers `get_node_degrees` and
 `connectivity_map_to_nx` of netomaton/utils.py.
 */
module Topology {
  import opened Dicts
  import opened Graphs

  /** from-node -> connection states: the incoming links of one node. */
  type Row<S> = Dict<int, seq<S>>

  type ConnectivityMap<S> = Dict<int, Row<S>>

  /** A degree table as the source returns it: node -> count. */
  type DegreeTable = Dict<int, int>

  // ---------------------------------------------------------------------------
  // Reference counts, stated entry by entry and independent of any dict update

  /** The number of connection states in a row. */
  function RowTotal<S>(row: Row<S>): nat
  {
    if row == [] then 0 else RowTotal(row[..|row| - 1]) + |row[|row| - 1].1|
  }

  /** The number of connection states in a row that come from `u`. */
  function RowFrom<S>(row: Row<S>, u: int): nat
  {
    if row == [] then 0
    else RowFrom(row[..|row| - 1], u) + (if row[|row| - 1].0 == u then |row[|row| - 1].1| else 0)
  }

  /** Connections into `v`: the states of every row listed under key `v`. */
  function InDegree<S>(cm: ConnectivityMap<S>, v: int): nat
  {
    if cm == [] then 0
    else InDegree(cm[..|cm| - 1], v) + (if cm[|cm| - 1].0 == v then RowTotal(cm[|cm| - 1].1) else 0)
  }

  /** Connections out of `u`: the states from `u` in every row. */
  function OutDegree<S>(cm: ConnectivityMap<S>, u: int): nat
  {
    if cm == [] then 0 else OutDegree(cm[..|cm| - 1], u) + RowFrom(cm[|cm| - 1].1, u)
  }

  /** Connections from `u` into `v`. */
  function Links<S>(cm: ConnectivityMap<S>, u: int, v: int): nat
  {
    if cm == [] then 0
    else Links(cm[..|cm| - 1], u, v) + (if cm[|cm| - 1].0 == v then RowFrom(cm[|cm| - 1].1, u) else 0)
  }

  /** All connections in the map. */
  function Total<S>(cm: ConnectivityMap<S>): nat
  {
    if cm == [] then 0 else Total(cm[..|cm| - 1]) + RowTotal(cm[|cm| - 1].1)
  }

  /** Every from-node of every row, whether or not its state list is empty. */
  function Sources<S>(cm: ConnectivityMap<S>): seq<int>
  {
    if cm == [] then [] else Sources(cm[..|cm| - 1]) + Keys(cm[|cm| - 1].1)
  }

  // ---------------------------------------------------------------------------
  // get_node_degrees

  /**
   The inner loop over one row `v` of key `k`: each from-node `k2` gets its
   out-degree entry created if missing, and `len(v[k2])` is added both to it
   and to the in-degree of `k`.
   */
  function RowDegrees<S>(inDeg: DegreeTable, outDeg: DegreeTable, k: int, row: Row<S>)
    : (r: (DegreeTable, DegreeTable))
    requires k in Keys(inDeg)
    ensures Keys(r.0) == Keys(inDeg)
    ensures Get(r.0, k, 0) == Get(inDeg, k, 0) + RowTotal(row)
    ensures forall x :: x != k ==> Get(r.0, x, 0) == Get(inDeg, x, 0)
    ensures forall x :: x in Keys(r.1) <==> x in Keys(outDeg) || x in Keys(row)
    ensures forall x :: Get(r.1, x, 0) == Get(outDeg, x, 0) + RowFrom(row, x)
    ensures Sum(r.0) == Sum(inDeg) + RowTotal(row)
    ensures Sum(r.1) == Sum(outDeg) + RowTotal(row)
    ensures DistinctKeys(inDeg) ==> DistinctKeys(r.0)
    ensures DistinctKeys(outDeg) ==> DistinctKeys(r.1)
  {
    if row == [] then (inDeg, outDeg)
    else
      var p := RowDegrees(inDeg, outDeg, k, row[..|row| - 1]);
      var u := row[|row| - 1].0;
      var n := |row[|row| - 1].1|;
      KeysSnoc(row);
      (Bump(p.0, k, n), Bump(p.1, u, n))
  }

  /**
   `get_node_degrees`: the in-degree and out-degree tables. Every key of the
   map has an in-degree entry, 0 when nothing flows in; an out-degree entry
   exists exactly for the from-nodes. Parallel connections are counted, and
   both tables add up to the number of connections in the map.
   */
  function NodeDegrees<S>(cm: ConnectivityMap<S>): (r: (DegreeTable, DegreeTable))
    ensures forall k :: k in Keys(r.0) <==> k in Keys(cm)
    ensures forall k :: Get(r.0, k, 0) == InDegree(cm, k)
    ensures forall k :: k in Keys(r.1) <==> k in Sources(cm)
    ensures forall k :: Get(r.1, k, 0) == OutDegree(cm, k)
    ensures Sum(r.0) == Total(cm) && Sum(r.1) == Total(cm)
    ensures DistinctKeys(r.0) && DistinctKeys(r.1)
  {
    if cm == [] then ([], [])
    else
      var p := NodeDegrees(cm[..|cm| - 1]);
      var k := cm[|cm| - 1].0;
      MapSnoc(cm);
      RowDegrees(Bump(p.0, k, 0), p.1, k, cm[|cm| - 1].1)
  }

  /** The last row of a non-empty map and what it adds to the reference counts. */
  lemma MapSnoc<S>(cm: ConnectivityMap<S>)
    requires cm != []
    ensures Keys(cm) == Keys(cm[..|cm| - 1]) + [cm[|cm| - 1].0]
    ensures Sources(cm) == Sources(cm[..|cm| - 1]) + Keys(cm[|cm| - 1].1)
    ensures Total(cm) == Total(cm[..|cm| - 1]) + RowTotal(cm[|cm| - 1].1)
    ensures forall v :: InDegree(cm, v) == InDegree(cm[..|cm| - 1], v)
                        + (if cm[|cm| - 1].0 == v then RowTotal(cm[|cm| - 1].1) else 0)
    ensures forall u :: OutDegree(cm, u) == OutDegree(cm[..|cm| - 1], u) + RowFrom(cm[|cm| - 1].1, u)
  {
    KeysSnoc(cm);
  }

  /**
   The sum of all in-degrees equals the sum of all out-degrees, since every
   connection is added to both tables.
   */
  lemma DegreeSumsAgree<S>(cm: ConnectivityMap<S>)
    ensures Sum(NodeDegrees(cm).0) == Sum(NodeDegrees(cm).1)
  {
  }

  // ---------------------------------------------------------------------------
  // connectivity_map_to_nx

  /** `for _ in connection_state: G.add_edge(u, v)`. */
  function AddParallel<S>(g: Graph, u: int, v: int, states: seq<S>): Graph
  {
    if states == [] then g else AddEdge(AddParallel(g, u, v, states[..|states| - 1]), u, v)
  }

  /** Once `v` is a node, the edges add `u` as a node if there is at least one. */
  lemma {:induction false} AddParallelNodes<S>(g: Graph, u: int, v: int, states: seq<S>)
    requires v in g.nodes
    ensures forall x :: x in AddParallel(g, u, v, states).nodes <==> x in g.nodes || (states != [] && x == u)
  {
    if states != [] {
      AddParallelNodes(g, u, v, states[..|states| - 1]);
    }
  }

  /** One edge u -> v per state, and no other edge. */
  lemma {:induction false} AddParallelEdges<S>(g: Graph, u: int, v: int, states: seq<S>)
    ensures |AddParallel(g, u, v, states).edges| == |g.edges| + |states|
    ensures forall a, b :: multiset(AddParallel(g, u, v, states).edges)[Edge(a, b)]
                           == multiset(g.edges)[Edge(a, b)] + (if a == u && b == v then |states| else 0)
  {
    if states != [] {
      var e := Edge(u, v);
      var p := AddParallel(g, u, v, states[..|states| - 1]).edges;
      var h := AddParallel(g, u, v, states).edges;
      AddParallelEdges(g, u, v, states[..|states| - 1]);
      assert h == p + [e];
      assert multiset(h) == multiset(p) + multiset{e};
      forall a, b
        ensures multiset(h)[Edge(a, b)] == multiset(g.edges)[Edge(a, b)] + (if a == u && b == v then |states| else 0)
      {
        assert multiset{e}[Edge(a, b)] == if a == u && b == v then 1 else 0;
      }
    }
  }

  /** The edges add one to the in-degree of `v` and to the out-degree of `u` per state. */
  lemma {:induction false} AddParallelCounts<S>(g: Graph, u: int, v: int, states: seq<S>)
    ensures forall x :: InCount(AddParallel(g, u, v, states).edges, x) == InCount(g.edges, x) + (if x == v then |states| else 0)
    ensures forall x :: OutCount(AddParallel(g, u, v, states).edges, x) == OutCount(g.edges, x) + (if x == u then |states| else 0)
  {
    if states != [] {
      var p := AddParallel(g, u, v, states[..|states| - 1]).edges;
      AddParallelCounts(g, u, v, states[..|states| - 1]);
      assert AddParallel(g, u, v, states).edges == p + [Edge(u, v)];
      CountsSnoc(p, Edge(u, v));
    }
  }

  lemma {:induction false} AddParallelValid<S>(g: Graph, u: int, v: int, states: seq<S>)
    requires Valid(g)
    ensures Valid(AddParallel(g, u, v, states))
  {
    if states != [] {
      AddParallelValid(g, u, v, states[..|states| - 1]);
      AddEdgeValid(AddParallel(g, u, v, states[..|states| - 1]), u, v);
    }
  }

  /** The loop over the from-nodes of one row (the key `v` is added just before it). */
  function RowToGraph<S>(g: Graph, v: int, row: Row<S>): Graph
  {
    if row == [] then g
    else AddParallel(RowToGraph(g, v, row[..|row| - 1]), row[|row| - 1].0, v, row[|row| - 1].1)
  }

  /** Once `v` is a node, row `v` adds exactly its from-nodes that have a connection state. */
  lemma {:induction false} RowToGraphNodes<S>(g: Graph, v: int, row: Row<S>)
    requires v in g.nodes
    ensures forall x :: x in RowToGraph(g, v, row).nodes <==> x in g.nodes || RowFrom(row, x) > 0
  {
    if row != [] {
      var pre := row[..|row| - 1];
      RowToGraphNodes(g, v, pre);
      RowSnoc(row);
      AddParallelNodes(RowToGraph(g, v, pre), row[|row| - 1].0, v, row[|row| - 1].1);
    }
  }

  lemma {:induction false} RowToGraphValid<S>(g: Graph, v: int, row: Row<S>)
    requires Valid(g)
    ensures Valid(RowToGraph(g, v, row))
  {
    if row != [] {
      var pre := row[..|row| - 1];
      RowToGraphValid(g, v, pre);
      AddParallelValid(RowToGraph(g, v, pre), row[|row| - 1].0, v, row[|row| - 1].1);
    }
  }

  /** The last from-node of a non-empty row and what it adds to the counts. */
  lemma RowSnoc<S>(row: Row<S>)
    requires row != []
    ensures RowTotal(row) == RowTotal(row[..|row| - 1]) + |row[|row| - 1].1|
    ensures forall a :: RowFrom(row, a) == RowFrom(row[..|row| - 1], a)
                        + (if a == row[|row| - 1].0 then |row[|row| - 1].1| else 0)
  {
  }

  /** Row `v` adds one edge from_node -> v per connection state, and nothing else. */
  lemma {:induction false} RowToGraphEdges<S>(g: Graph, v: int, row: Row<S>)
    ensures |RowToGraph(g, v, row).edges| == |g.edges| + RowTotal(row)
    ensures forall a, b :: multiset(RowToGraph(g, v, row).edges)[Edge(a, b)]
                           == multiset(g.edges)[Edge(a, b)] + (if b == v then RowFrom(row, a) else 0)
  {
    if row != [] {
      var pre := row[..|row| - 1];
      RowToGraphEdges(g, v, pre);
      RowSnoc(row);
      AddParallelEdges(RowToGraph(g, v, pre), row[|row| - 1].0, v, row[|row| - 1].1);
      assert RowToGraph(g, v, row) == AddParallel(RowToGraph(g, v, pre), row[|row| - 1].0, v, row[|row| - 1].1);
    }
  }

  /** Row `v` adds its total to the edges into `v`, and each from-node's count to the edges out of it. */
  lemma {:induction false} RowToGraphCounts<S>(g: Graph, v: int, row: Row<S>)
    ensures forall x :: InCount(RowToGraph(g, v, row).edges, x)
                        == InCount(g.edges, x) + (if x == v then RowTotal(row) else 0)
    ensures forall x :: OutCount(RowToGraph(g, v, row).edges, x) == OutCount(g.edges, x) + RowFrom(row, x)
  {
    if row != [] {
      var pre := row[..|row| - 1];
      RowToGraphCounts(g, v, pre);
      RowSnoc(row);
      AddParallelCounts(RowToGraph(g, v, pre), row[|row| - 1].0, v, row[|row| - 1].1);
      assert RowToGraph(g, v, row) == AddParallel(RowToGraph(g, v, pre), row[|row| - 1].0, v, row[|row| - 1].1);
    }
  }

  /**
   `connectivity_map_to_nx`: for each key `node`, add the node, then one edge
   from_node -> node per connection state of each of its from-nodes.
   */
  function ConnectivityMapToGraph<S>(cm: ConnectivityMap<S>): Graph
  {
    if cm == [] then EmptyGraph
    else
      var v := cm[|cm| - 1].0;
      RowToGraph(AddNode(ConnectivityMapToGraph(cm[..|cm| - 1]), v), v, cm[|cm| - 1].1)
  }

  /** Every node is listed once, and every edge joins two listed nodes. */
  lemma {:induction false} MapGraphValid<S>(cm: ConnectivityMap<S>)
    ensures Valid(ConnectivityMapToGraph(cm))
  {
    if cm != [] {
      var v := cm[|cm| - 1].0;
      var g := ConnectivityMapToGraph(cm[..|cm| - 1]);
      MapGraphValid(cm[..|cm| - 1]);
      AddNodeValid(g, v);
      RowToGraphValid(AddNode(g, v), v, cm[|cm| - 1].1);
    }
  }

  /**
   The nodes of the graph are the keys of the map and the from-nodes with at
   least one connection state; a from-node whose lists are all empty gets no
   node (though it has an out-degree entry, of 0).
   */
  lemma {:induction false} MapGraphNodes<S>(cm: ConnectivityMap<S>)
    ensures forall x :: x in ConnectivityMapToGraph(cm).nodes <==> x in Keys(cm) || OutDegree(cm, x) > 0
  {
    if cm != [] {
      var v := cm[|cm| - 1].0;
      MapGraphNodes(cm[..|cm| - 1]);
      KeysSnoc(cm);
      RowToGraphNodes(AddNode(ConnectivityMapToGraph(cm[..|cm| - 1]), v), v, cm[|cm| - 1].1);
    }
  }

  /** One edge per connection state: from_node -> node, parallel ones kept. */
  lemma {:induction false} MapGraphEdges<S>(cm: ConnectivityMap<S>)
    ensures |ConnectivityMapToGraph(cm).edges| == Total(cm)
    ensures forall u, v :: multiset(ConnectivityMapToGraph(cm).edges)[Edge(u, v)] == Links(cm, u, v)
  {
    if cm != [] {
      var v := cm[|cm| - 1].0;
      MapGraphEdges(cm[..|cm| - 1]);
      RowToGraphEdges(AddNode(ConnectivityMapToGraph(cm[..|cm| - 1]), v), v, cm[|cm| - 1].1);
    }
  }

  /** The edges into and out of each node number its connections in the map. */
  lemma {:induction false} MapGraphDegrees<S>(cm: ConnectivityMap<S>)
    ensures forall v :: InCount(ConnectivityMapToGraph(cm).edges, v) == InDegree(cm, v)
    ensures forall u :: OutCount(ConnectivityMapToGraph(cm).edges, u) == OutDegree(cm, u)
  {
    if cm != [] {
      var v := cm[|cm| - 1].0;
      MapGraphDegrees(cm[..|cm| - 1]);
      RowToGraphCounts(AddNode(ConnectivityMapToGraph(cm[..|cm| - 1]), v), v, cm[|cm| - 1].1);
    }
  }

  /**
   The graph and the degree tables agree: the edges into a node number its
   in-degree, the edges out of a node number its out-degree.
   */
  lemma {:induction false} GraphDegreesMatchTables<S>(cm: ConnectivityMap<S>, x: int)
    ensures InCount(ConnectivityMapToGraph(cm).edges, x) == Get(NodeDegrees(cm).0, x, 0)
    ensures OutCount(ConnectivityMapToGraph(cm).edges, x) == Get(NodeDegrees(cm).1, x, 0)
  {
    MapGraphDegrees(cm);
  }

  /**
   The two helpers differ on a from-node whose connection-state lists are all
   empty: `get_node_degrees` lists it with out-degree 0, while
   `connectivity_map_to_nx` never adds it as a node.
   */
  lemma {:induction false} SilentSourceHasNoNode<S>(cm: ConnectivityMap<S>, u: int)
    requires u in Sources(cm) && u !in Keys(cm) && OutDegree(cm, u) == 0
    ensures u in Keys(NodeDegrees(cm).1) && Get(NodeDegrees(cm).1, u, 0) == 0
    ensures u !in ConnectivityMapToGraph(cm).nodes
  {
    MapGraphNodes(cm);
  }

  /**
   The second disagreement: a from-node with at least one connection state
   that is not itself a key is a node of the graph, but `get_node_degrees`
   gives it no in-degree entry, so looking it up in that table fails.
   */
  lemma {:induction false} UnlistedSourceHasNoInDegree<S>(cm: ConnectivityMap<S>, u: int)
    requires u !in Keys(cm) && OutDegree(cm, u) > 0
    ensures u in ConnectivityMapToGraph(cm).nodes
    ensures u !in Keys(NodeDegrees(cm).0)
    ensures u in Keys(NodeDegrees(cm).1) && Get(NodeDegrees(cm).1, u, 0) > 0
  {
    MapGraphNodes(cm);
    OutDegreeInSources(cm, u);
  }

  /** Only a from-node can have a positive out-degree count. */
  lemma {:induction false} OutDegreeInSources<S>(cm: ConnectivityMap<S>, u: int)
    requires OutDegree(cm, u) > 0
    ensures u in Sources(cm)
  {
    var pre := cm[..|cm| - 1];
    var row := cm[|cm| - 1].1;
    MapSnoc(cm);
    if OutDegree(pre, u) > 0 {
      OutDegreeInSources(pre, u);
    } else {
      RowFromInKeys(row, u);
    }
  }

  /** Only a from-node of a row has states in it. */
  lemma {:induction false} RowFromInKeys<S>(row: Row<S>, u: int)
    requires RowFrom(row, u) > 0
    ensures u in Keys(row)
  {
    KeysSnoc(row);
    if RowFrom(row[..|row| - 1], u) > 0 {
      RowFromInKeys(row[..|row| - 1], u);
    }
  }
}

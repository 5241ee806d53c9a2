/**
 The dense topology form: an adjacency matrix whose entry [r][c] is non-zero
 when there is a connection r -> c. Covers the graph construction shared by
 `plot_network` and `animate_network` in netomaton/utils.py.
 */
module Adjacency {
  import opened Graphs

  type Matrix = seq<seq<real>>

  /** Entry [u][v] exists and is non-zero: the matrix asks for an edge u -> v. */
  predicate NonZero(m: Matrix, u: int, v: int)
  {
    0 <= u < |m| && 0 <= v < |m[u]| && m[u][v] != 0.0
  }

  /** Row-major order: by row index, then by column index. */
  predicate Before(a: Edge, b: Edge)
  {
    a.src < b.src || (a.src == b.src && a.dst < b.dst)
  }

  predicate Sorted(es: seq<Edge>)
  {
    forall i, j :: 0 <= i < j < |es| ==> Before(es[i], es[j])
  }

  /** `for n, _ in enumerate(adjacency_matrix): G.add_node(n)`. */
  function AddRange(n: nat): (g: Graph)
    ensures |g.nodes| == n && forall i :: 0 <= i < n ==> g.nodes[i] == i
    ensures g.edges == []
  {
    if n == 0 then EmptyGraph else AddNode(AddRange(n - 1), n - 1)
  }

  lemma {:induction false} AddRangeValid(n: nat)
    ensures Valid(AddRange(n))
  {
    if n > 0 {
      AddRangeValid(n - 1);
      AddNodeValid(AddRange(n - 1), n - 1);
    }
  }

  /** The inner loop over the entries of row `r`. */
  function RowEdges(g: Graph, r: int, row: seq<real>): (h: Graph)
    requires r in g.nodes
    ensures g.nodes <= h.nodes
    ensures forall x :: x in h.nodes <==> x in g.nodes || (0 <= x < |row| && row[x] != 0.0)
    ensures g.edges <= h.edges
    ensures forall i :: |g.edges| <= i < |h.edges| ==> h.edges[i].src == r && 0 <= h.edges[i].dst < |row|
  {
    if row == [] then g
    else
      var c := |row| - 1;
      var p := RowEdges(g, r, row[..c]);
      assert forall b :: 0 <= b < c ==> row[..c][b] == row[b];
      if row[c] != 0.0 then AddEdge(p, r, c) else p
  }

  lemma {:induction false} RowEdgesValid(g: Graph, r: int, row: seq<real>)
    requires r in g.nodes && Valid(g)
    ensures Valid(RowEdges(g, r, row))
  {
    if row != [] {
      var c := |row| - 1;
      RowEdgesValid(g, r, row[..c]);
      if row[c] != 0.0 {
        AddEdgeValid(RowEdges(g, r, row[..c]), r, c);
      }
    }
  }

  /** Row `r` appends its edges by increasing column, after every edge of earlier rows. */
  lemma {:induction false} RowEdgesSorted(g: Graph, r: int, row: seq<real>)
    requires r in g.nodes
    requires Sorted(g.edges) && forall i :: 0 <= i < |g.edges| ==> g.edges[i].src < r
    ensures Sorted(RowEdges(g, r, row).edges)
  {
    if row != [] {
      var c := |row| - 1;
      var p := RowEdges(g, r, row[..c]);
      RowEdgesSorted(g, r, row[..c]);
      if row[c] != 0.0 {
        var h := AddEdge(p, r, c);
        assert h == RowEdges(g, r, row);
        forall i, j | 0 <= i < j < |h.edges|
          ensures Before(h.edges[i], h.edges[j])
        {
          if j < |p.edges| {
            assert h.edges[i] == p.edges[i] && h.edges[j] == p.edges[j];
          } else if i < |g.edges| {
            assert h.edges[i] == g.edges[i];
          } else {
            assert h.edges[i] == p.edges[i];
          }
        }
      }
    }
  }

  /** Row `r` contributes one edge r -> b per non-zero entry b. */
  lemma {:induction false} RowEdgesCount(g: Graph, r: int, row: seq<real>)
    requires r in g.nodes
    ensures forall a, b :: multiset(RowEdges(g, r, row).edges)[Edge(a, b)]
                           == multiset(g.edges)[Edge(a, b)]
                              + (if a == r && 0 <= b < |row| && row[b] != 0.0 then 1 else 0)
  {
    if row != [] {
      var c := |row| - 1;
      var p := RowEdges(g, r, row[..c]);
      var h := RowEdges(g, r, row);
      RowEdgesCount(g, r, row[..c]);
      var added := if row[c] != 0.0 then multiset{Edge(r, c)} else multiset{};
      assert multiset(h.edges) == multiset(p.edges) + added by {
        if row[c] != 0.0 {
          assert h.edges == p.edges + [Edge(r, c)];
        }
      }
      forall a, b
        ensures multiset(h.edges)[Edge(a, b)]
                == multiset(g.edges)[Edge(a, b)] + (if a == r && 0 <= b < |row| && row[b] != 0.0 then 1 else 0)
      {
        assert added[Edge(a, b)] == if a == r && b == c && row[c] != 0.0 then 1 else 0;
        if 0 <= b < c {
          assert row[..c][b] == row[b];
        }
      }
    }
  }

  /** The outer loop over the rows, row index = position in the matrix. */
  function MatrixEdges(g: Graph, m: Matrix): (h: Graph)
    requires g.edges == []
    requires forall i :: 0 <= i < |m| ==> i in g.nodes
    ensures g.nodes <= h.nodes
    ensures forall x :: x in g.nodes ==> x in h.nodes
  {
    if m == [] then g
    else
      var r := |m| - 1;
      RowEdges(MatrixEdges(g, m[..r]), r, m[r])
  }

  /** The entries of a matrix are those of all rows but the last, and those of the last. */
  lemma LastRow(m: Matrix)
    requires m != []
    ensures forall u, x :: NonZero(m, u, x) <==> NonZero(m[..|m| - 1], u, x) || (u == |m| - 1 && NonZero(m, u, x))
  {
    var r := |m| - 1;
    forall u, x
      ensures NonZero(m, u, x) <==> NonZero(m[..r], u, x) || (u == r && NonZero(m, u, x))
    {
      if 0 <= u < r {
        assert m[..r][u] == m[u];
      }
    }
  }

  /** A column becomes a node exactly when some row has a non-zero entry in it. */
  lemma {:induction false} MatrixEdgesNodes(g: Graph, m: Matrix)
    requires g.edges == []
    requires forall i :: 0 <= i < |m| ==> i in g.nodes
    ensures forall x :: x in MatrixEdges(g, m).nodes <==> x in g.nodes || exists u :: NonZero(m, u, x)
  {
    if m != [] {
      var r := |m| - 1;
      var m' := m[..r];
      var h := MatrixEdges(g, m);
      MatrixEdgesNodes(g, m');
      LastRow(m);
      forall x
        ensures x in h.nodes <==> x in g.nodes || exists u :: NonZero(m, u, x)
      {
        if NonZero(m, r, x) {
          assert exists u :: NonZero(m, u, x);
        }
        if exists u :: NonZero(m', u, x) {
          var u :| NonZero(m', u, x);
          assert NonZero(m, u, x);
        }
      }
    }
  }

  /** One edge u -> v per non-zero entry [u][v], none for a zero entry. */
  lemma {:induction false} MatrixEdgesCount(g: Graph, m: Matrix)
    requires g.edges == []
    requires forall i :: 0 <= i < |m| ==> i in g.nodes
    ensures forall a, b :: multiset(MatrixEdges(g, m).edges)[Edge(a, b)] == if NonZero(m, a, b) then 1 else 0
  {
    if m != [] {
      var r := |m| - 1;
      MatrixEdgesCount(g, m[..r]);
      RowEdgesCount(MatrixEdges(g, m[..r]), r, m[r]);
      LastRow(m);
    }
  }

  /** The edges come row by row, and by column within a row. */
  lemma {:induction false} MatrixEdgesSorted(g: Graph, m: Matrix)
    requires g.edges == []
    requires forall i :: 0 <= i < |m| ==> i in g.nodes
    ensures forall i :: 0 <= i < |MatrixEdges(g, m).edges| ==> 0 <= MatrixEdges(g, m).edges[i].src < |m|
    ensures Sorted(MatrixEdges(g, m).edges)
  {
    if m != [] {
      var r := |m| - 1;
      MatrixEdgesSorted(g, m[..r]);
      RowEdgesSorted(MatrixEdges(g, m[..r]), r, m[r]);
    }
  }

  lemma {:induction false} MatrixEdgesValid(g: Graph, m: Matrix)
    requires g.edges == [] && Valid(g)
    requires forall i :: 0 <= i < |m| ==> i in g.nodes
    ensures Valid(MatrixEdges(g, m))
  {
    if m != [] {
      var r := |m| - 1;
      MatrixEdgesValid(g, m[..r]);
      RowEdgesValid(MatrixEdges(g, m[..r]), r, m[r]);
    }
  }

  /**
   The graph `plot_network` and `animate_network` draw: every row index is a
   node, listed first and in order, and there is exactly one edge
   row -> column per non-zero entry and none for a zero entry, in row-major
   order. A column index beyond the last row (a non-square matrix) becomes a
   node only through an edge.
   */
  function AdjacencyToGraph(m: Matrix): (g: Graph)
    ensures Valid(g)
    ensures |m| <= |g.nodes| && forall i :: 0 <= i < |m| ==> g.nodes[i] == i
    ensures forall x :: x in g.nodes <==> 0 <= x < |m| || exists u :: NonZero(m, u, x)
    ensures forall u, v :: multiset(g.edges)[Edge(u, v)] == if NonZero(m, u, v) then 1 else 0
    ensures Sorted(g.edges)
  {
    var g0 := AddRange(|m|);
    assert forall i :: 0 <= i < |m| ==> i in g0.nodes by {
      forall i | 0 <= i < |m|
        ensures i in g0.nodes
      {
        assert g0.nodes[i] == i;
      }
    }
    var g := MatrixEdges(g0, m);
    assert Valid(g) by {
      AddRangeValid(|m|);
      MatrixEdgesValid(g0, m);
    }
    assert forall x :: x in g.nodes <==> 0 <= x < |m| || exists u :: NonZero(m, u, x) by {
      MatrixEdgesNodes(g0, m);
      assert forall x :: x in g0.nodes <==> 0 <= x < |m|;
    }
    assert forall u, v :: multiset(g.edges)[Edge(u, v)] == if NonZero(m, u, v) then 1 else 0 by {
      MatrixEdgesCount(g0, m);
    }
    assert Sorted(g.edges) by {
      MatrixEdgesSorted(g0, m);
    }
    assert forall i :: 0 <= i < |m| ==> g.nodes[i] == i by {
      forall i | 0 <= i < |m|
        ensures g.nodes[i] == i
      {
        assert g.nodes[i] == g0.nodes[i];
      }
    }
    g
  }

  /** `s[j]` where it exists; naming an entry this way needs no index check. */
  function At(s: seq<int>, j: int): int
  {
    if 0 <= j < |s| then s[j] else 0
  }

  /** A distinct list that starts 0, ..., n - 1 and stays below n is exactly that. */
  lemma IdentityPrefix(ns: seq<int>, n: nat)
    requires Distinct(ns) && n <= |ns|
    requires forall i :: 0 <= i < n ==> ns[i] == i
    requires forall j :: 0 <= j < |ns| ==> 0 <= ns[j] < n
    ensures ns == seq(n, i => i)
  {
    // an entry at n would repeat the entry at its own value
    var y := At(ns, At(ns, n));
    assert |ns| <= n;
  }

  /** For a square matrix the nodes are exactly 0, 1, ..., n - 1, in order. */
  lemma SquareMatrixNodes(m: Matrix)
    requires forall i :: 0 <= i < |m| ==> |m[i]| == |m|
    ensures AdjacencyToGraph(m).nodes == seq(|m|, i => i)
  {
    var g := AdjacencyToGraph(m);
    forall j | 0 <= j < |g.nodes|
      ensures 0 <= g.nodes[j] < |m|
    {
      assert g.nodes[j] in g.nodes;
    }
    IdentityPrefix(g.nodes, |m|);
  }
}

/**
 A path configuration is a list of relations, each relation a list of nodes
 read as the path relation[0] -> relation[1] -> ... Covers
 `configuration_to_nx` of netomaton/vis/vis_utils.py.
 */
module Configuration {
  import opened Graphs

  type Relation = seq<int>

  /** The consecutive pairs of a relation, as edges, in order. */
  function RelationPairs(rel: Relation): seq<Edge>
  {
    if |rel| < 2 then [] else [Edge(rel[0], rel[1])] + RelationPairs(rel[1..])
  }

  /** A relation of m >= 1 nodes has m - 1 pairs, pair i joining node i to node i + 1. */
  lemma {:induction false} PairsOfRelation(rel: Relation)
    ensures |RelationPairs(rel)| == if |rel| < 2 then 0 else |rel| - 1
    ensures forall i :: 0 <= i < |rel| - 1 ==> RelationPairs(rel)[i] == Edge(rel[i], rel[i + 1])
  {
    if |rel| >= 2 {
      PairsOfRelation(rel[1..]);
      forall i | 1 <= i < |rel| - 1
        ensures RelationPairs(rel)[i] == Edge(rel[i], rel[i + 1])
      {
        assert RelationPairs(rel)[i] == RelationPairs(rel[1..])[i - 1];
      }
    }
  }

  /** The consecutive pairs of every relation, relation by relation. */
  function ConfigPairs(config: seq<Relation>): seq<Edge>
  {
    if config == [] then [] else ConfigPairs(config[..|config| - 1]) + RelationPairs(config[|config| - 1])
  }

  /** Every node of every relation, in order. */
  function AllNodes(config: seq<Relation>): seq<int>
  {
    if config == [] then [] else AllNodes(config[..|config| - 1]) + config[|config| - 1]
  }

  /**
   Step `i` of the inner loop of `configuration_to_nx` reads only `relation[i]`
   and `relation[i + 1]`: it adds the node `relation[i]`, then, when there is
   a successor, the edge to it (which also adds the successor). So the loop
   over a relation is this step on its first node followed by the loop over
   the rest of it.
   */
  function StepHead(g: Graph, rel: Relation): Graph
    requires rel != []
  {
    var h := AddNode(g, rel[0]);
    if |rel| > 1 then AddEdge(h, rel[0], rel[1]) else h
  }

  /** The inner loop over one relation. */
  function RelationSteps(g: Graph, rel: Relation): Graph
    decreases |rel|
  {
    if rel == [] then g else RelationSteps(StepHead(g, rel), rel[1..])
  }

  /** Adding a node twice is adding it once. */
  lemma AddNewTwice(ns: seq<int>, x: int)
    ensures AddNew(AddNew(ns, x), x) == AddNew(ns, x)
  {
  }

  /** Adding `x` and then the rest `xs` is adding `[x] + xs`. */
  lemma AddAllCons(ns: seq<int>, x: int, xs: seq<int>)
    ensures AddAll(ns, [x] + xs) == AddAll(AddNew(ns, x), xs)
  {
    AddAllAppend(ns, [x], xs);
    assert [x][..0] == [];
  }

  /** What the first step adds to the nodes is what adding the whole relation adds first. */
  lemma StepHeadNodes(g: Graph, rel: Relation)
    requires rel != []
    ensures AddAll(StepHead(g, rel).nodes, rel[1..]) == AddAll(g.nodes, rel)
  {
    var a := AddNew(g.nodes, rel[0]);
    assert rel == [rel[0]] + rel[1..];
    AddAllCons(g.nodes, rel[0], rel[1..]);
    if |rel| > 1 {
      assert rel[1..] == [rel[1]] + rel[2..];
      AddAllCons(a, rel[1], rel[2..]);
      AddAllCons(AddNew(a, rel[1]), rel[1], rel[2..]);
      AddNewTwice(a, rel[1]);
    }
  }

  /** The inner loop adds the relation's nodes in order, each only if new. */
  lemma {:induction false} RelationStepsNodes(g: Graph, rel: Relation)
    ensures RelationSteps(g, rel).nodes == AddAll(g.nodes, rel)
    decreases |rel|
  {
    if rel != [] {
      var h := StepHead(g, rel);
      calc {
        RelationSteps(g, rel).nodes;
        RelationSteps(h, rel[1..]).nodes;
        { RelationStepsNodes(h, rel[1..]); }
        AddAll(h.nodes, rel[1..]);
        { StepHeadNodes(g, rel); }
        AddAll(g.nodes, rel);
      }
    }
  }

  /** The pair a relation starts with, if it has one. */
  function HeadPair(rel: Relation): seq<Edge>
  {
    if |rel| > 1 then [Edge(rel[0], rel[1])] else []
  }

  lemma StepHeadEdges(g: Graph, rel: Relation)
    requires rel != []
    ensures StepHead(g, rel).edges == g.edges + HeadPair(rel)
    ensures RelationPairs(rel) == HeadPair(rel) + RelationPairs(rel[1..])
  {
    if |rel| == 1 {
      assert g.edges + [] == g.edges;
      assert rel[1..] == [];
    }
  }

  /** The inner loop appends the relation's consecutive pairs, in order. */
  lemma {:induction false} RelationStepsEdges(g: Graph, rel: Relation)
    ensures RelationSteps(g, rel).edges == g.edges + RelationPairs(rel)
    decreases |rel|
  {
    if rel == [] {
      assert g.edges + [] == g.edges;
    } else {
      var h := StepHead(g, rel);
      calc {
        RelationSteps(g, rel).edges;
        RelationSteps(h, rel[1..]).edges;
        { RelationStepsEdges(h, rel[1..]); }
        h.edges + RelationPairs(rel[1..]);
        { StepHeadEdges(g, rel); }
        (g.edges + HeadPair(rel)) + RelationPairs(rel[1..]);
        g.edges + (HeadPair(rel) + RelationPairs(rel[1..]));
        { StepHeadEdges(g, rel); }
        g.edges + RelationPairs(rel);
      }
    }
  }

  /** The outer loop: one relation after another. */
  function ConfigurationToGraphFrom(g: Graph, config: seq<Relation>): Graph
  {
    if config == [] then g
    else RelationSteps(ConfigurationToGraphFrom(g, config[..|config| - 1]), config[|config| - 1])
  }

  lemma {:induction false} ConfigurationNodes(g: Graph, config: seq<Relation>)
    ensures ConfigurationToGraphFrom(g, config).nodes == AddAll(g.nodes, AllNodes(config))
  {
    if config != [] {
      var pre := config[..|config| - 1];
      var rel := config[|config| - 1];
      ConfigurationNodes(g, pre);
      RelationStepsNodes(ConfigurationToGraphFrom(g, pre), rel);
      AddAllAppend(g.nodes, AllNodes(pre), rel);
    }
  }

  lemma {:induction false} ConfigurationEdges(g: Graph, config: seq<Relation>)
    ensures ConfigurationToGraphFrom(g, config).edges == g.edges + ConfigPairs(config)
  {
    if config != [] {
      var pre := config[..|config| - 1];
      var rel := config[|config| - 1];
      ConfigurationEdges(g, pre);
      RelationStepsEdges(ConfigurationToGraphFrom(g, pre), rel);
    }
  }

  /** Both ends of every pair are nodes of some relation. */
  lemma {:induction false} PairsInAllNodes(config: seq<Relation>)
    ensures forall e :: e in ConfigPairs(config) ==> e.src in AllNodes(config) && e.dst in AllNodes(config)
  {
    if config != [] {
      var pre := config[..|config| - 1];
      var rel := config[|config| - 1];
      PairsInAllNodes(pre);
      PairsOfRelation(rel);
      forall e | e in ConfigPairs(config)
        ensures e.src in AllNodes(config) && e.dst in AllNodes(config)
      {
        if e !in ConfigPairs(pre) {
          var i :| 0 <= i < |RelationPairs(rel)| && RelationPairs(rel)[i] == e;
          assert rel[i] in rel && rel[i + 1] in rel;
        }
      }
    }
  }

  /**
   `configuration_to_nx`: each relation of length m >= 1 becomes the path of
   its m - 1 consecutive pairs, in order, relation after relation; every node
   of every relation becomes a graph node, in order of first occurrence, even
   in a one-node relation that adds no edge.
   */
  function ConfigurationToGraph(config: seq<Relation>): (g: Graph)
    ensures Valid(g)
    ensures g.edges == ConfigPairs(config)
    ensures g.nodes == FirstOccurrences(AllNodes(config))
    ensures forall x :: x in g.nodes <==> x in AllNodes(config)
  {
    FirstOccurrencesFacts(AllNodes(config));
    PairsInAllNodes(config);
    ConfigurationNodes(EmptyGraph, config);
    ConfigurationEdges(EmptyGraph, config);
    ConfigurationToGraphFrom(EmptyGraph, config)
  }

  lemma {:induction false} PairsPrefix(config: seq<Relation>, k: nat)
    requires k <= |config|
    ensures ConfigPairs(config[..k]) <= ConfigPairs(config)
  {
    if k == |config| {
      assert config[..k] == config;
    } else {
      var pre := config[..|config| - 1];
      PairsPrefix(pre, k);
      assert pre[..k] == config[..k];
    }
  }

  /** The pair (config[r][i], config[r][i + 1]) is edge number pos of the graph. */
  lemma PairPosition(config: seq<Relation>, r: nat, i: nat) returns (pos: nat)
    requires r < |config| && i + 1 < |config[r]|
    ensures pos == |ConfigPairs(config[..r])| + i
    ensures pos < |ConfigPairs(config[..r + 1])|
    ensures pos < |ConfigPairs(config)| && ConfigPairs(config)[pos] == Edge(config[r][i], config[r][i + 1])
  {
    pos := |ConfigPairs(config[..r])| + i;
    assert config[..r + 1][..r] == config[..r];
    assert ConfigPairs(config[..r + 1]) == ConfigPairs(config[..r]) + RelationPairs(config[r]);
    PairsOfRelation(config[r]);
    PairsPrefix(config, r + 1);
  }

  lemma CountTwo<T>(s: seq<T>, a: nat, b: nat)
    requires a < b < |s| && s[a] == s[b]
    ensures multiset(s)[s[a]] >= 2
  {
    assert s == s[..a] + [s[a]] + s[a + 1..b] + [s[b]] + s[b + 1..];
  }

  /**
   A consecutive pair that occurs twice, in one relation or in two, gives two
   parallel edges: the multigraph does not merge them.
   */
  lemma RepeatedPairGivesParallelEdges(config: seq<Relation>, r1: nat, i1: nat, r2: nat, i2: nat)
    requires r1 < |config| && i1 + 1 < |config[r1]|
    requires r2 < |config| && i2 + 1 < |config[r2]|
    requires r1 < r2 || (r1 == r2 && i1 < i2)
    requires config[r1][i1] == config[r2][i2] && config[r1][i1 + 1] == config[r2][i2 + 1]
    ensures multiset(ConfigurationToGraph(config).edges)[Edge(config[r1][i1], config[r1][i1 + 1])] >= 2
  {
    var p1 := PairPosition(config, r1, i1);
    var p2 := PairPosition(config, r2, i2);
    assert p1 < p2 by {
      if r1 < r2 {
        PairsPrefix(config[..r2], r1 + 1);
        assert config[..r2][..r1 + 1] == config[..r1 + 1];
      }
    }
    CountTwo(ConfigPairs(config), p1, p2);
  }
}

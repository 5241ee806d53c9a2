/**
 The node and edge arrays that `get_html` of netomaton/vis/vis_utils.py
 writes into its page as JavaScript array literals for vis.js, and a reader
 for exactly that format, so that what the literal says can be stated by
 reading it back.
 */
module VisLiteral {
  import opened Wrappers
  import opened Dicts
  import opened Graphs
  import opened Decimal

  datatype NodeRecord = NodeRecord(id: int, labelValue: int)

  datatype EdgeRecord = EdgeRecord(from: int, to: int, selfReferenceSize: Option<int>)

  /** One `{...}` element of a vis.js array. */
  datatype Entry = NodeEntry(node: NodeRecord) | EdgeEntry(edge: EdgeRecord)

  // The fixed pieces of text around the numbers.
  const NodeHead := "{id: "
  const LabelKey := ", label: "
  const NodeTail := ", shape: \"dot\", size: 10}"
  const EdgeHead := "{from: "
  const ToKey := ", to: "
  const EdgeMid := ", arrows: \"to\", weight: 1"
  const SizeKey := ", selfReferenceSize: "

  // ---------------------------------------------------------------------------
  // Writing

  /** The optional `selfReferenceSize` field and the closing brace. */
  function SizeField(size: Option<int>): string
  {
    match size
    case Some(k) => SizeKey + (IntToString(k) + "}")
    case None => "}"
  }

  function Render(e: Entry): string
  {
    match e
    case NodeEntry(n) =>
      NodeHead + (IntToString(n.id) + (LabelKey + (IntToString(n.labelValue) + NodeTail)))
    case EdgeEntry(r) =>
      EdgeHead + (IntToString(r.from) + (ToKey + (IntToString(r.to) + (EdgeMid + SizeField(r.selfReferenceSize)))))
  }

  function Renders(es: seq<Entry>): seq<string>
  {
    seq(|es|, i requires 0 <= i < |es| => Render(es[i]))
  }

  /** `",".join(items)`. */
  function Join(items: seq<string>): string
  {
    if items == [] then ""
    else if |items| == 1 then items[0]
    else items[0] + ("," + Join(items[1..]))
  }

  /** `"[" + ",".join(...) + "]"`. */
  function ArrayLiteral(es: seq<Entry>): string
  {
    "[" + (Join(Renders(es)) + "]")
  }

  /**
   The loop over `G.edges`: an edge record per edge, and for a self-loop the
   count of self-loops seen so far on that edge's (node, node) key, kept in the
   `self_references` dict, turned into a size of 15 + 5 * count. Returns the
   records and the dict.
   */
  function EdgeLoop(edges: seq<Edge>): (r: (seq<EdgeRecord>, Dict<Edge, int>))
    ensures |r.0| == |edges|
  {
    if edges == [] then ([], [])
    else
      var n := |edges| - 1;
      var p := EdgeLoop(edges[..n]);
      var e := edges[n];
      if e.src == e.dst then
        var counts := Bump(p.1, e, 1);
        (p.0 + [EdgeRecord(e.src, e.dst, Some(15 + Get(counts, e, 0) * 5))], counts)
      else
        (p.0 + [EdgeRecord(e.src, e.dst, None)], p.1)
  }

  /**
   After the loop, the dict has a key exactly for each self-loop that occurs,
   and its value is the number of occurrences of that self-loop.
   */
  lemma {:induction false} EdgeLoopCounts(edges: seq<Edge>)
    ensures forall e :: e in Keys(EdgeLoop(edges).1) <==> e in edges && e.src == e.dst
    ensures forall e :: Get(EdgeLoop(edges).1, e, 0) == if e.src == e.dst then multiset(edges)[e] else 0
  {
    if edges != [] {
      var n := |edges| - 1;
      var e := edges[n];
      var p := EdgeLoop(edges[..n]);
      EdgeLoopCounts(edges[..n]);
      assert edges == edges[..n] + [e];
      assert multiset(edges) == multiset(edges[..n]) + multiset{e};
      if e.src == e.dst {
        assert EdgeLoop(edges).1 == Bump(p.1, e, 1);
      } else {
        assert EdgeLoop(edges).1 == p.1;
      }
    }
  }

  /**
   Record `rec` is what the loop writes for edge `i`: the edge's endpoints,
   and a size exactly when the edge is a self-loop, the size then being
   15 + 5k for the k-th occurrence of that self-loop.
   */
  predicate RecordFor(edges: seq<Edge>, i: nat, rec: EdgeRecord)
    requires i < |edges|
  {
    && rec.from == edges[i].src
    && rec.to == edges[i].dst
    && (rec.selfReferenceSize.None? <==> edges[i].src != edges[i].dst)
    && (edges[i].src == edges[i].dst ==>
          rec.selfReferenceSize == Some(15 + 5 * multiset(edges[..i + 1])[edges[i]]))
  }

  /** A record that fits edge i of a prefix fits edge i of the whole sequence. */
  lemma RecordForPrefix(edges: seq<Edge>, n: nat, i: nat, rec: EdgeRecord)
    requires i < n <= |edges|
    requires RecordFor(edges[..n], i, rec)
    ensures RecordFor(edges, i, rec)
  {
    assert edges[..n][i] == edges[i];
    assert edges[..n][..i + 1] == edges[..i + 1];
  }

  /** The loop writes, for every edge, the record `RecordFor` describes. */
  lemma {:induction false} EdgeLoopRecords(edges: seq<Edge>)
    ensures forall i :: 0 <= i < |edges| ==> RecordFor(edges, i, EdgeLoop(edges).0[i])
  {
    if edges != [] {
      var n := |edges| - 1;
      var e := edges[n];
      var p := EdgeLoop(edges[..n]);
      var rs := EdgeLoop(edges).0;
      EdgeLoopRecords(edges[..n]);
      assert rs[..n] == p.0;
      forall i | 0 <= i < n
        ensures RecordFor(edges, i, rs[i])
      {
        assert rs[i] == p.0[i];
        RecordForPrefix(edges, n, i, p.0[i]);
      }
      assert RecordFor(edges, n, rs[n]) by {
        if e.src == e.dst {
          EdgeLoopCounts(edges[..n]);
          assert edges[..n + 1] == edges == edges[..n] + [e];
          assert multiset(edges) == multiset(edges[..n]) + multiset{e};
          assert rs[n].selfReferenceSize == Some(15 + Get(Bump(p.1, e, 1), e, 0) * 5);
        }
      }
    }
  }

  /** The `nodes` literal of `get_html`: one element per node, id and label both the node. */
  function NodesLiteral(g: Graph): string
  {
    ArrayLiteral(seq(|g.nodes|, i requires 0 <= i < |g.nodes| => NodeEntry(NodeRecord(g.nodes[i], g.nodes[i]))))
  }

  /** The `edges` literal of `get_html`. */
  function EdgesLiteral(g: Graph): string
  {
    var records := EdgeLoop(g.edges).0;
    ArrayLiteral(seq(|records|, i requires 0 <= i < |records| => EdgeEntry(records[i])))
  }

  // ---------------------------------------------------------------------------
  // Reading

  /** What follows the literal prefix `lit` of `s`, if `s` starts with it. */
  function Expect(lit: string, s: string): (r: Option<string>)
    ensures r.Some? ==> |r.value| + |lit| == |s|
  {
    if lit <= s then Some(s[|lit|..]) else None
  }

  /** The rest of a node element, after `{id: `. */
  function ParseNode(s: string): (r: Option<(Entry, string)>)
    ensures r.Some? ==> |r.value.1| < |s|
  {
    var id :- ParseInt(s);
    var s2 :- Expect(LabelKey, id.1);
    var lab :- ParseInt(s2);
    var s3 :- Expect(NodeTail, lab.1);
    Some((NodeEntry(NodeRecord(id.0, lab.0)), s3))
  }

  /** The optional size field and the closing brace. */
  function ParseSize(s: string): (r: Option<(Option<int>, string)>)
    ensures r.Some? ==> |r.value.1| < |s|
  {
    if SizeKey <= s then
      var k :- ParseInt(s[|SizeKey|..]);
      var s2 :- Expect("}", k.1);
      Some((Some(k.0), s2))
    else
      var s2 :- Expect("}", s);
      Some((None, s2))
  }

  /** The rest of an edge element, after `{from: `. */
  function ParseEdge(s: string): (r: Option<(Entry, string)>)
    ensures r.Some? ==> |r.value.1| < |s|
  {
    var from :- ParseInt(s);
    var s2 :- Expect(ToKey, from.1);
    var to :- ParseInt(s2);
    var s3 :- Expect(EdgeMid, to.1);
    var size :- ParseSize(s3);
    Some((EdgeEntry(EdgeRecord(from.0, to.0, size.0)), size.1))
  }

  /** Reads one `{...}` element off the front of `s`. */
  function ParseEntry(s: string): (r: Option<(Entry, string)>)
    ensures r.Some? ==> |r.value.1| < |s|
  {
    if NodeHead <= s then ParseNode(s[|NodeHead|..])
    else
      var s1 :- Expect(EdgeHead, s);
      ParseEdge(s1)
  }

  /** Reads `e1,e2,...,en]`. */
  function ParseItems(s: string): Option<seq<Entry>>
    decreases |s|
  {
    var first :- ParseEntry(s);
    if first.1 == "]" then Some([first.0])
    else
      var rest :- Expect(",", first.1);
      var others :- ParseItems(rest);
      Some([first.0] + others)
  }

  /** Reads a whole array literal `[e1,...,en]`, `[]` included. */
  function ParseArray(s: string): Option<seq<Entry>>
  {
    var body :- Expect("[", s);
    if body == "]" then Some([]) else ParseItems(body)
  }

  // ---------------------------------------------------------------------------
  // Round trip

  lemma ExpectPrefix(lit: string, rest: string)
    ensures Expect(lit, lit + rest) == Some(rest)
  {
    assert lit <= lit + rest;
    assert (lit + rest)[|lit|..] == rest;
  }

  lemma Assoc(a: string, b: string, c: string)
    ensures (a + b) + c == a + (b + c)
  {
  }

  lemma NodeRoundTrip(n: NodeRecord, rest: string)
    ensures ParseNode(IntToString(n.id) + (LabelKey + (IntToString(n.labelValue) + NodeTail)) + rest)
            == Some((NodeEntry(n), rest))
  {
    var a := IntToString(n.id);
    var b := IntToString(n.labelValue);
    Assoc(a, LabelKey + (b + NodeTail), rest);
    Assoc(LabelKey, b + NodeTail, rest);
    Assoc(b, NodeTail, rest);
    ParseIntToString(n.id, LabelKey + (b + (NodeTail + rest)));
    ExpectPrefix(LabelKey, b + (NodeTail + rest));
    ParseIntToString(n.labelValue, NodeTail + rest);
    ExpectPrefix(NodeTail, rest);
  }

  lemma SizeRoundTrip(size: Option<int>, rest: string)
    ensures ParseSize(SizeField(size) + rest) == Some((size, rest))
  {
    match size
    case Some(k) =>
      var c := IntToString(k);
      Assoc(SizeKey, c + "}", rest);
      Assoc(c, "}", rest);
      var s := SizeField(size) + rest;
      assert s == SizeKey + (c + ("}" + rest));
      ExpectPrefix(SizeKey, c + ("}" + rest));
      ParseIntToString(k, "}" + rest);
      ExpectPrefix("}", rest);
    case None =>
      assert (SizeField(size) + rest)[0] == '}' != SizeKey[0];
      ExpectPrefix("}", rest);
  }

  lemma EdgeRoundTrip(r: EdgeRecord, rest: string)
    ensures ParseEdge(IntToString(r.from) + (ToKey + (IntToString(r.to) + (EdgeMid + SizeField(r.selfReferenceSize)))) + rest)
            == Some((EdgeEntry(r), rest))
  {
    var a := IntToString(r.from);
    var b := IntToString(r.to);
    var z := SizeField(r.selfReferenceSize);
    Assoc(a, ToKey + (b + (EdgeMid + z)), rest);
    Assoc(ToKey, b + (EdgeMid + z), rest);
    Assoc(b, EdgeMid + z, rest);
    Assoc(EdgeMid, z, rest);
    ParseIntToString(r.from, ToKey + (b + (EdgeMid + (z + rest))));
    ExpectPrefix(ToKey, b + (EdgeMid + (z + rest)));
    ParseIntToString(r.to, EdgeMid + (z + rest));
    ExpectPrefix(EdgeMid, z + rest);
    SizeRoundTrip(r.selfReferenceSize, rest);
  }

  /** An element reads back as itself, whatever follows it. */
  lemma EntryRoundTrip(e: Entry, rest: string)
    ensures ParseEntry(Render(e) + rest) == Some((e, rest))
  {
    match e
    case NodeEntry(n) =>
      var body := IntToString(n.id) + (LabelKey + (IntToString(n.labelValue) + NodeTail));
      Assoc(NodeHead, body, rest);
      ExpectPrefix(NodeHead, body + rest);
      NodeRoundTrip(n, rest);
    case EdgeEntry(r) =>
      var body := IntToString(r.from) + (ToKey + (IntToString(r.to) + (EdgeMid + SizeField(r.selfReferenceSize))));
      Assoc(EdgeHead, body, rest);
      assert (Render(e) + rest)[1] == 'f' != NodeHead[1];
      ExpectPrefix(EdgeHead, body + rest);
      EdgeRoundTrip(r, rest);
  }

  lemma JoinStep(rs: seq<string>)
    requires |rs| >= 2
    ensures Join(rs) + "]" == rs[0] + ("," + (Join(rs[1..]) + "]"))
  {
    Assoc(rs[0], "," + Join(rs[1..]), "]");
    Assoc(",", Join(rs[1..]), "]");
  }

  /** An element followed by the closing bracket reads as a one-element list. */
  lemma ParseItemsLast(e: Entry)
    ensures ParseItems(Render(e) + "]") == Some([e])
  {
    EntryRoundTrip(e, "]");
  }

  /** An element followed by a comma reads as that element before whatever the rest reads as. */
  lemma ParseItemsCons(e: Entry, rest: string)
    ensures ParseItems(Render(e) + ("," + rest))
            == if ParseItems(rest).Some? then Some([e] + ParseItems(rest).value) else None
  {
    EntryRoundTrip(e, "," + rest);
    assert ("," + rest)[0] == ',' != "]"[0];
    ExpectPrefix(",", rest);
  }

  lemma {:induction false} ItemsRoundTrip(es: seq<Entry>)
    requires es != []
    ensures ParseItems(Join(Renders(es)) + "]") == Some(es)
  {
    var rs := Renders(es);
    if |es| == 1 {
      assert Join(rs) == rs[0] == Render(es[0]);
      ParseItemsLast(es[0]);
      assert [es[0]] == es;
    } else {
      var tail := Join(Renders(es[1..])) + "]";
      var s := Join(rs) + "]";
      assert rs[1..] == Renders(es[1..]);
      JoinStep(rs);
      assert s == Render(es[0]) + ("," + tail);
      ItemsRoundTrip(es[1..]);
      ParseItemsCons(es[0], tail);
      assert [es[0]] + es[1..] == es;
    }
  }

  lemma JoinStartsWithBrace(es: seq<Entry>)
    requires es != []
    ensures Join(Renders(es))[0] == '{'
  {
    var rs := Renders(es);
    assert rs[0] == Render(es[0]);
    assert Render(es[0])[0] == '{';
    assert Join(rs)[0] == rs[0][0];
  }

  /** Every array literal reads back as the elements it was written from. */
  lemma ArrayRoundTrip(es: seq<Entry>)
    ensures ParseArray(ArrayLiteral(es)) == Some(es)
  {
    var body := Join(Renders(es)) + "]";
    ExpectPrefix("[", body);
    if es != [] {
      ItemsRoundTrip(es);
      JoinStartsWithBrace(es);
      assert body[0] == '{';
    }
  }

  // ---------------------------------------------------------------------------
  // What the literals say

  /**
   The `nodes` literal holds exactly one entry per graph node, in node order,
   whose id and label are that node; an empty graph gives `[]`.
   */
  lemma NodesLiteralContents(g: Graph)
    ensures ParseArray(NodesLiteral(g)).Some?
    ensures |ParseArray(NodesLiteral(g)).value| == |g.nodes|
    ensures forall i :: 0 <= i < |g.nodes| ==>
              ParseArray(NodesLiteral(g)).value[i] == NodeEntry(NodeRecord(g.nodes[i], g.nodes[i]))
    ensures g.nodes == [] ==> NodesLiteral(g) == "[]"
  {
    ArrayRoundTrip(seq(|g.nodes|, i requires 0 <= i < |g.nodes| => NodeEntry(NodeRecord(g.nodes[i], g.nodes[i]))));
  }

  /**
   The `edges` literal holds exactly one entry per graph edge, in edge order,
   each the record `RecordFor` describes: from and to are the edge's
   endpoints, only a self-loop carries a `selfReferenceSize`, and the k-th
   occurrence of a self-loop carries 15 + 5k.
   */
  lemma EdgesLiteralContents(g: Graph)
    ensures ParseArray(EdgesLiteral(g)).Some?
    ensures |ParseArray(EdgesLiteral(g)).value| == |g.edges|
    ensures forall i :: 0 <= i < |g.edges| ==>
              && ParseArray(EdgesLiteral(g)).value[i].EdgeEntry?
              && RecordFor(g.edges, i, ParseArray(EdgesLiteral(g)).value[i].edge)
    ensures g.edges == [] ==> EdgesLiteral(g) == "[]"
  {
    var records := EdgeLoop(g.edges).0;
    var es := seq(|records|, i requires 0 <= i < |records| => EdgeEntry(records[i]));
    assert EdgesLiteral(g) == ArrayLiteral(es);
    ArrayRoundTrip(es);
    EdgeLoopRecords(g.edges);
  }

  /**
   Repeated self-loops on one node get strictly growing sizes, so vis.js draws
   them as nested loops rather than on top of each other.
   */
  lemma {:induction false} SelfLoopSizesGrow(edges: seq<Edge>, i: nat, j: nat)
    requires i < j < |edges|
    requires edges[i] == edges[j] && edges[i].src == edges[i].dst
    ensures EdgeLoop(edges).0[i].selfReferenceSize.Some?
    ensures EdgeLoop(edges).0[j].selfReferenceSize.Some?
    ensures EdgeLoop(edges).0[i].selfReferenceSize.value < EdgeLoop(edges).0[j].selfReferenceSize.value
  {
    var e := edges[i];
    EdgeLoopRecords(edges);
    assert RecordFor(edges, i, EdgeLoop(edges).0[i]) && RecordFor(edges, j, EdgeLoop(edges).0[j]);
    assert edges[..j + 1] == edges[..i + 1] + edges[i + 1..j + 1];
    assert edges[j] in edges[i + 1..j + 1];
    assert multiset(edges[..j + 1])[e] > multiset(edges[..i + 1])[e];
  }
}

/** The directed-graph container of components/graph.py: an ordered list of
    nodes, an ordered list of edges, and two cached sets (node ids and
    `(source, to, label)` triples) that are updated only by `add_node` and
    `add_edge`. */
module Graphs {

  /** A node as far as the model is concerned: its id and its label, called
      `caption` here because `label` is a Dafny keyword.  Shape, colour and
      image are rendering attributes and are not modelled. */
  datatype Node = Node(id: string, caption: string)

  /** A directed edge `source -> to` carrying a label (the formatted weight). */
  datatype Edge = Edge(source: string, to: string, caption: string)

  /** The key an edge contributes to the cached edge set. */
  type Triple = (string, string, string)

  /** The container.  `nodeSet` and `edgeSet` are the cached sets exposed as
      `ssnodes` and `sedges`; nothing forces them to agree with the lists. */
  datatype Graph = Graph(nodes: seq<Node>, edges: seq<Edge>, nodeSet: set<string>, edgeSet: set<Triple>)

  /** One row of the adjacency or incidence view: the one-key dictionary
      `{key: members}` of the source. */
  datatype Row = Row(key: string, members: seq<string>)

  function TripleOf(e: Edge): Triple {
    (e.source, e.to, e.caption)
  }

  /** The ids of the nodes in the list. */
  function NodeIds(g: Graph): set<string> {
    set n | n in g.nodes :: n.id
  }

  /** The triples of the edges in a list. */
  function Triples(es: seq<Edge>): set<Triple> {
    set e | e in es :: TripleOf(e)
  }

  lemma TriplesAppend(a: seq<Edge>, b: seq<Edge>)
    ensures Triples(a + b) == Triples(a) + Triples(b)
  {
    forall x | x in Triples(a + b) ensures x in Triples(a) + Triples(b) {
      var d :| d in a + b && TripleOf(d) == x;
    }
  }

  /** The cached sets describe exactly the lists.  This holds for graphs built
      from an empty one by `AddNode` and `AddEdge`, and fails for graphs built
      by the constructor or by `load_json`. */
  predicate CacheConsistent(g: Graph) {
    g.nodeSet == NodeIds(g) && g.edgeSet == Triples(g.edges)
  }

  /** `Graph(nodes, edges)`: the lists are taken as given, the caches start empty. */
  function NewGraph(nodes: seq<Node>, edges: seq<Edge>): Graph {
    Graph(nodes, edges, {}, {})
  }

  /** `Graph()`: no nodes, no edges. */
  function Empty(): (g: Graph)
    ensures IsEmpty(g) && g.edges == []
    ensures CacheConsistent(g)
  {
    NewGraph([], [])
  }

  /** `add_node`: append the node and record its id in the cache. */
  function AddNode(g: Graph, n: Node): (r: Graph)
    ensures |r.nodes| == |g.nodes| + 1 && r.nodes[..|g.nodes|] == g.nodes && r.nodes[|g.nodes|] == n
    ensures r.edges == g.edges && r.edgeSet == g.edgeSet
    ensures r.nodeSet == g.nodeSet + {n.id}
    ensures forall x :: InNodes(r, x) <==> InNodes(g, x) || x == n.id
    ensures forall s, t :: InEdges(r, s, t) == InEdges(g, s, t)
    ensures CacheConsistent(g) ==> CacheConsistent(r)
  {
    var r := g.(nodes := g.nodes + [n], nodeSet := g.nodeSet + {n.id});
    assert r.nodes[|g.nodes|] == n;
    assert NodeIds(r) == NodeIds(g) + {n.id} by {
      forall x | x in NodeIds(r) ensures x in NodeIds(g) + {n.id} {
        var m :| m in r.nodes && m.id == x;
        if m != n { assert m in g.nodes; }
      }
    }
    r
  }

  /** `add_edge`: append the edge and record its triple in the cache. */
  function AddEdge(g: Graph, e: Edge): (r: Graph)
    ensures |r.edges| == |g.edges| + 1 && r.edges[..|g.edges|] == g.edges && r.edges[|g.edges|] == e
    ensures r.nodes == g.nodes && r.nodeSet == g.nodeSet
    ensures r.edgeSet == g.edgeSet + {TripleOf(e)}
    ensures forall s, t :: InEdges(r, s, t) <==> InEdges(g, s, t) || (s == e.source && t == e.to)
    ensures forall x :: InNodes(r, x) == InNodes(g, x)
    ensures CacheConsistent(g) ==> CacheConsistent(r)
  {
    var r := g.(edges := g.edges + [e], edgeSet := g.edgeSet + {TripleOf(e)});
    assert r.edges[|g.edges|] == e;
    assert Triples(r.edges) == Triples(g.edges) + {TripleOf(e)} by {
      forall x | x in Triples(r.edges) ensures x in Triples(g.edges) + {TripleOf(e)} {
        var d :| d in r.edges && TripleOf(d) == x;
        if d != e { assert d in g.edges; }
      }
    }
    r
  }

  /** `is_empty`: the graph has no node, whatever its edges. */
  function IsEmpty(g: Graph): (r: bool)
    ensures r <==> NodeIds(g) == {}
  {
    if |g.nodes| == 0 then true
    else
      assert g.nodes[0].id in NodeIds(g);
      false
  }

  /** Left-to-right scan of a node list for an id, as `any(...)` does. */
  function ScanNodes(ns: seq<Node>, id: string): (r: bool)
    ensures r <==> exists i :: 0 <= i < |ns| && ns[i].id == id
  {
    if |ns| == 0 then false
    else if ns[0].id == id then true
    else
      var r := ScanNodes(ns[1..], id);
      assert forall i :: 1 <= i < |ns| ==> ns[i] == ns[1..][i - 1];
      r
  }

  /** Left-to-right scan of an edge list for `source -> to`, label ignored,
      returning at the first hit as the loop of `in_edges` does. */
  function ScanEdges(es: seq<Edge>, source: string, to: string): (r: bool)
    ensures r <==> exists k :: 0 <= k < |es| && es[k].source == source && es[k].to == to
  {
    if |es| == 0 then false
    else if es[0].source == source && es[0].to == to then true
    else
      var r := ScanEdges(es[1..], source, to);
      assert forall k :: 1 <= k < |es| ==> es[k] == es[1..][k - 1];
      r
  }

  /** `in_nodes`: some node of the list has this id.  The cached set is not consulted. */
  function InNodes(g: Graph, id: string): (r: bool)
    ensures r <==> exists i :: 0 <= i < |g.nodes| && g.nodes[i].id == id
    ensures r <==> id in NodeIds(g)
  {
    ScanNodes(g.nodes, id)
  }

  /** `in_edges`: some edge of the list goes from `source` to `to`, whatever its label. */
  function InEdges(g: Graph, source: string, to: string): (r: bool)
    ensures r <==> exists k :: 0 <= k < |g.edges| && g.edges[k].source == source && g.edges[k].to == to
  {
    ScanEdges(g.edges, source, to)
  }

  /** When the caches are consistent, the list test and the cached set agree. */
  lemma CacheAnswersMembership(g: Graph, id: string)
    requires CacheConsistent(g)
    ensures InNodes(g, id) <==> id in g.nodeSet
  {
  }

  /** A graph built by the constructor from a non-empty node list holds nodes
      whose ids are missing from `ssnodes`. */
  lemma ConstructorLeavesCacheEmpty(nodes: seq<Node>, edges: seq<Edge>)
    requires |nodes| > 0
    ensures InNodes(NewGraph(nodes, edges), nodes[0].id)
    ensures nodes[0].id !in NewGraph(nodes, edges).nodeSet
    ensures !CacheConsistent(NewGraph(nodes, edges))
  {
    assert nodes[0].id in NodeIds(NewGraph(nodes, edges));
  }
}

/** JSON-shaped export and import of components/graph.py (`get_json`,
    `load_json`), on documents that are already parsed. */
module Json {
  import opened Results
  import opened Graphs

  /** A parsed JSON object whose values are strings. */
  type Object = map<string, string>

  /** A parsed graph document `{"nodes": [...], "edges": [...]}`. */
  datatype Document = Document(nodes: seq<Object>, edges: seq<Object>)

  /** `node.to_dict()`, restricted to the modelled fields. */
  function NodeObject(n: Node): Object {
    map["id" := n.id, "label" := n.caption]
  }

  /** `edge.to_dict()`, restricted to the modelled fields; the edge stores
      its source under both `source` and `from`. */
  function EdgeObject(e: Edge): Object {
    map["source" := e.source, "from" := e.source, "to" := e.to, "label" := e.caption]
  }

  /** `Node(**entry)`: the entry must carry an id and a label. */
  function NodeOf(o: Object): (r: Result<Node>)
    ensures r.Ok? <==> "id" in o && "label" in o
    ensures r.Ok? ==> r.value.id == o["id"] && r.value.caption == o["label"]
    ensures r.Err? ==> r.failure.MissingKey? && r.failure.key !in o
  {
    if "id" !in o then Err(MissingKey("id"))
    else if "label" !in o then Err(MissingKey("label"))
    else Ok(Node(o["id"], o["label"]))
  }

  /** The keys `load_json` reads or deletes from every edge entry. */
  predicate HasEdgeKeys(o: Object) {
    "source" in o && "to" in o && "label" in o && "from" in o
  }

  /** An entry the edge loop accepts: it has the four keys, and what is left
      after deleting them does not repeat the `target` keyword that the
      constructor call already passes. */
  predicate EdgeEntryOk(o: Object) {
    HasEdgeKeys(o) && "target" !in o
  }

  /** The edge `load_json` rebuilds from an entry: `source`, `to` and `label`
      are read and then `source`, `to`, `label` and `from` deleted, so the
      first absent key of these four, in that order, is the one reported;
      then the remaining keys go to `Edge(source=…, target=…, label=…, **rest)`,
      which fails when the rest still holds `target`. */
  function EdgeOf(o: Object): (r: Result<Edge>)
    ensures r.Ok? <==> EdgeEntryOk(o)
    ensures r.Ok? ==> r.value == Edge(o["source"], o["to"], o["label"])
    ensures r.Err? && r.failure.MissingKey? ==> r.failure.key !in o
    ensures r.Err? && r.failure.RepeatedKeyword? ==> HasEdgeKeys(o) && r.failure.key in o
  {
    if "source" !in o then Err(MissingKey("source"))
    else if "to" !in o then Err(MissingKey("to"))
    else if "label" !in o then Err(MissingKey("label"))
    else if "from" !in o then Err(MissingKey("from"))
    else if "target" in o then Err(RepeatedKeyword("target"))
    else Ok(Edge(o["source"], o["to"], o["label"]))
  }

  /** `[Node(**node) for node in data["nodes"]]`: all entries converted, or
      the error of the first entry that cannot be. */
  function NodesOf(os: seq<Object>): (r: Result<seq<Node>>)
    ensures r.Ok? <==> forall i :: 0 <= i < |os| ==> NodeOf(os[i]).Ok?
    ensures r.Ok? ==> |r.value| == |os| && forall i :: 0 <= i < |os| ==> NodeOf(os[i]) == Ok(r.value[i])
    ensures r.Err? ==> exists i :: 0 <= i < |os| && NodeOf(os[i]) == Err(r.failure)
  {
    if |os| == 0 then Ok([])
    else
      match NodeOf(os[0])
      case Err(k) => Err(k)
      case Ok(n) =>
        var rest := NodesOf(os[1..]);
        assert forall i :: 1 <= i < |os| ==> os[i] == os[1..][i - 1];
        match rest
        case Err(k) => Err(k)
        case Ok(ns) => Ok([n] + ns)
  }

  /** The outcome of `load_json`: the graph as it stands when the method
      returns or raises, and why it raised, if it did. */
  datatype Loaded = Loaded(graph: Graph, failure: Option<Failure>)

  /** The number of leading entries the edge loop accepts. */
  function ValidPrefix(es: seq<Object>): (n: nat)
    ensures n <= |es|
    ensures forall k :: 0 <= k < n ==> EdgeEntryOk(es[k])
    ensures n < |es| ==> !EdgeEntryOk(es[n])
  {
    if |es| == 0 || !EdgeEntryOk(es[0]) then 0
    else
      var n := ValidPrefix(es[1..]);
      assert forall k :: 1 <= k < |es| ==> es[k] == es[1..][k - 1];
      1 + n
  }

  /** The edges of entries the edge loop accepts, in order. */
  function EdgesOf(es: seq<Object>): (edges: seq<Edge>)
    requires forall k :: 0 <= k < |es| ==> EdgeEntryOk(es[k])
    ensures |edges| == |es|
    ensures forall k :: 0 <= k < |es| ==> EdgeOf(es[k]) == Ok(edges[k])
  {
    seq(|es|, k requires 0 <= k < |es| => EdgeOf(es[k]).value)
  }

  /** `r` is what the edge loop leaves when started on `g` with entries
      `es`: the nodes and node cache as they were, the edges of the leading
      accepted entries appended in order, their triples added to the cached
      edge set, and the failure of the first entry that is not accepted, if
      any. */
  predicate LoadedPrefix(g: Graph, es: seq<Object>, r: Loaded) {
    var n := ValidPrefix(es);
    && r.graph.nodes == g.nodes
    && r.graph.nodeSet == g.nodeSet
    && r.graph.edges == g.edges + EdgesOf(es[..n])
    && r.graph.edgeSet == g.edgeSet + Triples(EdgesOf(es[..n]))
    && r.failure == (if n == |es| then None else Some(EdgeOf(es[n]).failure))
  }

  /** The edge loop of `load_json`: one `add_edge` per entry, in order,
      stopping at the first entry that is not accepted.  Edges added before
      that entry stay in the graph. */
  function LoadEdges(g: Graph, es: seq<Object>): (r: Loaded)
    ensures LoadedPrefix(g, es, r)
    decreases |es|
  {
    if |es| == 0 then
      NothingLoaded(g, es);
      Loaded(g, None)
    else
      match EdgeOf(es[0])
      case Err(f) =>
        NothingLoaded(g, es);
        Loaded(g, Some(f))
      case Ok(e) =>
        var r := LoadEdges(AddEdge(g, e), es[1..]);
        LoadedPrefixCons(g, es, e, r);
        r
  }

  /** The loop stops before the first entry when there is none or it is not accepted. */
  lemma NothingLoaded(g: Graph, es: seq<Object>)
    requires |es| == 0 || !EdgeEntryOk(es[0])
    ensures LoadedPrefix(g, es, Loaded(g, if |es| == 0 then None else Some(EdgeOf(es[0]).failure)))
  {
    assert ValidPrefix(es) == 0;
    assert EdgesOf(es[..0]) == [];
    assert g.edges + [] == g.edges;
    assert Triples([]) == {};
  }

  /** One accepted entry followed by the rest of the loop is the loop. */
  lemma LoadedPrefixCons(g: Graph, es: seq<Object>, e: Edge, r: Loaded)
    requires |es| > 0 && EdgeOf(es[0]) == Ok(e)
    requires LoadedPrefix(AddEdge(g, e), es[1..], r)
    ensures LoadedPrefix(g, es, r)
  {
    var m := ValidPrefix(es[1..]);
    var rest := EdgesOf(es[1..][..m]);
    LoadEdgesStep(es, e);
    TriplesCons(g.edgeSet, e, rest);
    assert g.edges + [e] + rest == g.edges + ([e] + rest);
    FailureAfterStep(es, m);
  }

  /** Adding one triple, then those of `rest`, adds the triples of `[e] + rest`. */
  lemma TriplesCons(cache: set<Triple>, e: Edge, rest: seq<Edge>)
    ensures cache + {TripleOf(e)} + Triples(rest) == cache + Triples([e] + rest)
  {
    TriplesAppend([e], rest);
    assert Triples([e]) == {TripleOf(e)};
  }

  lemma FailureAfterStep(es: seq<Object>, m: nat)
    requires |es| > 0 && m <= |es[1..]|
    ensures m < |es[1..]| ==> es[1 + m] == es[1..][m]
    ensures m == |es[1..]| <==> 1 + m == |es|
  {
  }

  /** Peeling the first accepted entry off the prefix that `LoadEdges` consumes. */
  lemma LoadEdgesStep(es: seq<Object>, e: Edge)
    requires |es| > 0 && EdgeOf(es[0]) == Ok(e)
    ensures ValidPrefix(es) == 1 + ValidPrefix(es[1..])
    ensures EdgesOf(es[..ValidPrefix(es)]) == [e] + EdgesOf(es[1..][..ValidPrefix(es[1..])])
  {
    var n := ValidPrefix(es[1..]);
    assert ValidPrefix(es) == 1 + n;
    PrefixEdges(es, e, n);
  }

  lemma PrefixEdges(es: seq<Object>, e: Edge, n: nat)
    requires |es| > 0 && EdgeOf(es[0]) == Ok(e)
    requires n <= |es| - 1
    requires forall k :: 0 <= k < 1 + n ==> EdgeEntryOk(es[k])
    ensures EdgesOf(es[..1 + n]) == [e] + EdgesOf(es[1..][..n])
  {
    assert es[..1 + n] == [es[0]] + es[1..][..n];
  }

  /** `get_json`: one object per node and one per edge, in list order; each
      object converts back to the node or edge it came from. */
  function GetJson(g: Graph): (doc: Document)
    ensures |doc.nodes| == |g.nodes| && |doc.edges| == |g.edges|
    ensures forall i :: 0 <= i < |g.nodes| ==> NodeOf(doc.nodes[i]) == Ok(g.nodes[i])
    ensures forall k :: 0 <= k < |g.edges| ==>
              EdgeOf(doc.edges[k]) == Ok(g.edges[k]) && doc.edges[k]["from"] == g.edges[k].source
  {
    Document(seq(|g.nodes|, i requires 0 <= i < |g.nodes| => NodeObject(g.nodes[i])),
             seq(|g.edges|, k requires 0 <= k < |g.edges| => EdgeObject(g.edges[k])))
  }

  /** `load_json`: the node list is replaced by the document's nodes, in
      order, and the edge list is rebuilt by `add_edge`, one call per entry.
      The cached node set is never touched and the cached edge set only grows.
      If a node entry cannot be converted nothing changes; if an edge entry
      is not accepted the edges before it remain. */
  function LoadJson(g: Graph, doc: Document): (r: Loaded)
    ensures NodesOf(doc.nodes).Err? ==> r == Loaded(g, Some(NodesOf(doc.nodes).failure))
    ensures NodesOf(doc.nodes).Ok? ==>
              var n := ValidPrefix(doc.edges);
              && r.graph.nodes == NodesOf(doc.nodes).value
              && r.graph.edges == EdgesOf(doc.edges[..n])
              && r.graph.nodeSet == g.nodeSet
              && r.graph.edgeSet == g.edgeSet + Triples(r.graph.edges)
              && r.failure == (if n == |doc.edges| then None else Some(EdgeOf(doc.edges[n]).failure))
  {
    match NodesOf(doc.nodes)
    case Err(f) => Loaded(g, Some(f))
    case Ok(ns) => LoadEdges(g.(nodes := ns, edges := []), doc.edges)
  }

  /** What a load means for the caller: it succeeds exactly when every node
      entry converts and every edge entry carries `source`, `to`, `label` and
      `from` but no `target`; on success the nodes and edges are the document's, in order. The
      cached node set is never changed and the cached edge set only grows. */
  lemma LoadJsonOutcome(g: Graph, doc: Document)
    ensures var r := LoadJson(g, doc);
      && (r.failure.None? <==>
           (forall i :: 0 <= i < |doc.nodes| ==> NodeOf(doc.nodes[i]).Ok?)
           && (forall k :: 0 <= k < |doc.edges| ==> EdgeEntryOk(doc.edges[k])))
      && (r.failure.None? ==>
           && |r.graph.nodes| == |doc.nodes|
           && (forall i :: 0 <= i < |doc.nodes| ==> NodeOf(doc.nodes[i]) == Ok(r.graph.nodes[i]))
           && |r.graph.edges| == |doc.edges|
           && (forall k :: 0 <= k < |doc.edges| ==> EdgeOf(doc.edges[k]) == Ok(r.graph.edges[k])))
      && r.graph.nodeSet == g.nodeSet
      && g.edgeSet <= r.graph.edgeSet
  {
    var n := ValidPrefix(doc.edges);
    if n == |doc.edges| {
      assert doc.edges[..n] == doc.edges;
    }
  }

  /** Exporting and importing into a fresh graph gives back the same node and
      edge lists.  The cached edge set is rebuilt, the cached node set stays
      empty. */
  lemma ExportImportRoundTrip(g: Graph)
    ensures LoadJson(Empty(), GetJson(g)) == Loaded(Graph(g.nodes, g.edges, {}, Triples(g.edges)), None)
  {
    var doc := GetJson(g);
    var r := LoadJson(Empty(), doc);
    assert forall k :: 0 <= k < |doc.edges| ==> EdgeEntryOk(doc.edges[k]);
    assert r.failure.None?;
    assert r.graph.nodes == g.nodes;
    assert r.graph.edges == g.edges;
  }

  /** Export, import, export again: the same document. */
  lemma ExportIsStable(g: Graph)
    ensures GetJson(LoadJson(Empty(), GetJson(g)).graph) == GetJson(g)
  {
    ExportImportRoundTrip(g);
  }

  /** A successful load into a fresh graph leaves every loaded node id out of
      `ssnodes`, so the caches no longer describe the lists. */
  lemma LoadLeavesNodeCacheStale(doc: Document)
    requires LoadJson(Empty(), doc).failure.None?
    requires |doc.nodes| > 0
    ensures forall i :: 0 <= i < |doc.nodes| ==> LoadJson(Empty(), doc).graph.nodes[i].id !in LoadJson(Empty(), doc).graph.nodeSet
    ensures !CacheConsistent(LoadJson(Empty(), doc).graph)
  {
    var g := LoadJson(Empty(), doc).graph;
    assert g.nodes[0].id in NodeIds(g);
  }
}

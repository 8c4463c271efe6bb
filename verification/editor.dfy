/** The guarded editor actions of app.py, as transitions over the session
    state: add node, add edge (with optional reverse edge), clear, rename the
    project and load a document. */
module Editor {
  import opened Results
  import opened Graphs
  import Json

  /** The session state the actions read and write: the graph, the set of
      state names ever added (`states_set`) and the project name. */
  datatype Session = Session(graph: Graph, states: set<string>, projectName: string)

  /** Node ids are pairwise distinct. */
  predicate UniqueIds(g: Graph) {
    forall i, j :: 0 <= i < j < |g.nodes| ==> g.nodes[i].id != g.nodes[j].id
  }

  /** At most one edge per ordered `(source, to)` pair. */
  predicate SingleEdges(g: Graph) {
    forall a, b :: 0 <= a < b < |g.edges| ==>
      g.edges[a].source != g.edges[b].source || g.edges[a].to != g.edges[b].to
  }

  /** Every edge endpoint is the id of some node. */
  predicate EndpointsExist(g: Graph) {
    forall k :: 0 <= k < |g.edges| ==> InNodes(g, g.edges[k].source) && InNodes(g, g.edges[k].to)
  }

  predicate WellFormed(g: Graph) {
    UniqueIds(g) && SingleEdges(g) && EndpointsExist(g)
  }

  /** The session invariant kept by the add, clear and rename actions: the
      graph is well formed, its caches describe its lists, and every node id
      is a recorded state name. */
  predicate Inv(s: Session) {
    WellFormed(s.graph) && CacheConsistent(s.graph) && NodeIds(s.graph) <= s.states
  }

  /** The session as the page first creates it. */
  function Init(): (s: Session)
    ensures Inv(s) && IsEmpty(s.graph) && s.states == {}
  {
    Session(Empty(), {}, "Proyecto")
  }

  function Digit(d: nat): char
    requires d < 10
  {
    (48 + d) as char
  }

  predicate IsDigit(c: char) {
    '0' <= c <= '9'
  }

  /** `"%0.2f" % w` for a weight in [0, 1], the weight given in hundredths. */
  function WeightLabel(hundredths: nat): (r: string)
    requires hundredths <= 100
    ensures |r| == 4 && r[1] == '.' && IsDigit(r[0]) && IsDigit(r[2]) && IsDigit(r[3])
    ensures r[0] == (if hundredths == 100 then '1' else '0')
  {
    [Digit(hundredths / 100), '.', Digit(hundredths / 10 % 10), Digit(hundredths % 10)]
  }

  /** Reads a label `d.dd` back as a number of hundredths. */
  function ParseWeightLabel(s: string): Option<nat> {
    if |s| == 4 && s[1] == '.' && IsDigit(s[0]) && IsDigit(s[2]) && IsDigit(s[3]) then
      Some(100 * (s[0] as int - 48) + 10 * (s[2] as int - 48) + (s[3] as int - 48))
    else None
  }

  /** The label of a weight determines the weight: reading it back gives the
      weight, so distinct weights get distinct labels. */
  lemma WeightLabelRoundTrip(hundredths: nat)
    requires hundredths <= 100
    ensures ParseWeightLabel(WeightLabel(hundredths)) == Some(hundredths)
  {
  }

  /** "Add node": enabled only for a non-empty name; adds a node with that id
      and label unless a node with that id exists, and records the name. */
  function AddNodeAction(s: Session, name: string): (r: Session)
    ensures r.projectName == s.projectName && r.graph.edges == s.graph.edges
    ensures |name| == 0 || InNodes(s.graph, name) ==> r == s
    ensures |name| > 0 && !InNodes(s.graph, name) ==>
              && |r.graph.nodes| == |s.graph.nodes| + 1
              && r.graph.nodes[..|s.graph.nodes|] == s.graph.nodes
              && r.graph.nodes[|s.graph.nodes|] == Node(name, name)
              && r.states == s.states + {name}
    ensures forall x :: InNodes(r.graph, x) <==> InNodes(s.graph, x) || (|name| > 0 && x == name)
    ensures s.states <= r.states
  {
    if |name| == 0 || InNodes(s.graph, name) then s
    else s.(graph := AddNode(s.graph, Node(name, name)), states := s.states + {name})
  }

  /** The edges an "add edge" press appends, stated against the graph before
      the press: the forward edge when both endpoints exist and no
      `source -> target` edge does; the reverse edge when it was requested,
      the endpoints differ and no `target -> source` edge exists, whether or
      not the forward edge was added. */
  function ExpectedNewEdges(g: Graph, source: string, target: string, weight: nat, back: Option<nat>): seq<Edge>
    requires weight <= 100 && (back.Some? ==> back.value <= 100)
  {
    var enabled := !IsEmpty(g) && InNodes(g, source) && InNodes(g, target);
    (if enabled && !InEdges(g, source, target) then [Edge(source, target, WeightLabel(weight))] else [])
    + (if enabled && back.Some? && source != target && !InEdges(g, target, source)
       then [Edge(target, source, WeightLabel(back.value))] else [])
  }

  /** One guarded insertion of the handler: the edge is added unless an edge
      with the same source and target already exists. */
  function AddEdgeIfAbsent(g: Graph, e: Edge): (r: Graph)
    ensures r.nodes == g.nodes && r.nodeSet == g.nodeSet
    ensures r.edges == g.edges + (if InEdges(g, e.source, e.to) then [] else [e])
    ensures r.edgeSet == g.edgeSet + (if InEdges(g, e.source, e.to) then {} else {TripleOf(e)})
    ensures InEdges(r, e.source, e.to)
    ensures forall x, y :: (x != e.source || y != e.to) ==> InEdges(r, x, y) == InEdges(g, x, y)
  {
    if InEdges(g, e.source, e.to) then g else AddEdge(g, e)
  }

  /** "Add edge", as written: nothing happens on an empty graph (the button
      is disabled) or when an endpoint is missing; otherwise the forward edge
      is added if absent, then, when requested and the endpoints differ, the
      reverse edge is added if absent in the graph as it is after the
      forward step. */
  function AddEdgeAction(s: Session, source: string, target: string, weight: nat, back: Option<nat>): (r: Session)
    requires weight <= 100 && (back.Some? ==> back.value <= 100)
    ensures r.states == s.states && r.projectName == s.projectName
    ensures r.graph.nodes == s.graph.nodes && r.graph.nodeSet == s.graph.nodeSet
    ensures !InNodes(s.graph, source) || !InNodes(s.graph, target) ==> r == s
    ensures InNodes(s.graph, source) && InNodes(s.graph, target) ==>
              InEdges(r.graph, source, target) && (back.Some? ==> InEdges(r.graph, target, source))
  {
    var g := s.graph;
    if IsEmpty(g) || !InNodes(g, source) || !InNodes(g, target) then s
    else
      var g1 := AddEdgeIfAbsent(g, Edge(source, target, WeightLabel(weight)));
      var g2 := if back.Some? && source != target
                then AddEdgeIfAbsent(g1, Edge(target, source, WeightLabel(back.value)))
                else g1;
      s.(graph := g2)
  }

  /** The enabled press without a reverse step appends the forward edge if absent. */
  lemma AppendsForwardOnly(s: Session, source: string, target: string, weight: nat, back: Option<nat>)
    requires weight <= 100 && (back.Some? ==> back.value <= 100)
    requires !IsEmpty(s.graph) && InNodes(s.graph, source) && InNodes(s.graph, target)
    requires back.None? || source == target
    ensures AddEdgeAction(s, source, target, weight, back).graph.edges
            == s.graph.edges + ExpectedNewEdges(s.graph, source, target, weight, back)
  {
    var g := s.graph;
    var forward := Edge(source, target, WeightLabel(weight));
    var first: seq<Edge> := if InEdges(g, source, target) then [] else [forward];
    assert AddEdgeAction(s, source, target, weight, back).graph == AddEdgeIfAbsent(g, forward);
    assert ExpectedNewEdges(g, source, target, weight, back) == first + [];
  }

  /** The enabled press with a reverse step appends the forward edge if
      absent, then the reverse edge if absent; adding the forward edge never
      changes whether the reverse edge is present, as the endpoints differ. */
  lemma AppendsWithReverse(s: Session, source: string, target: string, weight: nat, back: Option<nat>)
    requires weight <= 100 && (back.Some? ==> back.value <= 100)
    requires !IsEmpty(s.graph) && InNodes(s.graph, source) && InNodes(s.graph, target)
    requires back.Some? && source != target
    ensures AddEdgeAction(s, source, target, weight, back).graph.edges
            == s.graph.edges + ExpectedNewEdges(s.graph, source, target, weight, back)
  {
    var g := s.graph;
    var forward := Edge(source, target, WeightLabel(weight));
    var reverse := Edge(target, source, WeightLabel(back.value));
    var g1 := AddEdgeIfAbsent(g, forward);
    var first: seq<Edge> := if InEdges(g, source, target) then [] else [forward];
    var second: seq<Edge> := if InEdges(g, target, source) then [] else [reverse];
    assert InEdges(g1, target, source) == InEdges(g, target, source);
    assert AddEdgeAction(s, source, target, weight, back).graph == AddEdgeIfAbsent(g1, reverse);
    assert ExpectedNewEdges(g, source, target, weight, back) == first + second;
    assert g.edges + first + second == g.edges + (first + second);
  }

  /** The handler appends exactly the edges of the reference description. */
  lemma AddEdgeActionAppends(s: Session, source: string, target: string, weight: nat, back: Option<nat>)
    requires weight <= 100 && (back.Some? ==> back.value <= 100)
    ensures AddEdgeAction(s, source, target, weight, back).graph.edges
            == s.graph.edges + ExpectedNewEdges(s.graph, source, target, weight, back)
  {
    var g := s.graph;
    if IsEmpty(g) || !InNodes(g, source) || !InNodes(g, target) {
      assert ExpectedNewEdges(g, source, target, weight, back) == [];
    } else if back.Some? && source != target {
      AppendsWithReverse(s, source, target, weight, back);
    } else {
      AppendsForwardOnly(s, source, target, weight, back);
    }
  }

  /** "Clear graph": a fresh empty graph; the recorded state names stay. */
  function ClearAction(s: Session): (r: Session)
    ensures IsEmpty(r.graph) && r.graph.edges == [] && CacheConsistent(r.graph)
    ensures r.states == s.states && r.projectName == s.projectName
  {
    s.(graph := Empty())
  }

  /** The project-name field: only a non-empty input replaces the name. */
  function RenameAction(s: Session, input: string): (r: Session)
    ensures r.graph == s.graph && r.states == s.states
    ensures r.projectName == (if |input| > 0 then input else s.projectName)
    ensures |r.projectName| > 0 || r.projectName == s.projectName
  {
    if |input| > 0 then s.(projectName := input) else s
  }

  /** `name.split(".")[0]`: the file name up to its first `.`. */
  function Stem(name: string): (r: string)
    ensures |r| <= |name| && r == name[..|r|]
    ensures '.' !in r
    ensures |r| < |name| ==> name[|r|] == '.'
  {
    if |name| == 0 || name[0] == '.' then ""
    else [name[0]] + Stem(name[1..])
  }

  /** A name made of a dot-free base, a `.` and an extension has the base
      as its stem, whatever the extension holds. */
  lemma {:induction false} StemDropsExtension(base: string, ext: string)
    requires '.' !in base
    ensures Stem(base + "." + ext) == base
  {
    if |base| > 0 {
      assert (base + "." + ext)[1..] == base[1..] + "." + ext;
      StemDropsExtension(base[1..], ext);
    }
  }

  /** Loading a document (uploaded or chosen among the examples): the
      session graph becomes a fresh graph into which the document is loaded;
      the project name becomes the file's stem only if the load did not fail,
      since a failure raises before the name is set.  The recorded state
      names are untouched. */
  function LoadAction(s: Session, fileName: string, doc: Json.Document): (r: Session)
    ensures r.graph == Json.LoadJson(Empty(), doc).graph && r.states == s.states
    ensures r.projectName == (if Json.LoadJson(Empty(), doc).failure.None? then Stem(fileName) else s.projectName)
    ensures r.graph.nodeSet == {}
  {
    var loaded := Json.LoadJson(Empty(), doc);
    if loaded.failure.None? then s.(graph := loaded.graph, projectName := Stem(fileName))
    else s.(graph := loaded.graph)
  }

  lemma AddNodeKeepsWellFormed(g: Graph, n: Node)
    requires WellFormed(g) && !InNodes(g, n.id)
    ensures WellFormed(AddNode(g, n))
  {
    var r := AddNode(g, n);
    forall i, j | 0 <= i < j < |r.nodes| ensures r.nodes[i].id != r.nodes[j].id {
      if j == |g.nodes| {
        assert r.nodes[i] == g.nodes[i];
      } else {
        assert r.nodes[i] == g.nodes[i] && r.nodes[j] == g.nodes[j];
      }
    }
  }

  /** A new edge whose pair is absent keeps the pairs distinct. */
  lemma AddEdgeKeepsSingleEdges(g: Graph, e: Edge)
    requires SingleEdges(g) && !InEdges(g, e.source, e.to)
    ensures SingleEdges(AddEdge(g, e))
  {
    var r := AddEdge(g, e);
    assert r.edges == g.edges + [e];
    forall a, b | 0 <= a < b < |r.edges|
      ensures r.edges[a].source != r.edges[b].source || r.edges[a].to != r.edges[b].to
    {
      assert r.edges[a] == g.edges[a];
      if b < |g.edges| {
        assert r.edges[b] == g.edges[b];
      } else {
        assert r.edges[b] == e;
      }
    }
  }

  /** A new edge between existing nodes keeps every endpoint a node. */
  lemma AddEdgeKeepsEndpoints(g: Graph, e: Edge)
    requires EndpointsExist(g) && InNodes(g, e.source) && InNodes(g, e.to)
    ensures EndpointsExist(AddEdge(g, e))
  {
    var r := AddEdge(g, e);
    assert r.edges == g.edges + [e] && r.nodes == g.nodes;
    forall k | 0 <= k < |r.edges| ensures InNodes(r, r.edges[k].source) && InNodes(r, r.edges[k].to) {
      if k < |g.edges| {
        assert r.edges[k] == g.edges[k];
      }
    }
  }

  lemma AddEdgeKeepsWellFormed(g: Graph, e: Edge)
    requires WellFormed(g) && InNodes(g, e.source) && InNodes(g, e.to) && !InEdges(g, e.source, e.to)
    ensures WellFormed(AddEdge(g, e))
  {
    AddEdgeKeepsSingleEdges(g, e);
    AddEdgeKeepsEndpoints(g, e);
  }

  /** "Add node" keeps the session invariant. */
  lemma AddNodePreservesInv(s: Session, name: string)
    requires Inv(s)
    ensures Inv(AddNodeAction(s, name))
  {
    if |name| > 0 && !InNodes(s.graph, name) {
      AddNodeKeepsWellFormed(s.graph, Node(name, name));
    }
  }

  /** "Add edge" keeps the session invariant: no duplicate ordered pair and
      no dangling endpoint is ever introduced. */
  lemma AddEdgePreservesInv(s: Session, source: string, target: string, weight: nat, back: Option<nat>)
    requires weight <= 100 && (back.Some? ==> back.value <= 100)
    requires Inv(s)
    ensures Inv(AddEdgeAction(s, source, target, weight, back))
  {
    var g := s.graph;
    if !IsEmpty(g) && InNodes(g, source) && InNodes(g, target) {
      var forward := Edge(source, target, WeightLabel(weight));
      var g1 := if !InEdges(g, source, target) then AddEdge(g, forward) else g;
      if !InEdges(g, source, target) {
        AddEdgeKeepsWellFormed(g, forward);
      }
      if back.Some? && source != target && !InEdges(g1, target, source) {
        AddEdgeKeepsWellFormed(g1, Edge(target, source, WeightLabel(back.value)));
      }
    }
  }

  /** "Clear graph" keeps the session invariant. */
  lemma ClearPreservesInv(s: Session)
    requires Inv(s)
    ensures Inv(ClearAction(s))
  {
  }

  /** Renaming the project keeps the session invariant. */
  lemma RenamePreservesInv(s: Session, input: string)
    requires Inv(s)
    ensures Inv(RenameAction(s, input))
  {
  }

  /** The document of `LoadCanBreakWellFormed`: two nodes with id `a` and
      one edge from `a` to `b`, for which there is no node. */
  function UnguardedDocument(): Json.Document {
    Json.Document([map["id" := "a", "label" := "a"], map["id" := "a", "label" := "a"]],
                  [map["source" := "a", "to" := "b", "label" := "0.50", "from" := "a"]])
  }

  /** The document of `LoadCanBreakWellFormed` loads without failure, into
      its two nodes and its one edge. */
  lemma UnguardedDocumentLoads()
    ensures var loaded := Json.LoadJson(Empty(), UnguardedDocument());
            && loaded.failure.None?
            && loaded.graph.nodes == [Node("a", "a"), Node("a", "a")]
            && loaded.graph.edges == [Edge("a", "b", "0.50")]
  {
    var doc := UnguardedDocument();
    var entry := doc.edges[0];
    assert Json.NodeOf(doc.nodes[0]) == Ok(Node("a", "a"));
    assert Json.NodeOf(doc.nodes[1]) == Ok(Node("a", "a"));
    var nodes := Json.NodesOf(doc.nodes);
    assert nodes.Ok? && nodes.value[0] == Node("a", "a") && nodes.value[1] == Node("a", "a");
    assert nodes.value == [Node("a", "a"), Node("a", "a")];
    assert Json.EdgeOf(entry) == Ok(Edge("a", "b", "0.50"));
    assert Json.ValidPrefix(doc.edges) == 1;
    assert doc.edges[..1] == doc.edges;
    assert Json.EdgesOf(doc.edges) == [Edge("a", "b", "0.50")];
  }

  /** Loading is not guarded: a document with two nodes of the same id and
      an edge to a missing node loads, whatever the file is called, and the
      loaded graph is not well formed; the project takes the file's stem. */
  lemma LoadCanBreakWellFormed(fileName: string)
    ensures var r := LoadAction(Init(), fileName, UnguardedDocument());
            !UniqueIds(r.graph) && !EndpointsExist(r.graph) && r.projectName == Stem(fileName)
  {
    UnguardedDocumentLoads();
    var r := LoadAction(Init(), fileName, UnguardedDocument());
    assert r.graph.nodes[0].id == "a" == r.graph.nodes[1].id;
    assert r.graph.edges[0].to == "b";
    assert !InNodes(r.graph, "b");
  }

  /** A document whose edge entry still holds a `target` key fails to load:
      the failure names the repeated keyword, no edge is added and the
      project keeps its name. */
  lemma LoadRejectsTargetKey(fileName: string)
    ensures var doc := Json.Document([map["id" := "a", "label" := "a"]],
                                     [map["source" := "a", "to" := "a", "label" := "0.50", "from" := "a", "target" := "a"]]);
            var loaded := Json.LoadJson(Empty(), doc);
            var r := LoadAction(Init(), fileName, doc);
            && loaded.failure == Some(RepeatedKeyword("target"))
            && r.graph.edges == []
            && r.projectName == Init().projectName
  {
    var doc := Json.Document([map["id" := "a", "label" := "a"]],
                             [map["source" := "a", "to" := "a", "label" := "0.50", "from" := "a", "target" := "a"]]);
    assert Json.NodeOf(doc.nodes[0]) == Ok(Node("a", "a"));
    assert Json.EdgeOf(doc.edges[0]) == Err(RepeatedKeyword("target"));
    assert !Json.EdgeEntryOk(doc.edges[0]);
    assert Json.ValidPrefix(doc.edges) == 0;
    assert doc.edges[..0] == [];
  }

  /** Clearing forgets the nodes but not the recorded state names. */
  lemma ClearKeepsStateNames(name: string)
    requires |name| > 0
    ensures var r := ClearAction(AddNodeAction(Init(), name));
            name in r.states && !InNodes(r.graph, name)
  {
  }

  /** Once the project has a name, renaming never leaves it empty. */
  lemma RenameKeepsNameNonEmpty(s: Session, input: string)
    requires |s.projectName| > 0
    ensures |RenameAction(s, input).projectName| > 0
  {
  }

  /** The user interactions of the page, one per press or edit. */
  datatype Action =
    | AddNodePress(name: string)
    | AddEdgePress(source: string, target: string, weight: nat, back: Option<nat>)
    | ClearPress
    | Rename(input: string)
    | Load(fileName: string, doc: Json.Document)

  /** The weight inputs accept values in [0, 1] only. */
  predicate ValidAction(a: Action) {
    a.AddEdgePress? ==> a.weight <= 100 && (a.back.Some? ==> a.back.value <= 100)
  }

  function Step(s: Session, a: Action): Session
    requires ValidAction(a)
  {
    match a
    case AddNodePress(name) => AddNodeAction(s, name)
    case AddEdgePress(source, target, weight, back) => AddEdgeAction(s, source, target, weight, back)
    case ClearPress => ClearAction(s)
    case Rename(input) => RenameAction(s, input)
    case Load(fileName, doc) => LoadAction(s, fileName, doc)
  }

  /** The session after a sequence of interactions, applied in order. */
  function Run(s: Session, actions: seq<Action>): (r: Session)
    requires forall i :: 0 <= i < |actions| ==> ValidAction(actions[i])
    ensures s.states <= r.states
    decreases |actions|
  {
    if |actions| == 0 then s
    else
      var next := Step(s, actions[0]);
      assert next.states >= s.states;
      Run(next, actions[1..])
  }

  /** Every session reached from a valid one by add, clear and rename
      interactions, without loading, is valid: node ids stay distinct, no
      ordered pair gets two edges, no edge dangles, the caches stay exact and
      every node id stays a recorded state name. */
  lemma {:induction false} GuardedRunPreservesInv(s: Session, actions: seq<Action>)
    requires forall i :: 0 <= i < |actions| ==> ValidAction(actions[i]) && !actions[i].Load?
    requires Inv(s)
    ensures Inv(Run(s, actions))
    decreases |actions|
  {
    if |actions| > 0 {
      var a := actions[0];
      match a {
        case AddNodePress(name) => AddNodePreservesInv(s, name);
        case AddEdgePress(source, target, weight, back) => AddEdgePreservesInv(s, source, target, weight, back);
        case ClearPress => ClearPreservesInv(s);
        case Rename(input) => RenamePreservesInv(s, input);
      }
      assert forall i :: 1 <= i < |actions| ==> actions[1..][i - 1] == actions[i];
      GuardedRunPreservesInv(Step(s, a), actions[1..]);
    }
  }
}

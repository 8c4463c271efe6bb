# Graph editor model

A Dafny model of the graph-editing core of a small Markov-chain studio: the
directed-graph container (`Graph` in `components/graph.py`) and the guarded
editor actions of the page script (`app.py`) that add nodes and edges, clear
the graph, rename the project and load a saved document.

The container keeps an ordered list of nodes, an ordered list of edges and two
cached sets, the node ids (`ssnodes`) and the `(source, to, label)` triples
(`sedges`). Only `add_node` and `add_edge` update the caches, so a graph built
by the constructor or by `load_json` has caches that no longer describe its
lists. The model keeps this visible: `CacheConsistent` holds for graphs built
by the editor actions and provably fails after a non-empty load.

Modules:

- `Results` (results.dfy): `Option`, `Result` and the `Failure` a `Result`
  error carries. A failure is either the first key an entry lacks, which
  makes the node constructor, an edge lookup or a `del` raise, or a key that
  an edge entry still holds although the edge constructor already receives
  it as a keyword.
- `Graphs` (graph.dfy): `Node`, `Edge` and `Graph`, plus append, emptiness and
  the membership scans.
- `Views` (views.dfy): the adjacency and incidence views. Each is a method
  whose loops follow the source's loops, checked against a recursive
  reference definition of a row.
- `Dot` (dot.dfy): the DOT serialiser. The method follows the source's two
  branches and its `nodeids` list. It is proved equal to one reference text:
  the edge lines, then the lines of unreferenced nodes.
- `Json` (json.dfy): export to a parsed JSON document and import from one,
  including the partial effect of a load that fails part-way.
- `Editor` (editor.dfy): the session state (graph, `states_set`, project
  name), the add-node, add-edge, clear, rename and load actions, and the
  well-formedness invariant they keep. Well-formed means distinct node ids,
  at most one edge per ordered pair, and no dangling endpoint.

Labels are called `caption` in the Dafny records because `label` is a Dafny
keyword. An edge weight is an integer number of hundredths in 0..100, and its
label is the four-character text `d.dd` that `"%0.2f"` prints for it.

## Model

| member | source | states |
|---|---|---|
| Graphs.Empty | components/graph.py:5-9 | a fresh graph has no nodes and no edges, and its empty caches describe its empty lists |
| Graphs.ConstructorLeavesCacheEmpty | components/graph.py:5-9 | nodes given to the constructor are in the list, so `in_nodes` finds them, but their ids are missing from `ssnodes`, so the caches are inconsistent |
| Graphs.AddNode | components/graph.py:11-13 | appends exactly one node at the end and leaves the edges and edge cache alone; the node's id joins `ssnodes`; afterwards `in_nodes` holds for exactly the old ids plus the new one; cache consistency is preserved |
| Graphs.AddEdge | components/graph.py:15-18 | appends exactly one edge at the end and leaves the nodes alone; the `(source, to, label)` triple joins `sedges`; afterwards `in_edges` holds for exactly the old pairs plus the new one; cache consistency is preserved |
| Graphs.IsEmpty | components/graph.py:26-27 | true iff the graph has no node id, whatever its edges |
| Graphs.ScanNodes | components/graph.py:29-30 | the scan over the node list finds an id iff some node in the list has it |
| Graphs.InNodes | components/graph.py:29-30 | existence of a node with the id in the list, equal to membership in the list's id set, with the cached set not consulted |
| Graphs.ScanEdges | components/graph.py:32-38 | the early-return loop finds `source -> to` iff some edge in the list has that source and target |
| Graphs.InEdges | components/graph.py:32-38 | existence of an edge with the given source and target; the label plays no part |
| Graphs.CacheAnswersMembership | components/graph.py:11-18 | while the caches are consistent, `in_nodes` and membership in `ssnodes` agree |
| Views.GetAdjacency | components/graph.py:40-49 | one row per node, in node order, keyed by the node id; row i is the reference adjacency row of node i |
| Views.AdjacencyRowSelects | components/graph.py:40-49 | an adjacency row is the in-order selection of node ids reached by an edge: strictly increasing positions, each selected node has an edge from the row's node, and every such node is selected |
| Views.AdjacencyRowMembers | components/graph.py:40-49 | an id is in a row iff some node has that id and the row's node has an edge to it; the row is never longer than the node list |
| Views.GetIncidence | components/graph.py:51-60 | one row per edge, in edge order, keyed by the edge's source; row k lists the ids of the nodes equal to edge k's target |
| Views.IncidenceRowMembers | components/graph.py:51-60 | an incidence row only repeats the edge's target, and it is empty exactly when no node has that id |
| Views.IncidenceRowUnique | components/graph.py:51-60 | with distinct node ids, the row of an edge whose target exists is exactly that target |
| Dot.EmitAllNodes | components/graph.py:65-68 | the no-edge branch emits the node line of every node, in order |
| Dot.EmitEdges | components/graph.py:69-78 | the edge loop emits one line per edge, in order, and its `nodeids` list holds exactly the ids used as an edge's source or target |
| Dot.EmitUnused | components/graph.py:80-83 | the node loop emits, in order, the lines of the nodes whose id was not collected |
| Dot.ToDot | components/graph.py:63-85 | both branches of `to_dot` produce the reference text: header, edge lines, lines of unreferenced nodes, `}` |
| Dot.NoEdgesEveryNode | components/graph.py:63-68 | without edges every node is unreferenced, so every node gets one line |
| Dot.DotLinesShape | components/graph.py:69-83 | the body has one line per edge in edge order, then one line per node that is neither source nor target of any edge, in node order, for \|edges\| + \|unreferenced nodes\| lines |
| Dot.DotFraming | components/graph.py:64-84 | the text starts with the kind followed by ` G {` and a newline, and ends with `}` |
| Dot.DotNewlineCount | components/graph.py:63-85 | when no id, label or kind holds a newline, the text has exactly 1 + \|edges\| + \|unreferenced nodes\| newlines |
| Json.GetJson | components/graph.py:104-108 | one object per node and per edge, in order; each converts back to its node or edge, and an edge object repeats the source under `from` |
| Json.NodeOf | components/graph.py:111 | a node entry converts iff it has `id` and `label`, taking its fields from them; otherwise the error names a key the entry lacks |
| Json.NodesOf | components/graph.py:111 | the node list converts iff every entry does, entry by entry and in order; otherwise the error comes from some failing entry |
| Json.EdgeOf | components/graph.py:113-122 | an edge entry is accepted iff it has `source`, `to`, `label` and `from` and no `target`, and yields the edge of the first three; otherwise the error names a key the entry lacks, or, with all four present, the `target` key it repeats |
| Json.ValidPrefix | components/graph.py:113-122 | the length of the leading run of accepted entries (all four edge keys, no `target`), and the entry after the run is not accepted |
| Json.LoadEdges | components/graph.py:112-122 | the edge loop adds, in order, the edges of the leading run of accepted entries, and their triples join `sedges`; it fails with the failure of the first entry not accepted |
| Json.LoadJson | components/graph.py:110-122 | a failing node entry leaves the graph unchanged; otherwise the nodes are replaced by the document's nodes, the edges are rebuilt from the leading accepted entries, `ssnodes` is untouched and `sedges` only grows |
| Json.LoadJsonOutcome | components/graph.py:110-122 | a load succeeds iff every node entry converts and every edge entry has the four keys and no `target`; on success the nodes and edges are the document's, in order; `ssnodes` never changes and `sedges` never shrinks |
| Json.ExportImportRoundTrip | components/graph.py:104-122 | loading the export into a fresh graph gives back the same node and edge lists, with `sedges` rebuilt and `ssnodes` empty |
| Json.ExportIsStable | components/graph.py:104-122 | export, import, export yields the same document |
| Json.LoadLeavesNodeCacheStale | components/graph.py:110-122 | after a successful non-empty load into a fresh graph no loaded node id is in `ssnodes`, so the caches are inconsistent |
| Editor.Init | app.py:12-19 | the first session has an empty graph and no recorded state name, and it satisfies the session invariant |
| Editor.WeightLabel | app.py:76 | the label of a weight in [0, 1] is a digit, a point and two digits; the leading digit is 1 only for weight 1 |
| Editor.WeightLabelRoundTrip | app.py:76 | reading a weight's label back gives the weight, so distinct weights get distinct labels |
| Editor.AddNodeAction | app.py:43-55 | an empty name or an existing id leaves the session unchanged; otherwise exactly one node, id and label equal to the name, is appended and the name is recorded; the edges never change and recorded names never disappear |
| Editor.AddEdgeIfAbsent | app.py:73-84 | one guarded insertion: the edge is appended iff no edge has its source and target, and afterwards such an edge exists; every other pair keeps its answer |
| Editor.AddEdgeAction | app.py:69-96 | a missing endpoint leaves the session unchanged; nodes, node cache, recorded names and project name never change; once both endpoints exist, afterwards the forward edge exists and, if requested, the reverse edge too |
| Editor.AddEdgeActionAppends | app.py:69-96 | the appended edges are exactly: the forward edge if no `source -> target` edge existed; then the reverse edge if requested, the endpoints differ and no `target -> source` edge existed before the press, whether or not the forward edge was added |
| Editor.AppendsForwardOnly | app.py:69-84 | with both endpoints present and no reverse step, the press appends the forward edge exactly when no `source -> target` edge existed |
| Editor.AppendsWithReverse | app.py:69-96 | with both endpoints present, a requested reverse edge and distinct endpoints, the press appends the forward edge if absent and then the reverse edge if absent before the press |
| Editor.ClearAction | app.py:98-100 | the graph becomes empty with consistent caches; `states_set` and the project name are kept |
| Editor.ClearKeepsStateNames | app.py:43-100 | after adding a node and clearing, the name is still recorded although no node has it |
| Editor.RenameAction | app.py:21-23 | only a non-empty input replaces the project name; the graph and the recorded names are untouched |
| Editor.RenameKeepsNameNonEmpty | app.py:18-23 | once the project name is non-empty, renaming never empties it |
| Editor.Stem | app.py:108 | the stem is the prefix of the file name before its first `.`: it holds no `.`, and is either the whole name or followed by a `.` |
| Editor.StemDropsExtension | app.py:108 | a name made of a dot-free base, a `.` and any extension has the base as its stem |
| Editor.LoadAction | app.py:103-118 | the session graph becomes the fresh graph after loading the document, with `ssnodes` empty; the project name becomes the file's stem only if the load did not fail; recorded names are kept |
| Editor.AddNodeKeepsWellFormed | app.py:45-53 | appending a node whose id is absent keeps ids distinct, single edges and existing endpoints |
| Editor.AddEdgeKeepsSingleEdges | app.py:73-94 | appending an edge whose ordered pair is absent keeps at most one edge per ordered pair |
| Editor.AddEdgeKeepsEndpoints | app.py:70-94 | appending an edge between existing nodes keeps every endpoint a node id |
| Editor.AddEdgeKeepsWellFormed | app.py:73-94 | appending an edge between existing nodes whose ordered pair is absent keeps the graph well formed |
| Editor.AddNodePreservesInv | app.py:43-55 | the add-node action keeps the session invariant: well-formed graph, consistent caches, every node id recorded |
| Editor.AddEdgePreservesInv | app.py:69-96 | the add-edge action, reverse edge included, keeps the session invariant |
| Editor.ClearPreservesInv | app.py:98-100 | clearing keeps the session invariant |
| Editor.RenamePreservesInv | app.py:21-23 | renaming keeps the session invariant |
| Editor.LoadCanBreakWellFormed | app.py:103-108 | a load is not guarded: a document with two nodes of one id and an edge to a missing node loads, the graph has neither distinct ids nor existing endpoints, and the project becomes the file's stem |
| Editor.LoadRejectsTargetKey | app.py:103-108 | an edge entry that still holds `target` makes the load fail with that repeated keyword; no edge is added and the project keeps its name |
| Editor.Run | app.py:43-118 | along any sequence of interactions the recorded state names only grow |
| Editor.GuardedRunPreservesInv | app.py:43-100 | every session reached from a valid one by add-node, add-edge, clear and rename interactions is valid |

## Left out

- Rendering and widgets are not modelled. This covers `render_graph` and `agraph` (components/graph.py:87-100), `st.graphviz_chart`, popovers, buttons, toggles, the colour and shape pickers, and the `st.error` and `st.write` messages. A handler's error branch is modelled as "session unchanged".
- The Markov-chain analysis called at app.py:143-149 (`render_properties`, `render_expression_calculation`, `render_simulation`) is defined in a file that is not part of this model.
- File and OS access is not modelled: `json.load`, the file uploader, `listdir` and `open` (app.py:103-118). `LoadAction` takes the parsed document and the file name, and a load is one discrete `Load` interaction. The example path (app.py:110-118) loads only when its button is pressed. The upload path (app.py:102-108) reloads on every run of the script while a file stays selected, so it can undo a node or edge added earlier in the same run. That repeated reload is not modelled.
- The download button (app.py:151-154) is not modelled. The model stops at the document `get_json` returns and does not model `json.dumps`.
- Node and edge records hold only id/label and source/to/label. Shape, colour, image, smoothing and length are rendering attributes and are dropped. Extra keys of an edge entry, which `load_json` passes on to the edge constructor, are dropped too, except `target`: the constructor already receives that keyword, so an entry holding it makes the load fail.
- NodeOf: requires a `label` key besides `id`. The node constructor lives in a library that is not part of this model, and a label-less node would make `to_dot` fail on its missing label. The model rejects such an entry at load instead.
- JSON values are modelled as strings. A document always has both `nodes` and `edges` lists. Non-string values and a document missing a top-level key are not modelled.
- `load_json` deletes keys from the caller's document objects. This side effect is not modelled.
- WeightLabel: the weight is an integer number of hundredths. The rounding `"%0.2f"` applies to binary floating-point values is not modelled.
- The `max_chars` limits of the name fields (20 for the project, 10 for a node) are enforced by the widgets and are not modelled.
- In the add-edge form, the source and target come from select boxes over the existing nodes. The model accepts any strings and keeps the handler's missing-node branch.
- The two add-node branches (with and without an image URL) differ only in the image attribute, so they are modelled as one.
- `get_nodes`, `get_edges`, `ssnodes` and `sedges` are plain field reads (`nodes`, `edges`, `nodeSet`, `edgeSet`). `components/stochastic_graph.py` only re-declares `nodes` and `edges` as properties and behaves like `Graph`.

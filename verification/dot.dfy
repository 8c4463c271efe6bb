/** The DOT-text serialiser of components/graph.py (`to_dot`). */
module Dot {
  import opened Graphs

  /** The opening line: the graph kind (`digraph` by default) followed by ` G {`. */
  function Header(kind: string): string {
    kind + " G {\n"
  }

  /** `id [label="caption"];` followed by a newline. */
  function NodeLine(n: Node): string {
    n.id + " [label=\"" + n.caption + "\"];\n"
  }

  /** `source -> to [label="caption"];` followed by a newline. */
  function EdgeLine(e: Edge): string {
    e.source + " -> " + e.to + " [label=\"" + e.caption + "\"];\n"
  }

  /** The ids that occur as the source or the target of some edge. */
  function Endpoints(es: seq<Edge>): set<string> {
    (set e | e in es :: e.source) + (set e | e in es :: e.to)
  }

  /** The nodes of `ns`, in order, whose id is not in `used`. */
  function Unused(ns: seq<Node>, used: set<string>): seq<Node> {
    if |ns| == 0 then []
    else Unused(ns[..|ns| - 1], used) + (if ns[|ns| - 1].id in used then [] else [ns[|ns| - 1]])
  }

  /** The nodes no edge refers to, in node order. */
  function Unreferenced(g: Graph): seq<Node> {
    Unused(g.nodes, Endpoints(g.edges))
  }

  function EdgeLines(es: seq<Edge>): seq<string> {
    seq(|es|, k requires 0 <= k < |es| => EdgeLine(es[k]))
  }

  function NodeLines(ns: seq<Node>): seq<string> {
    seq(|ns|, i requires 0 <= i < |ns| => NodeLine(ns[i]))
  }

  /** The body of the DOT text, one entry per emitted line: every edge in edge
      order, then every unreferenced node in node order. */
  function DotLines(g: Graph): seq<string> {
    EdgeLines(g.edges) + NodeLines(Unreferenced(g))
  }

  /** Lines joined end to end. */
  function Concat(lines: seq<string>): string {
    if |lines| == 0 then "" else Concat(lines[..|lines| - 1]) + lines[|lines| - 1]
  }

  /** Reference definition of the DOT text, one shape for graphs with and
      without edges. */
  function DotText(g: Graph, kind: string): string {
    Header(kind) + Concat(DotLines(g)) + "}"
  }

  lemma {:induction false} ConcatAppend(a: seq<string>, b: seq<string>)
    ensures Concat(a + b) == Concat(a) + Concat(b)
  {
    if |b| > 0 {
      assert (a + b)[..|a + b| - 1] == a + b[..|b| - 1];
      ConcatAppend(a, b[..|b| - 1]);
    } else {
      assert a + b == a;
    }
  }

  lemma ConcatSnoc(lines: seq<string>, line: string)
    ensures Concat(lines + [line]) == Concat(lines) + line
  {
    assert (lines + [line])[..|lines|] == lines;
  }

  /** One more node of the list adds its line to the text. */
  lemma NodeTextSnoc(ns: seq<Node>, i: nat)
    requires i < |ns|
    ensures Concat(NodeLines(ns[..i + 1])) == Concat(NodeLines(ns[..i])) + NodeLine(ns[i])
  {
    assert NodeLines(ns[..i + 1]) == NodeLines(ns[..i]) + [NodeLine(ns[i])];
    ConcatSnoc(NodeLines(ns[..i]), NodeLine(ns[i]));
  }

  /** One more edge of the list adds its line to the text. */
  lemma EdgeTextSnoc(es: seq<Edge>, k: nat)
    requires k < |es|
    ensures Concat(EdgeLines(es[..k + 1])) == Concat(EdgeLines(es[..k])) + EdgeLine(es[k])
  {
    assert EdgeLines(es[..k + 1]) == EdgeLines(es[..k]) + [EdgeLine(es[k])];
    ConcatSnoc(EdgeLines(es[..k]), EdgeLine(es[k]));
  }

  /** One more edge of the list adds its two endpoints. */
  lemma EndpointsSnoc(es: seq<Edge>, k: nat)
    requires k < |es|
    ensures Endpoints(es[..k + 1]) == Endpoints(es[..k]) + {es[k].source, es[k].to}
  {
    assert es[..k + 1] == es[..k] + [es[k]];
  }

  /** One more node of the list adds its line to the text of unused nodes
      exactly when its id is not used. */
  lemma UnusedTextSnoc(ns: seq<Node>, i: nat, used: set<string>)
    requires i < |ns|
    ensures Concat(NodeLines(Unused(ns[..i + 1], used)))
            == Concat(NodeLines(Unused(ns[..i], used))) + (if ns[i].id in used then "" else NodeLine(ns[i]))
  {
    var before := Unused(ns[..i], used);
    assert ns[..i + 1][..i] == ns[..i];
    assert Unused(ns[..i + 1], used) == before + (if ns[i].id in used then [] else [ns[i]]);
    if ns[i].id !in used {
      assert NodeLines(before + [ns[i]]) == NodeLines(before) + [NodeLine(ns[i])];
      ConcatSnoc(NodeLines(before), NodeLine(ns[i]));
    } else {
      assert before + [] == before;
      assert Concat(NodeLines(before)) + "" == Concat(NodeLines(before));
    }
  }

  /** The first loop of the no-edge branch: a line for every node. */
  method EmitAllNodes(ns: seq<Node>) returns (text: string)
    ensures text == Concat(NodeLines(ns))
  {
    text := "";
    var i := 0;
    while i < |ns|
      invariant 0 <= i <= |ns|
      invariant text == Concat(NodeLines(ns[..i]))
    {
      NodeTextSnoc(ns, i);
      text := text + NodeLine(ns[i]);
      i := i + 1;
    }
    assert ns[..i] == ns;
  }

  /** The edge loop: a line per edge, collecting each endpoint once in `nodeIds`. */
  method EmitEdges(es: seq<Edge>) returns (text: string, nodeIds: seq<string>)
    ensures text == Concat(EdgeLines(es))
    ensures forall x :: x in nodeIds <==> x in Endpoints(es)
  {
    text := "";
    nodeIds := [];
    var k := 0;
    while k < |es|
      invariant 0 <= k <= |es|
      invariant forall x :: x in nodeIds <==> x in Endpoints(es[..k])
      invariant text == Concat(EdgeLines(es[..k]))
    {
      var e := es[k];
      EdgeTextSnoc(es, k);
      EndpointsSnoc(es, k);
      if e.source !in nodeIds {
        nodeIds := nodeIds + [e.source];
      }
      if e.to !in nodeIds {
        nodeIds := nodeIds + [e.to];
      }
      text := text + EdgeLine(e);
      k := k + 1;
    }
    assert es[..k] == es;
  }

  /** The node loop of the edge branch: a line for each node whose id was
      not collected. */
  method EmitUnused(ns: seq<Node>, nodeIds: seq<string>, ghost used: set<string>) returns (text: string)
    requires forall x :: x in nodeIds <==> x in used
    ensures text == Concat(NodeLines(Unused(ns, used)))
  {
    text := "";
    var i := 0;
    while i < |ns|
      invariant 0 <= i <= |ns|
      invariant text == Concat(NodeLines(Unused(ns[..i], used)))
    {
      UnusedTextSnoc(ns, i, used);
      if ns[i].id !in nodeIds {
        text := text + NodeLine(ns[i]);
      }
      i := i + 1;
    }
    assert ns[..i] == ns;
  }

  /** `to_dot`, as written: without edges it emits every node; otherwise it
      emits the edges while collecting their endpoints, then the nodes whose
      id was not collected. */
  method ToDot(g: Graph, kind: string) returns (dot: string)
    ensures dot == DotText(g, kind)
  {
    dot := Header(kind);
    if |g.edges| == 0 {
      var body := EmitAllNodes(g.nodes);
      NoEdgesEveryNode(g);
      assert DotLines(g) == NodeLines(g.nodes);
      dot := dot + body;
    } else {
      var edgeText, nodeIds := EmitEdges(g.edges);
      var nodeText := EmitUnused(g.nodes, nodeIds, Endpoints(g.edges));
      ConcatAppend(EdgeLines(g.edges), NodeLines(Unreferenced(g)));
      dot := dot + edgeText + nodeText;
    }
    dot := dot + "}";
  }

  /** Membership in the unreferenced list, and its order: it is a
      subsequence of the node list. */
  lemma {:induction false} UnusedMembers(ns: seq<Node>, used: set<string>)
    ensures forall n :: n in Unused(ns, used) <==> n in ns && n.id !in used
    ensures |Unused(ns, used)| <= |ns|
  {
    if |ns| > 0 {
      UnusedMembers(ns[..|ns| - 1], used);
      assert ns == ns[..|ns| - 1] + [ns[|ns| - 1]];
    }
  }

  lemma {:induction false} UnusedAll(ns: seq<Node>)
    ensures Unused(ns, {}) == ns
  {
    if |ns| > 0 {
      UnusedAll(ns[..|ns| - 1]);
      assert ns == ns[..|ns| - 1] + [ns[|ns| - 1]];
    }
  }

  /** Without edges every node is unreferenced, so every node gets a line. */
  lemma NoEdgesEveryNode(g: Graph)
    requires |g.edges| == 0
    ensures Unreferenced(g) == g.nodes
    ensures |DotLines(g)| == |g.nodes|
  {
    assert Endpoints(g.edges) == {};
    UnusedAll(g.nodes);
  }

  /** The lines of the DOT body: one per edge in edge order, then one per
      node that is neither the source nor the target of any edge, in node
      order. */
  /** An id is an endpoint exactly when some edge, by position, starts or ends there. */
  lemma EndpointsByIndex(es: seq<Edge>, x: string)
    ensures x in Endpoints(es) <==> exists k :: 0 <= k < |es| && (es[k].source == x || es[k].to == x)
  {
    if x in Endpoints(es) {
      var e :| e in es && (e.source == x || e.to == x);
      var k :| 0 <= k < |es| && es[k] == e;
    }
  }

  lemma DotLinesShape(g: Graph)
    ensures |DotLines(g)| == |g.edges| + |Unreferenced(g)|
    ensures forall k :: 0 <= k < |g.edges| ==> DotLines(g)[k] == EdgeLine(g.edges[k])
    ensures forall i :: 0 <= i < |Unreferenced(g)| ==>
              DotLines(g)[|g.edges| + i] == NodeLine(Unreferenced(g)[i])
    ensures forall n :: n in Unreferenced(g) <==>
              n in g.nodes && forall k :: 0 <= k < |g.edges| ==> g.edges[k].source != n.id && g.edges[k].to != n.id
  {
    UnusedMembers(g.nodes, Endpoints(g.edges));
    forall n: Node ensures n.id in Endpoints(g.edges) <==>
                     exists k :: 0 <= k < |g.edges| && (g.edges[k].source == n.id || g.edges[k].to == n.id)
    {
      EndpointsByIndex(g.edges, n.id);
    }
  }

  /** The text opens with `kind G {` and a newline and closes with `}`. */
  lemma DotFraming(g: Graph, kind: string)
    ensures |DotText(g, kind)| > |Header(kind)|
    ensures DotText(g, kind)[..|Header(kind)|] == kind + " G {\n"
    ensures DotText(g, kind)[|DotText(g, kind)| - 1] == '}'
  {
  }

  /** Number of occurrences of `c` in `s`. */
  function Count(s: string, c: char): nat {
    if |s| == 0 then 0 else Count(s[..|s| - 1], c) + (if s[|s| - 1] == c then 1 else 0)
  }

  lemma {:induction false} CountAppend(a: string, b: string, c: char)
    ensures Count(a + b, c) == Count(a, c) + Count(b, c)
  {
    if |b| > 0 {
      assert (a + b)[..|a + b| - 1] == a + b[..|b| - 1];
      CountAppend(a, b[..|b| - 1], c);
    } else {
      assert a + b == a;
    }
  }

  predicate NoNewline(s: string) {
    '\n' !in s
  }

  lemma {:induction false} CountAbsent(s: string, c: char)
    requires c !in s
    ensures Count(s, c) == 0
  {
    if |s| > 0 {
      CountAbsent(s[..|s| - 1], c);
    }
  }

  /** Each DOT line holds exactly one newline, its last character, when the
      texts it is built from hold none. */
  lemma {:induction false} ConcatLineCount(lines: seq<string>)
    requires forall k :: 0 <= k < |lines| ==> IsLine(lines[k])
    ensures Count(Concat(lines), '\n') == |lines|
  {
    if |lines| > 0 {
      var last := lines[|lines| - 1];
      ConcatLineCount(lines[..|lines| - 1]);
      CountAppend(Concat(lines[..|lines| - 1]), last, '\n');
      assert last == last[..|last| - 1] + ['\n'];
      CountAppend(last[..|last| - 1], ['\n'], '\n');
      CountAbsent(last[..|last| - 1], '\n');
    }
  }

  /** A DOT line built from texts without newlines ends in its only newline. */
  predicate IsLine(line: string) {
    |line| > 0 && line[|line| - 1] == '\n' && NoNewline(line[..|line| - 1])
  }

  lemma EdgeLineIsLine(e: Edge)
    requires NoNewline(e.source) && NoNewline(e.to) && NoNewline(e.caption)
    ensures IsLine(EdgeLine(e))
  {
    var body := e.source + " -> " + e.to + " [label=\"" + e.caption + "\"];";
    assert EdgeLine(e) == body + "\n";
    assert EdgeLine(e)[..|EdgeLine(e)| - 1] == body;
  }

  lemma NodeLineIsLine(n: Node)
    requires NoNewline(n.id) && NoNewline(n.caption)
    ensures IsLine(NodeLine(n))
  {
    var body := n.id + " [label=\"" + n.caption + "\"];";
    assert NodeLine(n) == body + "\n";
    assert NodeLine(n)[..|NodeLine(n)| - 1] == body;
  }

  lemma BodyLinesAreLines(g: Graph)
    requires forall n :: n in g.nodes ==> NoNewline(n.id) && NoNewline(n.caption)
    requires forall e :: e in g.edges ==> NoNewline(e.source) && NoNewline(e.to) && NoNewline(e.caption)
    ensures forall k :: 0 <= k < |DotLines(g)| ==> IsLine(DotLines(g)[k])
  {
    DotLinesShape(g);
    var lines := DotLines(g);
    forall k | 0 <= k < |lines|
      ensures IsLine(lines[k])
    {
      if k < |g.edges| {
        assert g.edges[k] in g.edges;
        EdgeLineIsLine(g.edges[k]);
      } else {
        var n := Unreferenced(g)[k - |g.edges|];
        assert n in Unreferenced(g);
        NodeLineIsLine(n);
      }
    }
  }

  lemma HeaderCount(kind: string)
    requires NoNewline(kind)
    ensures Count(Header(kind), '\n') == 1
  {
    assert Header(kind) == kind + " G {" + "\n";
    CountAppend(kind + " G {", "\n", '\n');
    CountAbsent(kind + " G {", '\n');
  }

  /** When no id, label or graph kind contains a newline, the DOT text has
      exactly 1 + |edges| + |unreferenced nodes| newline characters: the
      header line, one per edge and one per unreferenced node. */
  lemma DotNewlineCount(g: Graph, kind: string)
    requires NoNewline(kind)
    requires forall n :: n in g.nodes ==> NoNewline(n.id) && NoNewline(n.caption)
    requires forall e :: e in g.edges ==> NoNewline(e.source) && NoNewline(e.to) && NoNewline(e.caption)
    ensures Count(DotText(g, kind), '\n') == 1 + |g.edges| + |Unreferenced(g)|
  {
    DotLinesShape(g);
    BodyLinesAreLines(g);
    ConcatLineCount(DotLines(g));
    CountAppend(Header(kind), Concat(DotLines(g)), '\n');
    CountAppend(Header(kind) + Concat(DotLines(g)), "}", '\n');
    HeaderCount(kind);
    CountAbsent("}", '\n');
  }
}

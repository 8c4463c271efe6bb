/** The adjacency and incidence views of components/graph.py
    (`get_adjacency`, `get_incidence`). */
module Views {
  import opened Graphs

  /** Reference definition of one adjacency row: the ids of the nodes of `ns`,
      in list order, that `source` has an edge to in `g`. */
  function AdjacentIds(g: Graph, source: string, ns: seq<Node>): seq<string> {
    if |ns| == 0 then []
    else AdjacentIds(g, source, ns[..|ns| - 1])
         + (if InEdges(g, source, ns[|ns| - 1].id) then [ns[|ns| - 1].id] else [])
  }

  /** Reference definition of one incidence row: the ids of the nodes of `ns`,
      in list order, that are equal to `to`. */
  function MatchingIds(to: string, ns: seq<Node>): seq<string> {
    if |ns| == 0 then []
    else MatchingIds(to, ns[..|ns| - 1]) + (if ns[|ns| - 1].id == to then [to] else [])
  }

  /** `get_adjacency`: one row per node, in node order, keyed by the node's id;
      the row lists, in node order, the ids of the nodes it has an edge to. */
  method GetAdjacency(g: Graph) returns (matrix: seq<Row>)
    ensures |matrix| == |g.nodes|
    ensures forall i :: 0 <= i < |matrix| ==>
              matrix[i].key == g.nodes[i].id && matrix[i].members == AdjacentIds(g, g.nodes[i].id, g.nodes)
  {
    matrix := [];
    var i := 0;
    while i < |g.nodes|
      invariant 0 <= i <= |g.nodes|
      invariant |matrix| == i
      invariant forall k :: 0 <= k < i ==>
                  matrix[k].key == g.nodes[k].id && matrix[k].members == AdjacentIds(g, g.nodes[k].id, g.nodes)
    {
      var id := g.nodes[i].id;
      var row: seq<string> := [];
      var j := 0;
      while j < |g.nodes|
        invariant 0 <= j <= |g.nodes|
        invariant row == AdjacentIds(g, id, g.nodes[..j])
      {
        assert g.nodes[..j + 1][..j] == g.nodes[..j];
        if InEdges(g, id, g.nodes[j].id) {
          row := row + [g.nodes[j].id];
        }
        j := j + 1;
      }
      assert g.nodes[..j] == g.nodes;
      matrix := matrix + [Row(id, row)];
      i := i + 1;
    }
  }

  /** `get_incidence`: one row per edge, in edge order, keyed by the edge's
      source; the row lists the ids of the nodes equal to the edge's target. */
  method GetIncidence(g: Graph) returns (matrix: seq<Row>)
    ensures |matrix| == |g.edges|
    ensures forall k :: 0 <= k < |matrix| ==>
              matrix[k].key == g.edges[k].source && matrix[k].members == MatchingIds(g.edges[k].to, g.nodes)
  {
    matrix := [];
    var k := 0;
    while k < |g.edges|
      invariant 0 <= k <= |g.edges|
      invariant |matrix| == k
      invariant forall m :: 0 <= m < k ==>
                  matrix[m].key == g.edges[m].source && matrix[m].members == MatchingIds(g.edges[m].to, g.nodes)
    {
      var e := g.edges[k];
      var row: seq<string> := [];
      var j := 0;
      while j < |g.nodes|
        invariant 0 <= j <= |g.nodes|
        invariant row == MatchingIds(e.to, g.nodes[..j])
      {
        assert g.nodes[..j + 1][..j] == g.nodes[..j];
        if e.to == g.nodes[j].id {
          row := row + [g.nodes[j].id];
        }
        j := j + 1;
      }
      assert g.nodes[..j] == g.nodes;
      matrix := matrix + [Row(e.source, row)];
      k := k + 1;
    }
  }

  /** The positions in `ns` of the nodes `source` has an edge to, ascending. */
  ghost function AdjacentPositions(g: Graph, source: string, ns: seq<Node>): seq<nat> {
    if |ns| == 0 then []
    else AdjacentPositions(g, source, ns[..|ns| - 1])
         + (if InEdges(g, source, ns[|ns| - 1].id) then [|ns| - 1] else [])
  }

  /** An adjacency row is exactly the ordered selection of the node ids that
      `source` has an edge to: the k-th member is the id of the node at the
      k-th selected position, positions strictly increase, and every node
      with an edge from `source` is selected. */
  lemma {:induction false} AdjacencyRowSelects(g: Graph, source: string, ns: seq<Node>)
    ensures var row, pos := AdjacentIds(g, source, ns), AdjacentPositions(g, source, ns);
      && |pos| == |row|
      && (forall k :: 0 <= k < |pos| ==> pos[k] < |ns| && row[k] == ns[pos[k]].id && InEdges(g, source, row[k]))
      && (forall k, m :: 0 <= k < m < |pos| ==> pos[k] < pos[m])
      && (forall j :: 0 <= j < |ns| && InEdges(g, source, ns[j].id) ==> j in pos)
  {
    if |ns| > 0 {
      var init := ns[..|ns| - 1];
      AdjacencyRowSelects(g, source, init);
      assert forall j :: 0 <= j < |init| ==> init[j] == ns[j];
    }
  }

  /** Membership in an adjacency row: `x` is listed iff some node has id `x`
      and `source` has an edge to `x`. */
  lemma {:induction false} AdjacencyRowMembers(g: Graph, source: string, ns: seq<Node>, x: string)
    ensures x in AdjacentIds(g, source, ns) <==>
              (exists j :: 0 <= j < |ns| && ns[j].id == x) && InEdges(g, source, x)
    ensures |AdjacentIds(g, source, ns)| <= |ns|
  {
    if |ns| > 0 {
      var init := ns[..|ns| - 1];
      AdjacencyRowMembers(g, source, init, x);
      assert forall j :: 0 <= j < |init| ==> init[j] == ns[j];
    }
  }

  /** An incidence row only ever repeats the edge's target, and it is empty
      exactly when no node has that id (a dangling edge). */
  lemma {:induction false} IncidenceRowMembers(to: string, ns: seq<Node>)
    ensures forall x :: x in MatchingIds(to, ns) ==> x == to
    ensures |MatchingIds(to, ns)| > 0 <==> exists j :: 0 <= j < |ns| && ns[j].id == to
  {
    if |ns| > 0 {
      var init := ns[..|ns| - 1];
      IncidenceRowMembers(to, init);
      assert forall j :: 0 <= j < |init| ==> init[j] == ns[j];
    }
  }

  /** With pairwise distinct node ids, the incidence row of an edge whose
      target exists is the single target id. */
  lemma {:induction false} IncidenceRowUnique(to: string, ns: seq<Node>, j: nat)
    requires forall a, b :: 0 <= a < b < |ns| ==> ns[a].id != ns[b].id
    requires j < |ns| && ns[j].id == to
    ensures MatchingIds(to, ns) == [to]
  {
    var init := ns[..|ns| - 1];
    assert forall a :: 0 <= a < |init| ==> init[a] == ns[a];
    if j == |ns| - 1 {
      IncidenceRowMembers(to, init);
      assert |MatchingIds(to, init)| == 0;
    } else {
      IncidenceRowUnique(to, init, j);
    }
  }
}

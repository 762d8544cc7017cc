/**
 * Text written by `buildMermaidString` and read back by `parseMermaidSource`
 * (graphEditorModule.js:383-484): which graphs survive the trip, and what they come back as.
 */
module RoundTrip {

  import opened JsText
  import opened Wrappers
  import opened Graph
  import opened Sanitizer
  import opened Patterns
  import opened Parser
  import opened Serializer

  /** A label the text form carries unchanged: non-empty, already trimmed, one line, no brackets. */
  predicate PlainLabel(s: string) {
    s != [] && IsTrimmed(s) && NoLineTerminator(s) && BracketFree(s)
  }

  /** A node whose line `id[label]` reads back as the same node. */
  predicate PlainNode(n: Node) {
    IsWord(n.id) && PlainLabel(n.caption)
  }

  /**
   * The graphs the text form represents faithfully: a header the parser could have produced,
   * one node per id, word ids and plain labels, no dangling edge, and no edge leaving a node
   * named `graph` (its line would read as a header, see `GraphEdgeReadAsHeader`).
   */
  predicate Representable(header: string, nodes: seq<Node>, edges: seq<Edge>) {
    ValidHeader(header) && UniqueIds(nodes) &&
    (forall n :: n in nodes ==> PlainNode(n)) &&
    NoDangling(nodes, edges) &&
    (forall e :: e in edges ==> e.from != "graph")
  }

  // ---------------------------------------------------------------- one line at a time

  lemma SnocSplit<T>(s: seq<T>)
    requires s != []
    ensures s[..|s| - 1] + [s[|s| - 1]] == s
  {
  }

  lemma ParseLinesSnoc(lines: seq<string>, x: string)
    ensures ParseLines(lines + [x]) == ParseLine(ParseLines(lines), x)
  {
    assert (lines + [x])[..|lines|] == lines;
  }

  /** `from --> to` with word ids is matched by the edge pattern, with no labels. */
  lemma EdgeTextMatch(from: string, to: string)
    requires IsWord(from) && IsWord(to)
    ensures MatchEdge(from + " --> " + to) == Some(EdgeMatch(from, None, to, None))
  {
    var t := from + " --> " + to;
    var n := |from|;
    assert forall k :: 0 <= k < n ==> t[k] == from[k];
    assert t[n] == ' ' && t[n + 1] == '-' && t[n + 2] == '-' && t[n + 3] == '>' && t[n + 4] == ' ';
    assert forall k :: n + 5 <= k < |t| ==> t[k] == to[k - n - 5];
    WordEndOf(t, 0, n);
    assert SpaceEnd(t, n + 1) == n + 1;
    assert SpaceEnd(t, n) == n + 1;
    assert SpaceEnd(t, n + 5) == n + 5;
    assert SpaceEnd(t, n + 4) == n + 5;
    assert ArrowAt(t, n);
    WordEndOf(t, n + 5, |t|);
    assert t[..n] == from;
    assert t[n + 5..|t|] == to;
  }

  /** The line of an edge is read as a header exactly when the edge leaves a node named `graph`. */
  lemma EdgeTextHeader(from: string, to: string)
    requires IsWord(from) && IsWord(to)
    ensures IsHeaderLine(from + " --> " + to) <==> from == "graph"
    ensures !IsSkipped(from + " --> " + to)
  {
    var t := from + " --> " + to;
    assert t[0] == from[0];
    if from == "graph" {
      assert t[..6] == "graph ";
    } else if |from| != 5 {
      var i := if |from| < 5 then |from| else 5;
      assert t[i] == if i < |from| then from[i] else ' ';
      assert t[i] != "graph "[i];
    } else {
      var j :| 0 <= j < 5 && from[j] != "graph"[j];
      assert t[j] == from[j];
    }
  }

  /** `id[text]` with a bracket-free text has no arrow after its only `]`: it is no edge line. */
  lemma NodeTextNoEdge(id: string, text: string)
    requires IsWord(id) && BracketFree(text)
    ensures MatchEdge(id + "[" + text + "]").None?
  {
    var t := id + "[" + text + "]";
    var n := |id|;
    assert forall k :: 0 <= k < n ==> t[k] == id[k];
    assert t[n] == '[';
    WordEndOf(t, 0, n);
    forall k | n + 1 <= k < |t|
      ensures !CanClose(t, k, true)
    {
      if k < |t| - 1 {
        assert t[k] == text[k - n - 1];
      } else {
        assert SpaceEnd(t, |t|) == |t|;
      }
    }
  }

  /** The line of a plain node adds that node when its id is new, and nothing else. */
  lemma NodeLineParses(st: ParseState, n: Node)
    requires PlainNode(n)
    ensures ParseLine(st, NodeLine(n)) ==
      st.(nodes := if n.id in Ids(st.nodes) then st.nodes else st.nodes + [n])
  {
    var t := n.id + "[" + n.caption + "]";
    SanitizeWord(n.id);
    BracketFreeUnescaped(n.caption);
    assert NodeLine(n) == "    " + t;
    assert t[0] == n.id[0];
    TrimPadded("    ", t);
    NodeTextNoEdge(n.id, n.caption);
    NodeLineAdds(st, NodeLine(n), n.id, n.caption);
    TrimOfTrimmed(n.caption);
  }

  /**
   * The line of an edge between two known word ids, leaving a node not named `graph`,
   * appends that edge under the next edge number and leaves the nodes alone.
   */
  lemma EdgeLineParses(st: ParseState, e: Edge)
    requires IsWord(e.from) && IsWord(e.to) && e.from != "graph"
    requires e.from in Ids(st.nodes) && e.to in Ids(st.nodes)
    ensures ParseLine(st, EdgeLine(e)) ==
      st.(edges := st.edges + [Edge(EdgeIdFor(|st.edges|), e.from, e.to)])
  {
    var t := e.from + " --> " + e.to;
    SanitizeWord(e.from);
    SanitizeWord(e.to);
    assert EdgeLine(e) == "    " + t;
    assert t[0] == e.from[0] && t[|t| - 1] == e.to[|e.to| - 1];
    TrimPadded("    ", t);
    EdgeTextMatch(e.from, e.to);
    EdgeTextHeader(e.from, e.to);
    assert Classify(t) == EdgeDecl(EdgeMatch(e.from, None, e.to, None));
  }

  /**
   * What the source does with an edge leaving a node whose id is `graph`: its line starts with
   * `graph ` and replaces the header, and the edge is lost.
   */
  lemma GraphEdgeReadAsHeader(st: ParseState, e: Edge)
    requires e.from == "graph" && IsWord(e.to)
    ensures ParseLine(st, EdgeLine(e)) == st.(header := "graph --> " + e.to)
  {
    var t := e.from + " --> " + e.to;
    SanitizeWord(e.from);
    SanitizeWord(e.to);
    assert EdgeLine(e) == "    " + t;
    assert t[0] == e.from[0] && t[|t| - 1] == e.to[|e.to| - 1];
    TrimPadded("    ", t);
    EdgeTextHeader(e.from, e.to);
  }

  // ---------------------------------------------------------------- the three phases

  lemma HeaderPhase(h: string)
    requires ValidHeader(h)
    ensures ParseLines([HeaderLine(h)]) == ParseState(h, [], [])
  {
    ParseLinesSnoc([], h);
    assert [] + [h] == [h];
    TrimOfTrimmed(h);
    ParseLineHeader(ParseState(DefaultHeader, [], []), h);
  }

  /** A node line whose id is new appends that node. */
  lemma NodeStep(h: string, init: seq<Node>, last: Node, lines: seq<string>)
    requires ParseLines(lines) == ParseState(h, init, [])
    requires PlainNode(last) && last.id !in Ids(init)
    ensures ParseLines(lines + [NodeLine(last)]) == ParseState(h, init + [last], [])
  {
    ParseLinesSnoc(lines, NodeLine(last));
    NodeLineParses(ParseState(h, init, []), last);
  }

  lemma NewLastId(nodes: seq<Node>)
    requires nodes != [] && UniqueIds(nodes)
    ensures nodes[|nodes| - 1].id !in Ids(nodes[..|nodes| - 1])
    ensures UniqueIds(nodes[..|nodes| - 1])
  {
    var init := nodes[..|nodes| - 1];
    forall i | 0 <= i < |init|
      ensures Ids(init)[i] != nodes[|nodes| - 1].id
    {
      assert init[i] == nodes[i];
    }
  }

  /** After the header and the node lines, the nodes are exactly those of the lines, in order. */
  lemma {:induction false} NodePhase(h: string, nodes: seq<Node>)
    requires ValidHeader(h) && UniqueIds(nodes)
    requires forall n :: n in nodes ==> PlainNode(n)
    ensures ParseLines([HeaderLine(h)] + NodeLines(nodes)) == ParseState(h, nodes, [])
  {
    if nodes == [] {
      assert [HeaderLine(h)] + NodeLines(nodes) == [HeaderLine(h)];
      HeaderPhase(h);
    } else {
      var init, last := nodes[..|nodes| - 1], nodes[|nodes| - 1];
      var lines := [HeaderLine(h)] + NodeLines(init);
      assert NodeLines(nodes) == NodeLines(init) + [NodeLine(last)];
      assert [HeaderLine(h)] + NodeLines(nodes) == lines + [NodeLine(last)];
      assert forall n :: n in init ==> n in nodes;
      NewLastId(nodes);
      NodePhase(h, init);
      NodeStep(h, init, last, lines);
      SnocSplit(nodes);
    }
  }

  lemma EndpointsSnoc(edges: seq<Edge>)
    requires edges != []
    ensures Endpoints(edges) ==
      Endpoints(edges[..|edges| - 1]) + [(edges[|edges| - 1].from, edges[|edges| - 1].to)]
  {
    var init := edges[..|edges| - 1];
    assert forall k :: 0 <= k < |init| ==> init[k] == edges[k];
  }

  lemma KnownIsWord(nodes: seq<Node>, x: string)
    requires forall n :: n in nodes ==> PlainNode(n)
    requires x in Ids(nodes)
    ensures IsWord(x)
  {
    var i :| 0 <= i < |nodes| && Ids(nodes)[i] == x;
    assert nodes[i] in nodes;
  }

  /**
   * After the edge lines, the nodes are untouched and the edges are the lines' edges, in order,
   * numbered `edge_0`, `edge_1`, ...
   */
  lemma {:induction false} EdgePhase(h: string, nodes: seq<Node>, edges: seq<Edge>)
    requires ValidHeader(h) && UniqueIds(nodes)
    requires forall n :: n in nodes ==> PlainNode(n)
    requires NoDangling(nodes, edges)
    requires forall e :: e in edges ==> e.from != "graph"
    ensures var st := ParseLines([HeaderLine(h)] + NodeLines(nodes) + EdgeLines(edges));
      st.header == h && st.nodes == nodes &&
      Endpoints(st.edges) == Endpoints(edges) && NumberedInOrder(st.edges)
  {
    var prefix := [HeaderLine(h)] + NodeLines(nodes);
    if edges == [] {
      assert prefix + EdgeLines(edges) == prefix;
      NodePhase(h, nodes);
    } else {
      var init, last := edges[..|edges| - 1], edges[|edges| - 1];
      EdgeLinesSnoc(edges);
      assert prefix + EdgeLines(edges) == (prefix + EdgeLines(init)) + [EdgeLine(last)];
      assert forall k :: 0 <= k < |init| ==> init[k] == edges[k];
      assert forall e :: e in init ==> e in edges;
      EdgePhase(h, nodes, init);
      var st := ParseLines(prefix + EdgeLines(init));
      ParseLinesSnoc(prefix + EdgeLines(init), EdgeLine(last));
      KnownIsWord(nodes, last.from);
      KnownIsWord(nodes, last.to);
      EdgeLineParses(st, last);
      AppendNumbered(st.edges, Edge(EdgeIdFor(|st.edges|), last.from, last.to));
      EndpointsSnoc(edges);
    }
  }

  // ---------------------------------------------------------------- the whole text

  lemma PermutationIds(a: seq<Node>, b: seq<Node>)
    requires multiset(a) == multiset(b)
    ensures forall x :: x in Ids(a) ==> x in Ids(b)
  {
    forall x | x in Ids(a)
      ensures x in Ids(b)
    {
      var i :| 0 <= i < |a| && Ids(a)[i] == x;
      assert a[i] in multiset(b);
      var j :| 0 <= j < |b| && b[j] == a[i];
      assert Ids(b)[j] == x;
    }
  }

  lemma RepresentableOneLine(header: string, nodes: seq<Node>, edges: seq<Edge>)
    requires Representable(header, nodes, edges)
    ensures NodesOneLine(nodes)
    ensures forall k :: 0 <= k < |edges| ==> '\n' !in edges[k].from && '\n' !in edges[k].to
  {
    forall k | 0 <= k < |nodes|
      ensures '\n' !in nodes[k].id && '\n' !in nodes[k].caption
    {
      assert PlainNode(nodes[k]);
    }
    forall k | 0 <= k < |edges|
      ensures '\n' !in edges[k].from && '\n' !in edges[k].to
    {
      KnownIsWord(nodes, edges[k].from);
      KnownIsWord(nodes, edges[k].to);
    }
  }

  /**
   * Reading back the text of a representable graph gives its header, its nodes sorted by id,
   * and its edges' endpoints in order, the edges renumbered `edge_0`, `edge_1`, ...
   */
  lemma ParseSerialize(header: string, nodes: seq<Node>, edges: seq<Edge>)
    requires Representable(header, nodes, edges)
    ensures var r := Parse(Serialize(header, nodes, edges));
      r.header == header && r.nodes == SortById(nodes) && multiset(r.nodes) == multiset(nodes) &&
      Endpoints(r.edges) == Endpoints(edges) && NumberedInOrder(r.edges) &&
      r.nextIndex == NextIndex(SortById(nodes))
  {
    var sorted := SortById(nodes);
    RepresentableOneLine(header, nodes, edges);
    SerializeLines(header, nodes, edges);
    SortByIdPermutes(nodes);
    UniqueIdsPermutation(nodes, sorted);
    PermutationIds(nodes, sorted);
    assert forall n :: n in sorted ==> n in multiset(nodes);
    EdgePhase(header, sorted, edges);
  }

  /** Writing out what was read back gives the same text: the text of a representable graph is a fixpoint. */
  lemma SerializeParseSerialize(header: string, nodes: seq<Node>, edges: seq<Edge>)
    requires Representable(header, nodes, edges)
    ensures var r := Parse(Serialize(header, nodes, edges));
      Serialize(r.header, r.nodes, r.edges) == Serialize(header, nodes, edges)
  {
    var r := Parse(Serialize(header, nodes, edges));
    ParseSerialize(header, nodes, edges);
    SortByIdPermutes(nodes);
    SortByIdCanonical(nodes, SortById(nodes));
    EdgeLinesEndpoints(r.edges, edges);
  }

  /** The edge lines depend only on the endpoints, in order. */
  lemma {:induction false} EdgeLinesEndpoints(a: seq<Edge>, b: seq<Edge>)
    requires Endpoints(a) == Endpoints(b)
    ensures EdgeLines(a) == EdgeLines(b)
  {
    if a != [] {
      assert |b| == |a|;
      EndpointsSnoc(a);
      EndpointsSnoc(b);
      EdgeLinesSnoc(a);
      EdgeLinesSnoc(b);
      assert Endpoints(a)[|a| - 1] == Endpoints(b)[|b| - 1];
      EdgeLinesEndpoints(a[..|a| - 1], b[..|b| - 1]);
    }
  }
}

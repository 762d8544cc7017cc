/**
 * `parseMermaidSource` (graphEditorModule.js:383-447): a line-oriented reader of the
 * `graph` header, `id[label]` node lines and `a --> b` edge lines.
 *
 * The specification is a fold of `ParseLine` over the lines; `ParseMermaidSource` is the
 * source's loop, proved equal to it.
 */
module Parser {

  import opened JsText
  import opened Wrappers
  import opened Graph
  import opened Sanitizer
  import opened Patterns

  /** What the parser has gathered so far; the node map is a sequence in insertion order. */
  datatype ParseState = ParseState(header: string, nodes: seq<Node>, edges: seq<Edge>)

  /** The parser's result `{ header, nodes, edges, nextIndex }`. */
  datatype ParseResult = ParseResult(header: string, nodes: seq<Node>, edges: seq<Edge>, nextIndex: nat)

  /** A blank or `%%` comment line (after trimming). */
  predicate IsSkipped(t: string) {
    t == "" || StartsWith(t, "%%")
  }

  /** A header line (after trimming): it starts with `graph `. */
  predicate IsHeaderLine(t: string) {
    StartsWith(t, "graph ")
  }

  /** A header as the parser can produce it: a trimmed one-line `graph ...`. */
  predicate ValidHeader(h: string) {
    IsHeaderLine(h) && IsTrimmed(h) && '\n' !in h
  }

  /** The label of an endpoint created by an edge line: the trimmed bracket text, or the id when absent or empty. */
  function EndpointLabel(group: Option<string>, id: string): string {
    match group
    case Some(text) => if text != "" then Trim(text) else id
    case None => id
  }

  /** `if (!nodesMap.has(id)) nodesMap.set(id, node)`. */
  function AddIfAbsent(nodes: seq<Node>, node: Node): (r: seq<Node>)
    ensures nodes <= r && node.id in Ids(r)
    ensures |r| <= |nodes| + 1
    ensures node.id in Ids(nodes) ==> r == nodes
    ensures node.id !in Ids(nodes) ==> r == nodes + [node]
  {
    if node.id in Ids(nodes) then nodes
    else
      assert Ids(nodes + [node])[|nodes|] == node.id;
      nodes + [node]
  }

  /** An edge line: both endpoints are created when unknown, then the edge is appended. */
  function ApplyEdge(st: ParseState, m: EdgeMatch): (r: ParseState)
    ensures r.header == st.header && st.nodes <= r.nodes && st.edges <= r.edges && |r.edges| == |st.edges| + 1
  {
    var from := SanitizeId(m.fromId);
    var to := SanitizeId(m.toId);
    var withFrom := AddIfAbsent(st.nodes, Node(from, EndpointLabel(m.fromLabel, from)));
    st.(nodes := AddIfAbsent(withFrom, Node(to, EndpointLabel(m.toLabel, to))),
        edges := st.edges + [Edge(EdgeIdFor(|st.edges|), from, to)])
  }

  /** A node line: the node is created unless its id is already known. */
  function ApplyNode(st: ParseState, m: NodeMatch): (r: ParseState)
    ensures r.header == st.header && st.nodes <= r.nodes && r.edges == st.edges
  {
    var id := SanitizeId(m.id);
    st.(nodes := AddIfAbsent(st.nodes, Node(id, Trim(m.text))))
  }

  /** How the loop body treats a trimmed line: the first test that applies wins. */
  datatype LineKind = Blank | HeaderDecl | EdgeDecl(edge: EdgeMatch) | NodeDecl(node: NodeMatch) | Unmatched

  function Classify(t: string): (k: LineKind)
    ensures k == Blank <==> IsSkipped(t)
    ensures k == HeaderDecl <==> IsHeaderLine(t)
    ensures k.EdgeDecl? ==> !IsSkipped(t) && !IsHeaderLine(t) && MatchEdge(t) == Some(k.edge)
    ensures k.NodeDecl? ==> !IsSkipped(t) && !IsHeaderLine(t) && MatchEdge(t).None? && MatchNode(t) == Some(k.node)
    ensures k == Unmatched <==> !IsSkipped(t) && !IsHeaderLine(t) && MatchEdge(t).None? && MatchNode(t).None?
  {
    HeaderNotSkipped(t);
    if IsSkipped(t) then Blank
    else if IsHeaderLine(t) then HeaderDecl
    else if MatchEdge(t).Some? then EdgeDecl(MatchEdge(t).value)
    else if MatchNode(t).Some? then NodeDecl(MatchNode(t).value)
    else Unmatched
  }

  /** What the loop body does with a trimmed line `t` of kind `k`. */
  function Apply(st: ParseState, k: LineKind, t: string): ParseState
  {
    match k
    case Blank => st
    case HeaderDecl => st.(header := t)
    case EdgeDecl(m) => ApplyEdge(st, m)
    case NodeDecl(m) => ApplyNode(st, m)
    case Unmatched => st
  }

  /** One pass of the loop body, on one line of the source. */
  function ParseLine(st: ParseState, line: string): (r: ParseState)
    ensures st.nodes <= r.nodes && st.edges <= r.edges && |r.edges| <= |st.edges| + 1
    ensures IsSkipped(Trim(line)) ==> r == st
    ensures IsHeaderLine(Trim(line)) ==> r.nodes == st.nodes && r.edges == st.edges
  {
    Apply(st, Classify(Trim(line)), Trim(line))
  }

  /** The loop over the lines, as a fold from the first line to the last. */
  function ParseLines(lines: seq<string>): ParseState
  {
    if lines == [] then ParseState(DefaultHeader, [], [])
    else ParseLine(ParseLines(lines[..|lines| - 1]), lines[|lines| - 1])
  }

  /** The second loop: the highest numeric suffix among the node ids, 0 when there is none. */
  function HighestSuffix(nodes: seq<Node>): nat
  {
    if nodes == [] then 0
    else
      var highest := HighestSuffix(nodes[..|nodes| - 1]);
      match NumericSuffix(nodes[|nodes| - 1].id)
      case Some(v) => if v > highest then v else highest
      case None => highest
  }

  /** `Math.max(highestIndex + 1, nodes.length + 1)`. */
  function NextIndex(nodes: seq<Node>): nat
  {
    var h := HighestSuffix(nodes) + 1;
    if h > |nodes| + 1 then h else |nodes| + 1
  }

  /** The parser's result for a whole source text. */
  function Parse(source: string): ParseResult
  {
    var st := ParseLines(Split(source));
    ParseResult(st.header, st.nodes, st.edges, NextIndex(st.nodes))
  }

  lemma ParseLinesStep(lines: seq<string>, i: nat)
    requires i < |lines|
    ensures ParseLines(lines[..i + 1]) == ParseLine(ParseLines(lines[..i]), lines[i])
  {
    assert lines[..i + 1][..i] == lines[..i];
  }

  /** `parseMermaidSource` with its two loops. */
  method ParseMermaidSource(source: string) returns (r: ParseResult)
    ensures r == Parse(source)
  {
    var lines := Split(source);
    var header := DefaultHeader;
    var nodes: seq<Node> := [];
    var edges: seq<Edge> := [];
    var edgeCount := 0;
    for i := 0 to |lines|
      invariant ParseState(header, nodes, edges) == ParseLines(lines[..i])
      invariant edgeCount == |edges|
    {
      ParseLinesStep(lines, i);
      header, nodes, edges, edgeCount := ReadLine(header, nodes, edges, edgeCount, lines[i]);
    }
    assert lines[..|lines|] == lines;
    var next := ComputeNextIndex(nodes);
    r := ParseResult(header, nodes, edges, next);
  }

  /** The body of the first loop of `parseMermaidSource`, on one line. */
  method ReadLine(header: string, nodes: seq<Node>, edges: seq<Edge>, edgeCount: nat, line: string)
    returns (header': string, nodes': seq<Node>, edges': seq<Edge>, edgeCount': nat)
    requires edgeCount == |edges|
    ensures ParseState(header', nodes', edges') == ParseLine(ParseState(header, nodes, edges), line)
    ensures edgeCount' == |edges'|
  {
    header', nodes', edges', edgeCount' := header, nodes, edges, edgeCount;
    var trimmed := Trim(line);
    if trimmed == "" || StartsWith(trimmed, "%%") {
      return;
    }
    if StartsWith(trimmed, "graph ") {
      header' := trimmed;
      return;
    }
    var edgeMatch := MatchEdge(trimmed);
    if edgeMatch.Some? {
      var m := edgeMatch.value;
      var safeFromId := SanitizeId(m.fromId);
      var safeToId := SanitizeId(m.toId);
      nodes' := AddIfAbsent(nodes', Node(safeFromId, EndpointLabel(m.fromLabel, safeFromId)));
      nodes' := AddIfAbsent(nodes', Node(safeToId, EndpointLabel(m.toLabel, safeToId)));
      edges' := edges' + [Edge(EdgeIdFor(edgeCount'), safeFromId, safeToId)];
      edgeCount' := edgeCount' + 1;
      return;
    }
    var nodeMatch := MatchNode(trimmed);
    if nodeMatch.Some? {
      var safeId := SanitizeId(nodeMatch.value.id);
      nodes' := AddIfAbsent(nodes', Node(safeId, Trim(nodeMatch.value.text)));
    }
  }

  /**
   * The tail of `parseMermaidSource`: the loop over the parsed nodes that finds the
   * highest numeric suffix, then the `Math.max` bound.
   */
  method ComputeNextIndex(nodes: seq<Node>) returns (next: nat)
    ensures next == NextIndex(nodes)
  {
    var highestIndex := 0;
    for j := 0 to |nodes|
      invariant highestIndex == HighestSuffix(nodes[..j])
    {
      assert nodes[..j + 1][..j] == nodes[..j];
      var suffix := NumericSuffix(nodes[j].id);
      if suffix.Some? && suffix.value > highestIndex {
        highestIndex := suffix.value;
      }
    }
    assert nodes[..|nodes|] == nodes;
    next := if highestIndex + 1 > |nodes| + 1 then highestIndex + 1 else |nodes| + 1;
  }

  // ---------------------------------------------------------------- the header rule

  /** The header a source declares: its last `graph ` line, trimmed, or the default. */
  function LastHeader(lines: seq<string>): string
  {
    if lines == [] then DefaultHeader
    else if IsHeaderLine(Trim(lines[|lines| - 1])) then Trim(lines[|lines| - 1])
    else LastHeader(lines[..|lines| - 1])
  }

  lemma ApplyHeader(st: ParseState, k: LineKind, t: string)
    ensures Apply(st, k, t).header == if k == HeaderDecl then t else st.header
  {
  }

  /** A header line replaces the header; no other line touches it. */
  lemma ParseLineHeader(st: ParseState, line: string)
    ensures ParseLine(st, line).header == if IsHeaderLine(Trim(line)) then Trim(line) else st.header
  {
    ApplyHeader(st, Classify(Trim(line)), Trim(line));
  }

  /** The parsed header is the last header line of the source (the default when there is none). */
  lemma {:induction false} HeaderIsLastHeaderLine(lines: seq<string>)
    ensures ParseLines(lines).header == LastHeader(lines)
  {
    if lines != [] {
      HeaderIsLastHeaderLine(lines[..|lines| - 1]);
      ParseLineHeader(ParseLines(lines[..|lines| - 1]), lines[|lines| - 1]);
    }
  }

  lemma TrimNoNewline(s: string)
    requires '\n' !in s
    ensures '\n' !in Trim(s)
  {
    TrimSlice(s);
  }

  /** A header line is never taken for a blank or comment line. */
  lemma HeaderNotSkipped(t: string)
    ensures IsHeaderLine(t) ==> !IsSkipped(t)
  {
    if IsHeaderLine(t) {
      assert t[0] == 'g';
    }
  }

  /** The default header `graph TD` is a valid header. */
  lemma DefaultHeaderValid()
    ensures ValidHeader(DefaultHeader)
  {
    assert DefaultHeader[..6] == "graph ";
  }

  lemma {:induction false} LastHeaderValid(lines: seq<string>)
    requires forall k :: 0 <= k < |lines| ==> '\n' !in lines[k]
    ensures ValidHeader(LastHeader(lines))
  {
    if lines == [] {
      DefaultHeaderValid();
    } else if IsHeaderLine(Trim(lines[|lines| - 1])) {
      TrimNoNewline(lines[|lines| - 1]);
    } else {
      LastHeaderValid(lines[..|lines| - 1]);
    }
  }

  /** Whatever the source, the parsed header is a trimmed one-line `graph ...` header. */
  lemma ParsedHeaderValid(source: string)
    ensures ValidHeader(Parse(source).header)
  {
    HeaderIsLastHeaderLine(Split(source));
    LastHeaderValid(Split(source));
  }

  // ---------------------------------------------------------------- the edges

  /** What a line of kind `k` declares as an edge: the pair of (sanitised) ids of an edge line. */
  function KindDecl(k: LineKind): seq<(string, string)>
  {
    match k
    case EdgeDecl(m) => [(SanitizeId(m.fromId), SanitizeId(m.toId))]
    case _ => []
  }

  function LineDecl(line: string): seq<(string, string)>
  {
    KindDecl(Classify(Trim(line)))
  }

  /** The edge lines of a source, in order, as the pairs of ids they connect. */
  function EdgeDecls(lines: seq<string>): seq<(string, string)>
  {
    if lines == [] then [] else EdgeDecls(lines[..|lines| - 1]) + LineDecl(lines[|lines| - 1])
  }

  /** Edges are numbered `edge_0`, `edge_1`, ... in the order they were appended. */
  predicate NumberedInOrder(edges: seq<Edge>) {
    forall k :: 0 <= k < |edges| ==> edges[k].id == EdgeIdFor(k)
  }

  lemma AppendNumbered(edges: seq<Edge>, e: Edge)
    requires NumberedInOrder(edges) && e.id == EdgeIdFor(|edges|)
    ensures NumberedInOrder(edges + [e])
    ensures Endpoints(edges + [e]) == Endpoints(edges) + [(e.from, e.to)]
  {
    var r := edges + [e];
    forall k | 0 <= k < |r|
      ensures r[k].id == EdgeIdFor(k)
    {
      if k < |edges| {
        assert r[k] == edges[k];
      }
    }
  }

  lemma ApplyEdges(st: ParseState, k: LineKind, t: string)
    requires NumberedInOrder(st.edges)
    ensures NumberedInOrder(Apply(st, k, t).edges)
    ensures Endpoints(Apply(st, k, t).edges) == Endpoints(st.edges) + KindDecl(k)
  {
    match k
    case EdgeDecl(m) =>
      AppendNumbered(st.edges, Edge(EdgeIdFor(|st.edges|), SanitizeId(m.fromId), SanitizeId(m.toId)));
    case _ =>
      assert Endpoints(st.edges) + [] == Endpoints(st.edges);
  }

  /**
   * Every edge line appends exactly one edge, duplicates included: the parsed edges connect
   * exactly the pairs the edge lines declare, in line order, and are numbered from `edge_0`.
   */
  lemma {:induction false} EdgesFollowEdgeLines(lines: seq<string>)
    ensures Endpoints(ParseLines(lines).edges) == EdgeDecls(lines)
    ensures NumberedInOrder(ParseLines(lines).edges)
  {
    if lines != [] {
      EdgesFollowEdgeLines(lines[..|lines| - 1]);
      var line := lines[|lines| - 1];
      ApplyEdges(ParseLines(lines[..|lines| - 1]), Classify(Trim(line)), Trim(line));
    }
  }

  // ---------------------------------------------------------------- the nodes

  /** What the node map guarantees: one node per id, and every edge between known nodes. */
  predicate WellFormed(st: ParseState) {
    UniqueIds(st.nodes) && NoDangling(st.nodes, st.edges)
  }

  lemma AddIfAbsentUnique(nodes: seq<Node>, node: Node)
    requires UniqueIds(nodes)
    ensures UniqueIds(AddIfAbsent(nodes, node))
    ensures forall x :: x in Ids(nodes) ==> x in Ids(AddIfAbsent(nodes, node))
  {
    var r := AddIfAbsent(nodes, node);
    forall x | x in Ids(nodes)
      ensures x in Ids(r)
    {
      var k :| 0 <= k < |nodes| && Ids(nodes)[k] == x;
      assert Ids(r)[k] == x;
    }
    if node.id !in Ids(nodes) {
      forall i | 0 <= i < |nodes|
        ensures nodes[i].id != node.id
      {
        assert Ids(nodes)[i] == nodes[i].id;
      }
    }
  }

  lemma KnownStaysKnown(old_: ParseState, new_: ParseState)
    requires old_.nodes <= new_.nodes && old_.edges <= new_.edges
    requires NoDangling(old_.nodes, old_.edges)
    ensures forall i :: 0 <= i < |old_.edges| ==>
      new_.edges[i].from in Ids(new_.nodes) && new_.edges[i].to in Ids(new_.nodes)
  {
    forall i | 0 <= i < |old_.edges|
      ensures new_.edges[i].from in Ids(new_.nodes) && new_.edges[i].to in Ids(new_.nodes)
    {
      assert new_.edges[i] == old_.edges[i];
      var e := old_.edges[i];
      var p :| 0 <= p < |old_.nodes| && Ids(old_.nodes)[p] == e.from;
      var q :| 0 <= q < |old_.nodes| && Ids(old_.nodes)[q] == e.to;
      assert Ids(new_.nodes)[p] == e.from && Ids(new_.nodes)[q] == e.to;
    }
  }

  lemma AppendEdgeWellFormed(nodes: seq<Node>, edges: seq<Edge>, n1: Node, n2: Node, e: Edge)
    requires UniqueIds(nodes) && NoDangling(nodes, edges)
    requires e.from == n1.id && e.to == n2.id
    ensures UniqueIds(AddIfAbsent(AddIfAbsent(nodes, n1), n2))
    ensures NoDangling(AddIfAbsent(AddIfAbsent(nodes, n1), n2), edges + [e])
  {
    var withFrom := AddIfAbsent(nodes, n1);
    var r := AddIfAbsent(withFrom, n2);
    AddIfAbsentUnique(nodes, n1);
    AddIfAbsentUnique(withFrom, n2);
    KnownStaysKnown(ParseState("", nodes, edges), ParseState("", r, edges + [e]));
    assert e.from in Ids(r);
  }

  lemma ApplyEdgeWellFormed(st: ParseState, m: EdgeMatch)
    requires WellFormed(st)
    ensures WellFormed(ApplyEdge(st, m))
  {
    var from := SanitizeId(m.fromId);
    var to := SanitizeId(m.toId);
    AppendEdgeWellFormed(st.nodes, st.edges, Node(from, EndpointLabel(m.fromLabel, from)),
      Node(to, EndpointLabel(m.toLabel, to)), Edge(EdgeIdFor(|st.edges|), from, to));
  }

  lemma ApplyNodeWellFormed(st: ParseState, m: NodeMatch)
    requires WellFormed(st)
    ensures WellFormed(ApplyNode(st, m))
  {
    AddIfAbsentUnique(st.nodes, Node(SanitizeId(m.id), Trim(m.text)));
    KnownStaysKnown(st, ApplyNode(st, m));
  }

  lemma ApplyWellFormed(st: ParseState, k: LineKind, t: string)
    requires WellFormed(st)
    ensures WellFormed(Apply(st, k, t))
  {
    match k
    case EdgeDecl(m) => ApplyEdgeWellFormed(st, m);
    case NodeDecl(m) => ApplyNodeWellFormed(st, m);
    case _ =>
  }

  /** The parse keeps one node per id and never leaves an edge pointing at an unknown node. */
  lemma {:induction false} ParseWellFormed(lines: seq<string>)
    ensures WellFormed(ParseLines(lines))
  {
    if lines != [] {
      ParseWellFormed(lines[..|lines| - 1]);
      var line := lines[|lines| - 1];
      ApplyWellFormed(ParseLines(lines[..|lines| - 1]), Classify(Trim(line)), Trim(line));
    }
  }

  /**
   * First occurrence wins: the nodes known after any prefix of the source are still there,
   * with the same labels and in the same order, at the end.
   */
  lemma {:induction false} FirstOccurrenceWins(lines: seq<string>, i: nat)
    requires i <= |lines|
    ensures ParseLines(lines[..i]).nodes <= ParseLines(lines).nodes
    decreases |lines|
  {
    if i < |lines| {
      var init := lines[..|lines| - 1];
      assert lines[..i] == init[..i];
      FirstOccurrenceWins(init, i);
    } else {
      assert lines[..i] == lines;
    }
  }

  /** A line that is neither skipped, a header, an edge nor a node line changes nothing. */
  lemma UnmatchedLineIgnored(st: ParseState, line: string)
    requires MatchEdge(Trim(line)).None? && MatchNode(Trim(line)).None?
    ensures ParseLine(st, line) == if IsHeaderLine(Trim(line)) then st.(header := Trim(line)) else st
  {
  }

  /** A line that starts with a word character is neither blank, a comment nor a header when a `[` ends its word. */
  lemma WordLineKind(id: string, rest: string)
    requires IsWord(id) && rest != [] && rest[0] == '['
    ensures !IsSkipped(id + rest) && !IsHeaderLine(id + rest)
  {
    var t := id + rest;
    assert t[0] == id[0];
    var i := if |id| < 5 then |id| else 5;
    assert t[i] == if i < |id| then id[i] else '[';
    assert t[i] != "graph "[i];
  }

  lemma NodeLineShape(t: string, id: string, text: string)
    requires t == id + "[" + text + "]"
    requires IsWord(id) && |text| >= 1 && NoLineTerminator(text)
    ensures !IsSkipped(t) && !IsHeaderLine(t)
    ensures MatchNode(t) == Some(NodeMatch(id, text)) && SanitizeId(id) == id
  {
    MatchNodeIff(t, id, text);
    SanitizeWord(id);
    assert t == id + ("[" + text + "]");
    WordLineKind(id, "[" + text + "]");
  }

  /**
   * A node line `id[text]` with no arrow names node `id` with label `text`, trimmed: it is
   * added when the id is new, and ignored when the id is already known.
   */
  lemma NodeLineAdds(st: ParseState, line: string, id: string, text: string)
    requires Trim(line) == id + "[" + text + "]"
    requires IsWord(id) && |text| >= 1 && NoLineTerminator(text)
    requires MatchEdge(Trim(line)).None?
    ensures var r := ParseLine(st, line);
      r.header == st.header && r.edges == st.edges &&
      r.nodes == if id in Ids(st.nodes) then st.nodes else st.nodes + [Node(id, Trim(text))]
  {
    NodeLineShape(Trim(line), id, text);
  }

  /** A line that starts with a word character is neither blank nor a comment. */
  lemma WordStartNotSkipped(t: string)
    requires t != [] && IsWordChar(t[0])
    ensures !IsSkipped(t)
  {
    assert |t| < 2 || t[..2][0] == t[0];
  }

  /**
   * An edge line `f[l] --> t[l']`, either label optional, appends the edge `edge_<n>` from `f` to
   * `t`, after creating first `f`, then `t`, when unknown, each labelled with its trimmed bracket
   * text, or with its id when the brackets are absent or empty.
   */
  lemma EdgeLineAdds(st: ParseState, line: string, f: string, fl: Option<string>, sp: string, sp2: string,
                     t: string, tl: Option<string>, rest: string)
    requires Trim(line) == f + Bracketed(fl) + sp + "-->" + sp2 + t + Bracketed(tl) + rest
    requires IsWord(f) && IsWord(t) && AllSpace(sp) && AllSpace(sp2) && LazyLabel(fl) && LazyLabel(tl)
    requires tl.None? ==> rest == [] || (!IsWordChar(rest[0]) && rest[0] != '[')
    requires !IsHeaderLine(Trim(line))
    ensures var r := ParseLine(st, line);
      var fromNode := Node(f, if fl.Some? && fl.value != "" then Trim(fl.value) else f);
      var toNode := Node(t, if tl.Some? && tl.value != "" then Trim(tl.value) else t);
      var withFrom := if f in Ids(st.nodes) then st.nodes else st.nodes + [fromNode];
      r.header == st.header &&
      r.nodes == (if t in Ids(withFrom) then withFrom else withFrom + [toNode]) &&
      r.edges == st.edges + [Edge(EdgeIdFor(|st.edges|), f, t)]
  {
    MatchEdgeOfShape(Trim(line), f, fl, sp, sp2, t, tl, rest);
    assert Trim(line)[0] == f[0];
    WordStartNotSkipped(Trim(line));
    SanitizeWord(f);
    SanitizeWord(t);
  }

  // ---------------------------------------------------------------- the next index

  /** `highestIndex` is the largest numeric suffix among the ids, or 0 when there is none. */
  lemma {:induction false} HighestSuffixIsMax(nodes: seq<Node>)
    ensures forall k :: 0 <= k < |nodes| && NumericSuffix(nodes[k].id).Some? ==>
      NumericSuffix(nodes[k].id).value <= HighestSuffix(nodes)
    ensures HighestSuffix(nodes) == 0 ||
      exists k :: 0 <= k < |nodes| && NumericSuffix(nodes[k].id) == Some(HighestSuffix(nodes))
  {
    if nodes != [] {
      var init := nodes[..|nodes| - 1];
      HighestSuffixIsMax(init);
      forall k | 0 <= k < |init|
        ensures nodes[k] == init[k]
      {
      }
      if HighestSuffix(nodes) != HighestSuffix(init) {
        assert NumericSuffix(nodes[|nodes| - 1].id) == Some(HighestSuffix(nodes));
      } else if HighestSuffix(init) != 0 {
        var k :| 0 <= k < |init| && NumericSuffix(init[k].id) == Some(HighestSuffix(init));
        assert nodes[k] == init[k];
      }
    }
  }

  /** `nextIndex` is above every numeric suffix among the ids and above the number of nodes. */
  lemma NextIndexAbove(nodes: seq<Node>)
    ensures NextIndex(nodes) > |nodes|
    ensures forall k :: 0 <= k < |nodes| && NumericSuffix(nodes[k].id).Some? ==>
      NumericSuffix(nodes[k].id).value < NextIndex(nodes)
  {
    HighestSuffixIsMax(nodes);
  }
}

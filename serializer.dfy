/**
 * `buildMermaidString`: the graph store written back as Mermaid text. The header line comes
 * first, then one `    id[label]` line per node in id order, then one `    from --> to`
 * line per edge in insertion order, joined with newlines.
 *
 * The node order is `localeCompare` on the ids, read here as code-point order
 * (`Precedes`). `Serialize` is the specification; `BuildMermaidString` is the source's loops.
 */
module Serializer {

  import opened JsText
  import opened Graph
  import opened Sanitizer

  // ---------------------------------------------------------------- the order of ids

  /** `a` sorts strictly before `b`: lexicographic order on code points, a proper prefix first. */
  predicate Precedes(a: string, b: string)
  {
    if a == [] then b != []
    else b != [] && (a[0] < b[0] || (a[0] == b[0] && Precedes(a[1..], b[1..])))
  }

  lemma {:induction false} PrecedesIrreflexive(a: string)
    ensures !Precedes(a, a)
  {
    if a != [] {
      PrecedesIrreflexive(a[1..]);
    }
  }

  lemma {:induction false} PrecedesTransitive(a: string, b: string, c: string)
    requires Precedes(a, b) && Precedes(b, c)
    ensures Precedes(a, c)
  {
    if a != [] && a[0] == b[0] && b[0] == c[0] {
      PrecedesTransitive(a[1..], b[1..], c[1..]);
    }
  }

  /** Any two distinct ids are ordered one way or the other. */
  lemma {:induction false} PrecedesTotal(a: string, b: string)
    ensures a == b || Precedes(a, b) || Precedes(b, a)
  {
    if a != [] && b != [] && a[0] == b[0] {
      PrecedesTotal(a[1..], b[1..]);
      if a[1..] == b[1..] {
        assert a == [a[0]] + a[1..] && b == [b[0]] + b[1..];
      }
    }
  }

  // ---------------------------------------------------------------- sorting the nodes

  /** Ordered by id, each id strictly before the next (so no id appears twice). */
  predicate SortedById(nodes: seq<Node>) {
    forall i, j :: 0 <= i < j < |nodes| ==> Precedes(nodes[i].id, nodes[j].id)
  }

  /** `n` placed before the first node whose id it does not follow. */
  function Insert(n: Node, sorted: seq<Node>): (r: seq<Node>)
    ensures |r| == |sorted| + 1
  {
    if sorted == [] then [n]
    else if Precedes(sorted[0].id, n.id) then [sorted[0]] + Insert(n, sorted[1..])
    else [n] + sorted
  }

  /** Inserting adds `n` and nothing else. */
  lemma {:induction false} InsertPermutes(n: Node, sorted: seq<Node>)
    ensures multiset(Insert(n, sorted)) == multiset(sorted) + multiset{n}
  {
    if sorted != [] && Precedes(sorted[0].id, n.id) {
      InsertPermutes(n, sorted[1..]);
      assert sorted == [sorted[0]] + sorted[1..];
    }
  }

  /** `nodes.sort((a, b) => a.id.localeCompare(b.id))`, as an insertion sort. */
  function SortById(nodes: seq<Node>): (r: seq<Node>)
    ensures |r| == |nodes|
  {
    if nodes == [] then []
    else Insert(nodes[0], SortById(nodes[1..]))
  }

  /** Sorting rearranges the nodes: every node is kept, as often as it occurs. */
  lemma {:induction false} SortByIdPermutes(nodes: seq<Node>)
    ensures multiset(SortById(nodes)) == multiset(nodes)
  {
    if nodes != [] {
      SortByIdPermutes(nodes[1..]);
      InsertPermutes(nodes[0], SortById(nodes[1..]));
      assert nodes == [nodes[0]] + nodes[1..];
    }
  }

  /** A node whose id precedes every id of a sorted sequence can go in front of it. */
  lemma SortedCons(x: Node, s: seq<Node>)
    requires SortedById(s)
    requires forall k :: 0 <= k < |s| ==> Precedes(x.id, s[k].id)
    ensures SortedById([x] + s)
  {
    forall i, j | 0 <= i < j < |s| + 1
      ensures Precedes(([x] + s)[i].id, ([x] + s)[j].id)
    {
      if i > 0 {
        assert ([x] + s)[i] == s[i - 1];
      }
      assert ([x] + s)[j] == s[j - 1];
    }
  }

  lemma {:induction false} InsertSorted(n: Node, sorted: seq<Node>)
    requires SortedById(sorted)
    requires forall k :: 0 <= k < |sorted| ==> sorted[k].id != n.id
    ensures SortedById(Insert(n, sorted))
  {
    if sorted != [] {
      var head := sorted[0];
      PrecedesTotal(head.id, n.id);
      if Precedes(head.id, n.id) {
        var tail := sorted[1..];
        InsertSorted(n, tail);
        var r := Insert(n, tail);
        InsertPermutes(n, tail);
        forall k | 0 <= k < |r|
          ensures Precedes(head.id, r[k].id)
        {
          if r[k] != n {
            assert r[k] in multiset(r);
            assert r[k] in multiset(tail);
            MemberAt(tail, r[k]);
            var m :| 0 <= m < |tail| && tail[m] == r[k];
            assert sorted[m + 1] == r[k];
          }
        }
        SortedCons(head, r);
      } else {
        forall k | 0 <= k < |sorted|
          ensures Precedes(n.id, sorted[k].id)
        {
          if k > 0 {
            PrecedesTransitive(n.id, head.id, sorted[k].id);
          }
        }
        SortedCons(n, sorted);
      }
    }
  }

  lemma MemberAt(s: seq<Node>, x: Node)
    requires x in multiset(s)
    ensures exists r :: 0 <= r < |s| && s[r] == x
  {
  }

  /** Sorting a collection with distinct ids puts the ids in strictly increasing order. */
  lemma {:induction false} SortByIdSorted(nodes: seq<Node>)
    requires UniqueIds(nodes)
    ensures SortedById(SortById(nodes))
  {
    if nodes != [] {
      var rest := SortById(nodes[1..]);
      SortByIdSorted(nodes[1..]);
      SortByIdPermutes(nodes[1..]);
      forall k | 0 <= k < |rest|
        ensures rest[k].id != nodes[0].id
      {
        MemberAt(nodes[1..], rest[k]);
        var m :| 0 <= m < |nodes[1..]| && nodes[1..][m] == rest[k];
        assert nodes[m + 1] == rest[k];
      }
      InsertSorted(nodes[0], rest);
    }
  }

  /** Two id-sorted arrangements of the same nodes start with the same node. */
  lemma SortedHead(a: seq<Node>, b: seq<Node>)
    requires SortedById(a) && SortedById(b)
    requires multiset(a) == multiset(b)
    requires a != []
    ensures b != [] && a[0] == b[0]
  {
    assert a[0] in multiset(b);
    var k :| 0 <= k < |b| && b[k] == a[0];
    assert b[0] in multiset(a);
    var m :| 0 <= m < |a| && a[m] == b[0];
    if k != 0 {
      assert Precedes(a[m].id, a[0].id);
      if m != 0 {
        PrecedesTransitive(a[0].id, a[m].id, a[0].id);
      }
      PrecedesIrreflexive(a[0].id);
    }
  }

  lemma SortedTail(a: seq<Node>)
    requires SortedById(a) && a != []
    ensures SortedById(a[1..])
  {
    forall i, j | 0 <= i < j < |a| - 1
      ensures Precedes(a[1..][i].id, a[1..][j].id)
    {
      assert a[1..][i] == a[i + 1] && a[1..][j] == a[j + 1];
    }
  }

  lemma SameHeadSameTail(a: seq<Node>, b: seq<Node>)
    requires a != [] && b != [] && a[0] == b[0] && a[1..] == b[1..]
    ensures a == b
  {
    assert a == [a[0]] + a[1..] && b == [b[0]] + b[1..];
  }

  /** Two id-sorted arrangements of the same nodes are the same sequence. */
  lemma {:induction false} SortedUnique(a: seq<Node>, b: seq<Node>)
    requires SortedById(a) && SortedById(b)
    requires multiset(a) == multiset(b)
    ensures a == b
  {
    if a == [] {
      assert |b| == |multiset(b)| == 0;
    } else {
      SortedHead(a, b);
      var ta, tb := a[1..], b[1..];
      MultisetTail(a);
      MultisetTail(b);
      assert multiset(ta) == multiset(tb);
      SortedTail(a);
      SortedTail(b);
      SortedUnique(ta, tb);
      SameHeadSameTail(a, b);
    }
  }

  /** The node at `i` of `a` with the one at `p` taken out sits at `i` or `i + 1` of `a`. */
  lemma RemoveAtIndex(a: seq<Node>, p: nat, i: nat)
    requires p < |a| && i < |a| - 1
    ensures (a[..p] + a[p + 1..])[i] == a[if i < p then i else i + 1]
  {
  }

  lemma MultisetRemove(a: seq<Node>, p: nat)
    requires p < |a|
    ensures multiset(a[..p] + a[p + 1..]) == multiset(a) - multiset{a[p]}
  {
    assert a == a[..p] + [a[p]] + a[p + 1..];
  }

  /** Taking a node out of a collection with distinct ids leaves distinct ids, none of them its own. */
  lemma RemoveAtUnique(a: seq<Node>, p: nat, rest: seq<Node>)
    requires UniqueIds(a) && p < |a|
    requires rest == a[..p] + a[p + 1..]
    ensures UniqueIds(rest)
    ensures forall r :: 0 <= r < |rest| ==> rest[r].id != a[p].id
  {
    forall i, j | 0 <= i < j < |rest|
      ensures rest[i].id != rest[j].id
    {
      RemoveAtIndex(a, p, i);
      RemoveAtIndex(a, p, j);
    }
    forall r | 0 <= r < |rest|
      ensures rest[r].id != a[p].id
    {
      RemoveAtIndex(a, p, r);
    }
  }

  /** Distinct ids in the tail, none equal to the head's: distinct ids throughout. */
  lemma UniqueIdsCons(b: seq<Node>)
    requires b != [] && UniqueIds(b[1..])
    requires forall j :: 1 <= j < |b| ==> b[0].id != b[j].id
    ensures UniqueIds(b)
  {
    forall i, j | 0 <= i < j < |b|
      ensures b[i].id != b[j].id
    {
      if i > 0 {
        assert b[i] == b[1..][i - 1] && b[j] == b[1..][j - 1];
      }
    }
  }

  lemma MultisetTail(b: seq<Node>)
    requires b != []
    ensures multiset(b[1..]) == multiset(b) - multiset{b[0]}
  {
    assert b == [b[0]] + b[1..];
  }

  lemma HeadDistinct(b: seq<Node>, rest: seq<Node>, id: string)
    requires b != [] && b[0].id == id
    requires multiset(b[1..]) == multiset(rest)
    requires forall r :: 0 <= r < |rest| ==> rest[r].id != id
    ensures forall j :: 1 <= j < |b| ==> b[0].id != b[j].id
  {
    forall j | 1 <= j < |b|
      ensures b[0].id != b[j].id
    {
      assert b[j] == b[1..][j - 1];
      MemberAt(rest, b[j]);
    }
  }

  /** Rearranging a collection keeps its ids distinct. */
  lemma {:induction false} UniqueIdsPermutation(a: seq<Node>, b: seq<Node>)
    requires UniqueIds(a)
    requires multiset(b) == multiset(a)
    ensures UniqueIds(b)
    decreases |b|
  {
    if b != [] {
      MemberAt(a, b[0]);
      var p :| 0 <= p < |a| && a[p] == b[0];
      var rest := a[..p] + a[p + 1..];
      var tail := b[1..];
      MultisetRemove(a, p);
      MultisetTail(b);
      assert multiset(tail) == multiset(rest);
      RemoveAtUnique(a, p, rest);
      UniqueIdsPermutation(rest, tail);
      HeadDistinct(b, rest, a[p].id);
      UniqueIdsCons(b);
    }
  }

  /**
   * The sorted order depends only on which nodes there are: rearranging a collection with
   * distinct ids does not change what the serialiser writes for it.
   */
  lemma SortByIdCanonical(nodes: seq<Node>, other: seq<Node>)
    requires UniqueIds(nodes)
    requires multiset(other) == multiset(nodes)
    ensures SortById(other) == SortById(nodes)
  {
    UniqueIdsPermutation(nodes, other);
    SortByIdPermutes(nodes);
    SortByIdPermutes(other);
    SortByIdSorted(nodes);
    SortByIdSorted(other);
    SortedUnique(SortById(other), SortById(nodes));
  }

  // ---------------------------------------------------------------- the lines

  /**
   * `graphHeader || 'graph TD'`: the written header line is never empty, and it is a trimmed
   * one-line `graph ` header whenever the stored one is, or is empty.
   */
  function HeaderLine(header: string): (r: string)
    ensures header != "" ==> r == header
    ensures header == "" ==> r == DefaultHeader
    ensures r != ""
    ensures header == "" || (StartsWith(header, "graph ") && IsTrimmed(header) && '\n' !in header) ==>
      StartsWith(r, "graph ") && IsTrimmed(r) && '\n' !in r
  {
    if header != "" then header else DefaultHeader
  }

  /** What a node shows: its label, or its id when the label is empty. */
  function Shown(n: Node): string {
    if n.caption != "" then n.caption else n.id
  }

  /** `    ${sanitizeId(node.id)}[${escapeLabel(node.label || node.id)}]`. */
  function NodeLine(n: Node): string {
    "    " + SanitizeId(n.id) + "[" + EscapeLabel(Shown(n)) + "]"
  }

  /** `    ${from} --> ${to}` with both ends sanitised. */
  function EdgeLine(e: Edge): string {
    "    " + SanitizeId(e.from) + " --> " + SanitizeId(e.to)
  }

  /** The node loop: one line per node, in the order given. */
  function NodeLines(nodes: seq<Node>): seq<string>
  {
    if nodes == [] then [] else NodeLines(nodes[..|nodes| - 1]) + [NodeLine(nodes[|nodes| - 1])]
  }

  /** The edge loop, with its guard `if (!from || !to) continue`. */
  function EdgeLines(edges: seq<Edge>): seq<string>
  {
    if edges == [] then []
    else
      var e := edges[|edges| - 1];
      var kept := if SanitizeId(e.from) != "" && SanitizeId(e.to) != "" then [EdgeLine(e)] else [];
      EdgeLines(edges[..|edges| - 1]) + kept
  }

  /** The guard never drops an edge, since a sanitised id is never empty. */
  lemma EdgeLinesSnoc(edges: seq<Edge>)
    requires edges != []
    ensures EdgeLines(edges) == EdgeLines(edges[..|edges| - 1]) + [EdgeLine(edges[|edges| - 1])]
  {
    var e := edges[|edges| - 1];
    assert SanitizeId(e.from) != "" && SanitizeId(e.to) != "";
  }

  /** Every edge gets its line, in order. */
  lemma {:induction false} EdgeLinesComplete(edges: seq<Edge>)
    ensures |EdgeLines(edges)| == |edges|
    ensures forall k :: 0 <= k < |edges| ==> EdgeLines(edges)[k] == EdgeLine(edges[k])
  {
    if edges != [] {
      var init := edges[..|edges| - 1];
      EdgeLinesComplete(init);
      EdgeLinesSnoc(edges);
      forall k | 0 <= k < |edges|
        ensures EdgeLines(edges)[k] == EdgeLine(edges[k])
      {
        if k < |init| {
          assert edges[k] == init[k];
        } else {
          assert k == |edges| - 1;
        }
      }
    }
  }

  /** The lines of the text, before they are joined. */
  function Lines(header: string, nodes: seq<Node>, edges: seq<Edge>): seq<string>
  {
    [HeaderLine(header)] + NodeLines(SortById(nodes)) + EdgeLines(edges)
  }

  /** The text `buildMermaidString` returns for a store holding `header`, `nodes` and `edges`. */
  function Serialize(header: string, nodes: seq<Node>, edges: seq<Edge>): string
  {
    Join(Lines(header, nodes, edges))
  }

  /** The text of an empty store is its header line alone. */
  lemma SerializeEmpty(header: string)
    ensures Serialize(header, [], []) == HeaderLine(header)
  {
    assert Lines(header, [], []) == [HeaderLine(header)];
  }

  /** No line of `lines` holds a newline. */
  predicate OneLineEach(lines: seq<string>) {
    forall k :: 0 <= k < |lines| ==> '\n' !in lines[k]
  }

  lemma OneLineConcat(a: seq<string>, b: seq<string>)
    requires OneLineEach(a) && OneLineEach(b)
    ensures OneLineEach(a + b)
  {
    forall k | 0 <= k < |a + b|
      ensures '\n' !in (a + b)[k]
    {
      if k >= |a| {
        assert (a + b)[k] == b[k - |a|];
      }
    }
  }

  /** No id or label of `nodes` holds a newline. */
  predicate NodesOneLine(nodes: seq<Node>) {
    forall k :: 0 <= k < |nodes| ==> '\n' !in nodes[k].id && '\n' !in nodes[k].caption
  }

  lemma SortedOneLine(nodes: seq<Node>)
    requires NodesOneLine(nodes)
    ensures NodesOneLine(SortById(nodes))
  {
    var sorted := SortById(nodes);
    SortByIdPermutes(nodes);
    forall k | 0 <= k < |sorted|
      ensures '\n' !in sorted[k].id && '\n' !in sorted[k].caption
    {
      MemberAt(nodes, sorted[k]);
    }
  }

  lemma {:induction false} NodeLinesOneLine(nodes: seq<Node>)
    requires NodesOneLine(nodes)
    ensures OneLineEach(NodeLines(nodes))
  {
    if nodes != [] {
      var init := nodes[..|nodes| - 1];
      assert NodesOneLine(init) by {
        forall k | 0 <= k < |init|
          ensures '\n' !in init[k].id && '\n' !in init[k].caption
        {
          assert init[k] == nodes[k];
        }
      }
      NodeLinesOneLine(init);
      NodeLineOneLine(nodes[|nodes| - 1]);
      OneLineConcat(NodeLines(init), [NodeLine(nodes[|nodes| - 1])]);
    }
  }

  lemma EdgeLinesOneLine(edges: seq<Edge>)
    requires forall k :: 0 <= k < |edges| ==> '\n' !in edges[k].from && '\n' !in edges[k].to
    ensures OneLineEach(EdgeLines(edges))
  {
    EdgeLinesComplete(edges);
    forall k | 0 <= k < |edges|
      ensures '\n' !in EdgeLine(edges[k])
    {
      EdgeLineOneLine(edges[k]);
    }
  }

  lemma EdgeLineOneLine(e: Edge)
    requires '\n' !in e.from && '\n' !in e.to
    ensures '\n' !in EdgeLine(e)
  {
    SanitizeKeepsNewlineFree(e.from);
    SanitizeKeepsNewlineFree(e.to);
    EdgeTemplateOneLine(SanitizeId(e.from), SanitizeId(e.to));
  }

  /**
   * Splitting the text at newlines gives back its lines, as long as no header, id or label
   * holds a newline.
   */
  lemma SerializeLines(header: string, nodes: seq<Node>, edges: seq<Edge>)
    requires '\n' !in header
    requires NodesOneLine(nodes)
    requires forall k :: 0 <= k < |edges| ==> '\n' !in edges[k].from && '\n' !in edges[k].to
    ensures Split(Serialize(header, nodes, edges)) == Lines(header, nodes, edges)
  {
    SortedOneLine(nodes);
    NodeLinesOneLine(SortById(nodes));
    EdgeLinesOneLine(edges);
    OneLineConcat([HeaderLine(header)], NodeLines(SortById(nodes)));
    OneLineConcat([HeaderLine(header)] + NodeLines(SortById(nodes)), EdgeLines(edges));
    SplitJoin(Lines(header, nodes, edges));
  }

  lemma NodeTemplateOneLine(id: string, text: string)
    requires '\n' !in id && '\n' !in text
    ensures '\n' !in "    " + id + "[" + text + "]"
  {
  }

  lemma EdgeTemplateOneLine(from: string, to: string)
    requires '\n' !in from && '\n' !in to
    ensures '\n' !in "    " + from + " --> " + to
  {
  }

  lemma NodeLineOneLine(n: Node)
    requires '\n' !in n.id && '\n' !in n.caption
    ensures '\n' !in NodeLine(n)
  {
    var shown := Shown(n);
    assert '\n' !in shown;
    SanitizeKeepsNewlineFree(n.id);
    EscapeKeepsNewlineFree(shown);
    NodeTemplateOneLine(SanitizeId(n.id), EscapeLabel(shown));
  }

  lemma {:induction false} SanitizeKeepsNewlineFree(id: string)
    requires '\n' !in id
    ensures '\n' !in SanitizeId(id)
  {
    CollapseKeepsNewlineFree(Trim(id));
  }

  lemma {:induction false} CollapseKeepsNewlineFree(s: string)
    ensures '\n' !in CollapseSpaces(s)
  {
    var r := CollapseSpaces(s);
    assert forall i :: 0 <= i < |r| ==> !IsSpace(r[i]);
  }

  lemma {:induction false} EscapeKeepsNewlineFree(text: string)
    requires '\n' !in text
    ensures '\n' !in EscapeLabel(text)
    decreases |text|
  {
    if text != [] {
      EscapeKeepsNewlineFree(text[1..]);
      assert text == [text[0]] + text[1..];
      EscapeLabelCons(text[0], text[1..]);
    }
  }

  lemma AppendAssoc(a: seq<string>, b: seq<string>, x: string)
    ensures (a + b) + [x] == a + (b + [x])
  {
  }

  lemma NodeLinesStep(nodes: seq<Node>, k: nat)
    requires k < |nodes|
    ensures NodeLines(nodes[..k + 1]) == NodeLines(nodes[..k]) + [NodeLine(nodes[k])]
  {
    assert nodes[..k + 1][..k] == nodes[..k];
  }

  lemma EdgeLinesStep(edges: seq<Edge>, k: nat)
    requires k < |edges|
    ensures var e := edges[k];
      EdgeLines(edges[..k + 1]) ==
        EdgeLines(edges[..k]) + (if SanitizeId(e.from) != "" && SanitizeId(e.to) != "" then [EdgeLine(e)] else [])
  {
    assert edges[..k + 1][..k] == edges[..k];
  }

  /**
   * `buildMermaidString`, given the contents of the two collections: the header line, the
   * node lines in sorted order, the edge lines, joined. The sort is the library's, so it is
   * the function `SortById`.
   */
  method BuildMermaidString(header: string, nodes: seq<Node>, edges: seq<Edge>) returns (text: string)
    ensures text == Serialize(header, nodes, edges)
  {
    var lines := [if header != "" then header else DefaultHeader];
    var sorted := SortById(nodes);
    for k := 0 to |sorted|
      invariant lines == [HeaderLine(header)] + NodeLines(sorted[..k])
    {
      NodeLinesStep(sorted, k);
      var line := NodeLine(sorted[k]);
      AppendAssoc([HeaderLine(header)], NodeLines(sorted[..k]), line);
      lines := lines + [line];
    }
    assert sorted[..|sorted|] == sorted;
    ghost var nodeLines := lines;
    for k := 0 to |edges|
      invariant lines == nodeLines + EdgeLines(edges[..k])
    {
      EdgeLinesStep(edges, k);
      var from := SanitizeId(edges[k].from);
      var to := SanitizeId(edges[k].to);
      if from != "" && to != "" {
        var line := "    " + from + " --> " + to;
        AppendAssoc(nodeLines, EdgeLines(edges[..k]), line);
        lines := lines + [line];
      }
    }
    assert edges[..|edges|] == edges;
    text := Join(lines);
  }
}

/**
 * The graph store's entities: a node `{ id, label }` and an edge `{ id, from, to }`,
 * as they sit in the canvas's node and edge collections (kept in insertion order).
 * (`label` is a Dafny keyword, so a node's label is the field `caption`.)
 */
module Graph {

  import opened JsText
  import opened Wrappers

  /** The header used when a source has none, and when the stored header is empty. */
  const DefaultHeader: string := "graph TD"

  datatype Node = Node(id: string, caption: string)

  datatype Edge = Edge(id: string, from: string, to: string)

  function Ids(nodes: seq<Node>): (r: seq<string>)
    ensures |r| == |nodes|
    ensures forall i :: 0 <= i < |nodes| ==> r[i] == nodes[i].id
  {
    seq(|nodes|, i requires 0 <= i < |nodes| => nodes[i].id)
  }

  /** A collection keyed by id holds at most one node per id. */
  predicate UniqueIds(nodes: seq<Node>) {
    forall i, j :: 0 <= i < j < |nodes| ==> nodes[i].id != nodes[j].id
  }

  /** The endpoints of every edge, in order: what survives a parse/serialise round trip. */
  function Endpoints(edges: seq<Edge>): (r: seq<(string, string)>)
    ensures |r| == |edges|
    ensures forall i :: 0 <= i < |edges| ==> r[i] == (edges[i].from, edges[i].to)
  {
    seq(|edges|, i requires 0 <= i < |edges| => (edges[i].from, edges[i].to))
  }

  /** Every edge names two nodes of the collection. */
  predicate NoDangling(nodes: seq<Node>, edges: seq<Edge>) {
    forall i :: 0 <= i < |edges| ==> edges[i].from in Ids(nodes) && edges[i].to in Ids(nodes)
  }

  /** The node with id `id`, if there is one. */
  function Lookup(nodes: seq<Node>, id: string): (r: Option<Node>)
    ensures r.Some? <==> id in Ids(nodes)
    ensures r.Some? ==> r.value in nodes && r.value.id == id
  {
    if |nodes| == 0 then None
    else if nodes[0].id == id then Some(nodes[0])
    else
      assert Ids(nodes) == [nodes[0].id] + Ids(nodes[1..]);
      Lookup(nodes[1..], id)
  }

  /** `node_${k}`: the ids the editor mints for new nodes. */
  function NodeIdFor(k: nat): string {
    "node_" + DecimalString(k)
  }

  /** `edge_${k}`: the ids the parser gives to edges, numbered in line order. */
  function EdgeIdFor(k: nat): string {
    "edge_" + DecimalString(k)
  }

}

/**
 * The graph editor's module-level state and the operations that change it
 * (graphEditorModule.js): the node and edge stores behind the canvas, the header, the last
 * text produced, the `isLoading` guard and the counter for new node ids.
 *
 * The store's `add`/`update`/`remove` events call `updateMermaid`; here each operation calls
 * `UpdateMermaid` itself after changing a store. The texts passed to `onMermaidChange` are
 * returned to the caller in `notes`, in order, so that the workspace can pass them on.
 * The user's answers to prompts and confirmations are parameters.
 */
module GraphEditing {

  import opened JsText
  import opened Wrappers
  import opened Graph
  import opened Patterns
  import opened Parser
  import opened Serializer

  // ---------------------------------------------------------------- decisions and specifications

  /** A numbered id `node_k` held by some node has `k` at most the highest numeric suffix. */
  lemma NumberedIdBounded(nodes: seq<Node>, k: nat)
    requires NodeIdFor(k) in Ids(nodes)
    ensures k <= HighestSuffix(nodes)
  {
    var i :| 0 <= i < |nodes| && Ids(nodes)[i] == NodeIdFor(k);
    NumericSuffixOfNumbered("node", k);
    assert "node" + "_" + DecimalString(k) == NodeIdFor(k);
    HighestSuffixIsMax(nodes);
  }

  /** The first `k >= start` whose id `node_k` is not taken: where `generateNodeId` stops. */
  function FirstFree(nodes: seq<Node>, start: nat): (k: nat)
    ensures start <= k && NodeIdFor(k) !in Ids(nodes)
    ensures forall j :: start <= j < k ==> NodeIdFor(j) in Ids(nodes)
    decreases HighestSuffix(nodes) + 1 - start
  {
    if NodeIdFor(start) in Ids(nodes) then
      NumberedIdBounded(nodes, start);
      FirstFree(nodes, start + 1)
    else start
  }

  /** Right after a load, the counter already points at a free id. */
  lemma FreshAfterLoad(source: string)
    ensures var p := Parse(source); FirstFree(p.nodes, p.nextIndex) == p.nextIndex
  {
    var p := Parse(source);
    if NodeIdFor(p.nextIndex) in Ids(p.nodes) {
      NumberedIdBounded(p.nodes, p.nextIndex);
      NextIndexAbove(p.nodes);
      HighestSuffixIsMax(p.nodes);
    }
  }

  /** What the parser returns can be the editor's store: a valid header, distinct ids, a positive counter. */
  lemma ParsedStoreValid(source: string)
    ensures var p := Parse(source);
      ValidHeader(p.header) && p.header != "" && UniqueIds(p.nodes) && p.nextIndex >= 1
  {
    ParsedHeaderValid(source);
    ParseWellFormed(Split(source));
    NextIndexAbove(Parse(source).nodes);
  }

  /**
   * What a label prompt's answer amounts to: a cancelled prompt (`None`) or an answer that is
   * blank once trimmed is refused; otherwise the trimmed answer is the label.
   */
  function AcceptedLabel(answer: Option<string>): (r: Option<string>)
    ensures r.None? <==> answer.None? || Trim(answer.value) == []
    ensures r.Some? ==> r.value != [] && IsTrimmed(r.value) && r.value == Trim(answer.value)
  {
    match answer
    case None => None
    case Some(text) => if Trim(text) == [] then None else Some(Trim(text))
  }

  /** The nodes after `update({ id, label })`: the node with that id takes the new label. */
  function Relabel(nodes: seq<Node>, id: string, caption: string): (r: seq<Node>)
    ensures |r| == |nodes|
    ensures forall k :: 0 <= k < |nodes| ==>
      r[k] == if nodes[k].id == id then Node(id, caption) else nodes[k]
  {
    seq(|nodes|, k requires 0 <= k < |nodes| => if nodes[k].id == id then Node(id, caption) else nodes[k])
  }

  /** Relabelling keeps every id, and the relabelled node is found with its new label. */
  lemma RelabelKeepsIds(nodes: seq<Node>, id: string, caption: string)
    requires UniqueIds(nodes) && id in Ids(nodes)
    ensures Ids(Relabel(nodes, id, caption)) == Ids(nodes)
    ensures UniqueIds(Relabel(nodes, id, caption))
    ensures Lookup(Relabel(nodes, id, caption), id) == Some(Node(id, caption))
  {
    var r := Relabel(nodes, id, caption);
    assert forall k :: 0 <= k < |nodes| ==> r[k].id == nodes[k].id;
    assert Ids(r) == Ids(nodes);
    var i :| 0 <= i < |nodes| && Ids(nodes)[i] == id;
    assert r[i] == Node(id, caption);
    LookupUnique(r, i);
  }

  /** In a store with one node per id, looking up a node's id finds that node. */
  lemma {:induction false} LookupUnique(nodes: seq<Node>, i: nat)
    requires UniqueIds(nodes) && i < |nodes|
    ensures Lookup(nodes, nodes[i].id) == Some(nodes[i])
  {
    if i > 0 {
      assert nodes[0].id != nodes[i].id;
      assert nodes[1..][i - 1] == nodes[i];
      LookupUnique(nodes[1..], i - 1);
    }
  }

  /** Appending a node whose id is new keeps one node per id. */
  lemma AppendFresh(nodes: seq<Node>, n: Node)
    requires UniqueIds(nodes) && n.id !in Ids(nodes)
    ensures UniqueIds(nodes + [n])
  {
    forall i | 0 <= i < |nodes|
      ensures nodes[i].id != n.id
    {
      assert Ids(nodes)[i] == nodes[i].id;
    }
  }

  /**
   * The `addEdge` callback's decision: both ends must be given (a missing or empty id is
   * refused), and a self-loop only when the user confirms it.
   */
  predicate EdgeAccepted(from: Option<string>, to: Option<string>, confirmSelf: bool) {
    from.Some? && from.value != "" && to.Some? && to.value != "" &&
    (from.value == to.value ==> confirmSelf)
  }

  // ---------------------------------------------------------------- the editor

  class GraphEditor {

    /** Whether the page has the preview container (`#graphModePreview`). */
    const hostPresent: bool
    /** Whether the vis-network library was loaded. */
    const visLoaded: bool

    var isInitialized: bool
    var visAvailable: bool
    /** Whether the node and edge stores (and the network) exist. */
    var hasStore: bool
    /** Whether an `onMermaidChange` handler is registered. */
    var notify: bool

    var nodes: seq<Node>
    var edges: seq<Edge>
    var graphHeader: string
    var currentMermaid: string
    var isLoading: bool
    var nextNodeIndex: nat

    /** The invariant of the module's state, the loading flag aside. */
    ghost predicate Consistent()
      reads this`isInitialized, this`hasStore, this`visAvailable, this`nodes, this`edges,
        this`graphHeader, this`nextNodeIndex
    {
      (isInitialized ==> hostPresent) &&
      (hasStore <==> isInitialized && visLoaded) &&
      (visAvailable <==> !(isInitialized && !visLoaded)) &&
      (!hasStore ==> nodes == [] && edges == []) &&
      UniqueIds(nodes) && ValidHeader(graphHeader) && nextNodeIndex >= 1
    }

    /** The state between two event handlers: consistent and not loading. */
    ghost predicate Valid()
      reads this`isInitialized, this`hasStore, this`visAvailable, this`nodes, this`edges,
        this`graphHeader, this`nextNodeIndex, this`isLoading
    {
      Consistent() && !isLoading
    }

    /** The module as it is when first loaded, before `init`. */
    constructor (hostPresent: bool, visLoaded: bool)
      ensures Valid()
      ensures this.hostPresent == hostPresent && this.visLoaded == visLoaded
      ensures !isInitialized && visAvailable && !hasStore && !notify
      ensures nodes == [] && edges == [] && nextNodeIndex == 1
      ensures graphHeader == DefaultHeader && currentMermaid == DefaultHeader
    {
      this.hostPresent := hostPresent;
      this.visLoaded := visLoaded;
      isInitialized := false;
      visAvailable := true;
      hasStore := false;
      notify := false;
      nodes := [];
      edges := [];
      graphHeader := DefaultHeader;
      currentMermaid := DefaultHeader;
      isLoading := false;
      nextNodeIndex := 1;
    }

    /** `getCurrentMermaid`. */
    function CurrentMermaid(): string
      reads this`currentMermaid
    {
      currentMermaid
    }

    /**
     * `updateMermaid`: does nothing while loading; otherwise the current text becomes the
     * serialisation of the store, and is passed to the handler if there is one.
     */
    method UpdateMermaid() returns (notes: seq<string>)
      modifies this`currentMermaid
      ensures isLoading ==> notes == [] && currentMermaid == old(currentMermaid)
      ensures !isLoading ==>
        currentMermaid == Serialize(graphHeader, nodes, edges) &&
        notes == if notify then [currentMermaid] else []
    {
      if isLoading {
        notes := [];
        return;
      }
      currentMermaid := BuildMermaidString(graphHeader, nodes, edges);
      notes := if notify then [currentMermaid] else [];
    }

    /**
     * `init`: the first successful call creates the stores and publishes the (empty) graph;
     * a later call only registers the handler it is given. Without the preview container
     * nothing is set up (but the handler is replaced); without vis-network the editor is
     * marked unavailable.
     */
    method Init(withHandler: bool) returns (notes: seq<string>)
      requires Valid()
      modifies this`isInitialized, this`visAvailable, this`hasStore, this`notify, this`currentMermaid
      ensures Valid()
      ensures old(isInitialized) ==>
        isInitialized && hasStore == old(hasStore) && visAvailable == old(visAvailable) &&
        notify == (old(notify) || withHandler) && notes == [] && currentMermaid == old(currentMermaid)
      ensures !old(isInitialized) ==>
        notify == withHandler && isInitialized == hostPresent && hasStore == (hostPresent && visLoaded) &&
        notes == if hasStore && notify then [Serialize(graphHeader, nodes, edges)] else []
      ensures !old(isInitialized) && hasStore ==> currentMermaid == Serialize(graphHeader, nodes, edges)
      ensures !hasStore ==> currentMermaid == old(currentMermaid)
    {
      if isInitialized {
        if withHandler {
          notify := true;
        }
        notes := [];
        return;
      }
      notify := withHandler;
      if !hostPresent {
        notes := [];
        return;
      }
      if !visLoaded {
        visAvailable := false;
        isInitialized := true;
        notes := [];
        return;
      }
      hasStore := true;
      isInitialized := true;
      notes := UpdateMermaid();
    }

    /**
     * `generateNodeId`: counts up from `nextNodeIndex` until `node_k` is not a node's id
     * (when there is a store to look in), and leaves the counter just past it.
     */
    method GenerateNodeId() returns (id: string)
      modifies this`nextNodeIndex
      ensures nextNodeIndex == (if hasStore then FirstFree(nodes, old(nextNodeIndex)) else old(nextNodeIndex)) + 1
      ensures id == NodeIdFor(nextNodeIndex - 1)
      ensures hasStore ==> id !in Ids(nodes)
    {
      ghost var target := if hasStore then FirstFree(nodes, nextNodeIndex) else nextNodeIndex;
      id := NodeIdFor(nextNodeIndex);
      nextNodeIndex := nextNodeIndex + 1;
      while hasStore && Lookup(nodes, id).Some?
        invariant old(nextNodeIndex) < nextNodeIndex <= target + 1
        invariant id == NodeIdFor(nextNodeIndex - 1)
        invariant !hasStore ==> nextNodeIndex == old(nextNodeIndex) + 1
        decreases target + 1 - nextNodeIndex
      {
        assert nextNodeIndex - 1 != target;
        id := NodeIdFor(nextNodeIndex);
        nextNodeIndex := nextNodeIndex + 1;
      }
      assert hasStore ==> id !in Ids(nodes);
    }

    /** The store's `add` of a node with a fresh id from `generateNodeId` and the given label. */
    method AppendNode(caption: string)
      requires Valid() && hasStore
      modifies this`nodes, this`nextNodeIndex
      ensures Valid()
      ensures var k := FirstFree(old(nodes), old(nextNodeIndex));
        nodes == old(nodes) + [Node(NodeIdFor(k), caption)] && nextNodeIndex == k + 1
    {
      var id := GenerateNodeId();
      AppendFresh(nodes, Node(id, caption));
      nodes := nodes + [Node(id, caption)];
    }

    /**
     * The node the `addNode` callback builds is added to the store (`AppendNode`), and the
     * store's event publishes the text.
     */
    method InsertNode(caption: string) returns (notes: seq<string>)
      requires Valid() && hasStore
      modifies this`nodes, this`nextNodeIndex, this`currentMermaid
      ensures Valid()
      ensures var k := FirstFree(old(nodes), old(nextNodeIndex));
        nodes == old(nodes) + [Node(NodeIdFor(k), caption)] && nextNodeIndex == k + 1
      ensures currentMermaid == Serialize(graphHeader, nodes, edges)
      ensures notes == if notify then [currentMermaid] else []
    {
      AppendNode(caption);
      notes := UpdateMermaid();
    }

    /**
     * The `addNode` callback, given the answer to its prompt: a refused answer changes
     * nothing; otherwise a node with a fresh id and the trimmed label is added.
     */
    method AddNode(answer: Option<string>) returns (notes: seq<string>)
      requires Valid() && hasStore
      modifies this`nodes, this`nextNodeIndex, this`currentMermaid
      ensures Valid()
      ensures AcceptedLabel(answer).None? ==>
        nodes == old(nodes) && nextNodeIndex == old(nextNodeIndex) && notes == [] &&
        currentMermaid == old(currentMermaid)
      ensures AcceptedLabel(answer).Some? ==>
        var k := FirstFree(old(nodes), old(nextNodeIndex));
        nodes == old(nodes) + [Node(NodeIdFor(k), AcceptedLabel(answer).value)] &&
        nextNodeIndex == k + 1 &&
        currentMermaid == Serialize(graphHeader, nodes, edges) &&
        notes == if notify then [currentMermaid] else []
    {
      var accepted := AcceptedLabel(answer);
      if accepted.None? {
        notes := [];
        return;
      }
      notes := InsertNode(accepted.value);
    }

    /** The store's `update({ id, label })` on a node it holds: only that node's label changes. */
    method RelabelNode(id: string, caption: string)
      requires Valid() && hasStore && id in Ids(nodes)
      modifies this`nodes
      ensures Valid()
      ensures nodes == Relabel(old(nodes), id, caption)
    {
      RelabelKeepsIds(nodes, id, caption);
      nodes := Relabel(nodes, id, caption);
    }

    /** A label change (`RelabelNode`) followed by the store's event, which publishes the text. */
    method SetLabel(id: string, caption: string) returns (notes: seq<string>)
      requires Valid() && hasStore && id in Ids(nodes)
      modifies this`nodes, this`currentMermaid
      ensures Valid()
      ensures nodes == Relabel(old(nodes), id, caption)
      ensures currentMermaid == Serialize(graphHeader, nodes, edges)
      ensures notes == if notify then [currentMermaid] else []
    {
      RelabelNode(id, caption);
      notes := UpdateMermaid();
    }

    /**
     * The `editNode` callback on node `id`, given the answer to its prompt: a refused answer
     * changes nothing; otherwise only that node's label changes.
     */
    method EditNode(id: string, answer: Option<string>) returns (notes: seq<string>)
      requires Valid() && hasStore && id in Ids(nodes)
      modifies this`nodes, this`currentMermaid
      ensures Valid()
      ensures AcceptedLabel(answer).None? ==>
        nodes == old(nodes) && notes == [] && currentMermaid == old(currentMermaid)
      ensures AcceptedLabel(answer).Some? ==>
        nodes == Relabel(old(nodes), id, AcceptedLabel(answer).value) &&
        currentMermaid == Serialize(graphHeader, nodes, edges) &&
        notes == if notify then [currentMermaid] else []
    {
      var accepted := AcceptedLabel(answer);
      if accepted.None? {
        notes := [];
        return;
      }
      notes := SetLabel(id, accepted.value);
    }

    /**
     * `handleEditNode`, on a double click on node `nodeId`: nothing without a store, for an
     * unknown id, or for a refused answer; otherwise only that node's label changes.
     */
    method HandleEditNode(nodeId: string, answer: Option<string>) returns (notes: seq<string>)
      requires Valid()
      modifies this`nodes, this`currentMermaid
      ensures Valid()
      ensures !hasStore || nodeId !in Ids(old(nodes)) || AcceptedLabel(answer).None? ==>
        nodes == old(nodes) && notes == [] && currentMermaid == old(currentMermaid)
      ensures hasStore && nodeId in Ids(old(nodes)) && AcceptedLabel(answer).Some? ==>
        nodes == Relabel(old(nodes), nodeId, AcceptedLabel(answer).value) &&
        currentMermaid == Serialize(graphHeader, nodes, edges) &&
        notes == if notify then [currentMermaid] else []
    {
      if !hasStore {
        notes := [];
        return;
      }
      var node := Lookup(nodes, nodeId);
      if node.None? {
        notes := [];
        return;
      }
      var accepted := AcceptedLabel(answer);
      if accepted.None? {
        notes := [];
        return;
      }
      notes := SetLabel(nodeId, accepted.value);
    }

    /**
     * The `addEdge` callback for an edge drawn from `from` to `to` (the store gives the new edge
     * the id `edgeId`); `confirmSelf` is the answer to the self-loop confirmation.
     */
    method AddEdge(from: Option<string>, to: Option<string>, confirmSelf: bool, edgeId: string)
      returns (notes: seq<string>)
      requires Valid() && hasStore
      modifies this`edges, this`currentMermaid
      ensures Valid()
      ensures !EdgeAccepted(from, to, confirmSelf) ==>
        edges == old(edges) && notes == [] && currentMermaid == old(currentMermaid)
      ensures EdgeAccepted(from, to, confirmSelf) ==>
        edges == old(edges) + [Edge(edgeId, from.value, to.value)] &&
        currentMermaid == Serialize(graphHeader, nodes, edges) &&
        notes == if notify then [currentMermaid] else []
    {
      if from.None? || from.value == "" || to.None? || to.value == "" {
        notes := [];
        return;
      }
      if from.value == to.value && !confirmSelf {
        notes := [];
        return;
      }
      edges := edges + [Edge(edgeId, from.value, to.value)];
      notes := UpdateMermaid();
    }

    /**
     * The clear button, given the answer to its confirmation: both stores are emptied, nodes
     * first, and each emptying publishes the text.
     */
    method ClearAll(confirmed: bool) returns (notes: seq<string>)
      requires Valid() && hasStore
      modifies this`nodes, this`edges, this`currentMermaid
      ensures Valid()
      ensures !confirmed ==>
        nodes == old(nodes) && edges == old(edges) && notes == [] && currentMermaid == old(currentMermaid)
      ensures confirmed ==>
        nodes == [] && edges == [] && currentMermaid == Serialize(graphHeader, [], []) &&
        notes == if notify then [Serialize(graphHeader, [], old(edges)), currentMermaid] else []
    {
      if !confirmed {
        notes := [];
        return;
      }
      nodes := [];
      var first := UpdateMermaid();
      edges := [];
      var second := UpdateMermaid();
      notes := first + second;
    }

    /** `nodesDataSet.clear()` then `edgesDataSet.clear()` while loading: their events publish nothing. */
    method ClearStores()
      requires isLoading && Consistent() && hasStore
      modifies this`nodes, this`edges, this`currentMermaid
      ensures Consistent()
      ensures nodes == [] && edges == [] && currentMermaid == old(currentMermaid)
    {
      nodes := [];
      var silenced := UpdateMermaid();
      edges := [];
      silenced := UpdateMermaid();
    }

    /**
     * The rest of a load while `isLoading` holds: the header (or the default one) and the counter
     * are taken from `parsed`, then its nodes and its edges are added to the emptied stores; the
     * store events publish nothing.
     */
    method FillStores(parsed: ParseResult)
      requires isLoading && Consistent() && hasStore && nodes == [] && edges == []
      requires ValidHeader(parsed.header) && parsed.header != "" && UniqueIds(parsed.nodes) && parsed.nextIndex >= 1
      modifies this`graphHeader, this`nextNodeIndex, this`nodes, this`edges, this`currentMermaid
      ensures Consistent()
      ensures graphHeader == parsed.header && nextNodeIndex == parsed.nextIndex
      ensures nodes == parsed.nodes && edges == parsed.edges && currentMermaid == old(currentMermaid)
    {
      graphHeader := if parsed.header != "" then parsed.header else DefaultHeader;
      nextNodeIndex := parsed.nextIndex;
      if |parsed.nodes| > 0 {
        nodes := parsed.nodes;
        var silenced := UpdateMermaid();
      }
      if |parsed.edges| > 0 {
        edges := parsed.edges;
        var silenced := UpdateMermaid();
      }
    }

    /**
     * The end of a load, once the stores are empty: `parsed` is installed (`FillStores`), loading
     * ends, and the text is published once.
     */
    method Install(parsed: ParseResult) returns (notes: seq<string>)
      requires isLoading && Consistent() && hasStore && nodes == [] && edges == []
      requires ValidHeader(parsed.header) && parsed.header != "" && UniqueIds(parsed.nodes) && parsed.nextIndex >= 1
      modifies this`graphHeader, this`nextNodeIndex, this`nodes, this`edges, this`isLoading,
        this`currentMermaid
      ensures Valid()
      ensures graphHeader == parsed.header && nextNodeIndex == parsed.nextIndex
      ensures nodes == parsed.nodes && edges == parsed.edges
      ensures currentMermaid == Serialize(graphHeader, nodes, edges)
      ensures notes == if notify then [currentMermaid] else []
    {
      FillStores(parsed);
      isLoading := false;
      notes := UpdateMermaid();
    }

    /**
     * The second half of `loadFromMermaid`, with a store: the stores are replaced by the parse of
     * `source`, the header and the counter are taken from it, and, the intermediate store events
     * being silenced by `isLoading`, the text is published exactly once.
     */
    method Reload(source: string) returns (notes: seq<string>)
      requires Valid() && hasStore
      modifies this`nodes, this`edges, this`graphHeader, this`nextNodeIndex, this`isLoading,
        this`currentMermaid
      ensures Valid()
      ensures var p := Parse(source);
        nodes == p.nodes && edges == p.edges && graphHeader == p.header && nextNodeIndex == p.nextIndex
      ensures currentMermaid == Serialize(graphHeader, nodes, edges)
      ensures notes == if notify then [currentMermaid] else []
    {
      isLoading := true;
      ClearStores();
      var parsed := ParseMermaidSource(source);
      ParsedStoreValid(source);
      notes := Install(parsed);
    }

    /**
     * `loadFromMermaid`: without a store, only the text is taken (when non-empty); otherwise the
     * store is reloaded from `source`.
     */
    method Load(source: string) returns (notes: seq<string>)
      requires Valid()
      modifies this`nodes, this`edges, this`graphHeader, this`nextNodeIndex, this`isLoading,
        this`currentMermaid
      ensures Valid()
      ensures !hasStore ==>
        nodes == old(nodes) && edges == old(edges) && graphHeader == old(graphHeader) &&
        nextNodeIndex == old(nextNodeIndex) && notes == [] &&
        currentMermaid == if source != "" then source else old(currentMermaid)
      ensures hasStore ==>
        var p := Parse(source);
        nodes == p.nodes && edges == p.edges && graphHeader == p.header && nextNodeIndex == p.nextIndex &&
        currentMermaid == Serialize(graphHeader, nodes, edges) &&
        notes == if notify then [currentMermaid] else []
    {
      if !hasStore {
        currentMermaid := if source != "" then source else currentMermaid;
        notes := [];
        return;
      }
      notes := Reload(source);
    }

    /**
     * `openEditor`: `init` without a handler, then either (editor unavailable) take the text,
     * or load it.
     */
    method Open(initialSource: string) returns (notes: seq<string>)
      requires Valid()
      modifies this`isInitialized, this`visAvailable, this`hasStore, this`notify,
        this`nodes, this`edges, this`graphHeader, this`nextNodeIndex, this`isLoading,
        this`currentMermaid
      ensures Valid()
      ensures isInitialized == (old(isInitialized) || hostPresent)
      ensures old(isInitialized) ==> hasStore == old(hasStore) && notify == old(notify)
      ensures !old(isInitialized) ==> !notify
      ensures hasStore ==>
        var p := Parse(initialSource);
        nodes == p.nodes && edges == p.edges && graphHeader == p.header && nextNodeIndex == p.nextIndex &&
        currentMermaid == Serialize(p.header, p.nodes, p.edges) &&
        notes == if notify then [currentMermaid] else []
      ensures !hasStore ==>
        nodes == [] && edges == [] && graphHeader == old(graphHeader) && notes == [] &&
        currentMermaid == if initialSource != "" then initialSource else old(currentMermaid)
    {
      var first := Init(false);
      if !visAvailable {
        currentMermaid := if initialSource != "" then initialSource else currentMermaid;
        notes := first;
        return;
      }
      var second := Load(initialSource);
      notes := first + second;
    }

    /** `closeEditor`: when the editor is available, the current text is rebuilt from the store. */
    method Close()
      requires Valid()
      modifies this`currentMermaid
      ensures visAvailable ==> currentMermaid == Serialize(graphHeader, nodes, edges)
      ensures !visAvailable ==> currentMermaid == old(currentMermaid)
    {
      if !visAvailable {
        return;
      }
      currentMermaid := BuildMermaidString(graphHeader, nodes, edges);
    }
  }
}

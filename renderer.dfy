/**
 * The renderer's mode controller (renderer.js): the main text editor, the flag that says whether
 * the graph editor is shown, and the two handlers that move the text between the main editor and
 * the graph editor.
 *
 * Rendering a diagram (`renderMermaid`) is recorded in `rendered`, the texts passed to it in order;
 * what Mermaid draws is not modelled. Showing and hiding the two containers is not modelled.
 */
module Renderer {

  import opened Graph
  import opened Parser
  import opened Serializer
  import opened GraphEditing

  /** The main editor's document when the page starts. */
  const InitialDoc: string := "graph TD\n    A[\U{5F00}\U{59CB}] --> B[\U{7ED3}\U{675F}]"

  class Workspace {

    /** Whether the main editor exists (`globalState.editor`). */
    const hasEditor: bool
    /** The main editor's document. */
    var editorText: string
    /** The texts passed to `renderMermaid`, oldest first. */
    var rendered: seq<string>
    /** `modeState.isGraphMode`. */
    var isGraphMode: bool
    /** The graph editor module. */
    const graph: GraphEditor

    /**
     * The graph editor was set up at start-up with this workspace's handler: it is initialised
     * exactly when the page has its preview container, and then it reports every change; without
     * a store its header stays the default one.
     */
    ghost predicate Valid()
      reads graph`isInitialized, graph`hasStore, graph`visAvailable, graph`nodes, graph`edges,
        graph`graphHeader, graph`nextNodeIndex, graph`isLoading, graph`notify
    {
      graph.Valid() && graph.isInitialized == graph.hostPresent &&
      (graph.isInitialized ==> graph.notify) &&
      (!graph.hasStore ==> graph.graphHeader == DefaultHeader)
    }

    /**
     * The `DOMContentLoaded` handler: the main editor is created with the initial document, which
     * is rendered; the graph editor is initialised with `handleGraphMermaidChange` as its handler,
     * and the text state it publishes is ignored, the workspace being in text mode.
     */
    constructor (hasEditor: bool, hostPresent: bool, visLoaded: bool)
      ensures Valid() && !isGraphMode
      ensures this.hasEditor == hasEditor
      ensures editorText == (if hasEditor then InitialDoc else "")
      ensures rendered == (if hasEditor then [InitialDoc] else [])
      ensures fresh(graph) && graph.hostPresent == hostPresent && graph.visLoaded == visLoaded
      ensures graph.hasStore == (hostPresent && visLoaded) && graph.nodes == [] && graph.edges == []
    {
      this.hasEditor := hasEditor;
      editorText := if hasEditor then InitialDoc else "";
      rendered := if hasEditor then [InitialDoc] else [];
      isGraphMode := false;
      var g := new GraphEditor(hostPresent, visLoaded);
      graph := g;
      new;
      var notes := g.Init(true);
      assert g.graphHeader == DefaultHeader && g.nodes == [] && g.edges == [];
      Deliver(notes);
    }

    /** `renderMermaid`: the text is handed to Mermaid. */
    method RenderMermaid(text: string)
      modifies this`rendered
      ensures rendered == old(rendered) + [text]
    {
      rendered := rendered + [text];
    }

    /**
     * `updateMainEditorContent`: with an editor, its whole document is replaced by `newContent`;
     * a transaction is dispatched only when the document differs, so a second call with the same
     * text dispatches nothing.
     */
    method UpdateMainEditorContent(newContent: string) returns (dispatched: bool)
      modifies this`editorText
      ensures editorText == if hasEditor then newContent else old(editorText)
      ensures dispatched <==> hasEditor && old(editorText) != newContent
    {
      if !hasEditor {
        return false;
      }
      if editorText == newContent {
        return false;
      }
      editorText := newContent;
      dispatched := true;
    }

    /**
     * `handleGraphMermaidChange`: ignored in text mode; in graph mode the text goes into the
     * main editor and is rendered.
     */
    method HandleGraphMermaidChange(text: string)
      modifies this`editorText, this`rendered
      ensures !isGraphMode ==> editorText == old(editorText) && rendered == old(rendered)
      ensures isGraphMode ==>
        editorText == (if hasEditor then text else old(editorText)) && rendered == old(rendered) + [text]
    {
      if !isGraphMode {
        return;
      }
      var dispatched := UpdateMainEditorContent(text);
      RenderMermaid(text);
    }

    /**
     * The texts the graph editor published during one operation reach the handler in order:
     * in graph mode all of them are rendered and the editor keeps the last one.
     */
    method Deliver(notes: seq<string>)
      modifies this`editorText, this`rendered
      ensures !isGraphMode ==> editorText == old(editorText) && rendered == old(rendered)
      ensures isGraphMode ==> rendered == old(rendered) + notes
      ensures isGraphMode ==>
        editorText == if hasEditor && notes != [] then notes[|notes| - 1] else old(editorText)
    {
      for i := 0 to |notes|
        invariant !isGraphMode ==> editorText == old(editorText) && rendered == old(rendered)
        invariant isGraphMode ==> rendered == old(rendered) + notes[..i]
        invariant isGraphMode ==>
          editorText == if hasEditor && i > 0 then notes[i - 1] else old(editorText)
      {
        HandleGraphMermaidChange(notes[i]);
        assert notes[..i + 1] == notes[..i] + [notes[i]];
      }
      assert notes[..|notes|] == notes;
    }

    /**
     * `ModeModule.enterGraphMode`: nothing if already in graph mode; otherwise the graph editor is
     * opened on the main editor's text (empty without an editor). With a store, the graph is the
     * parse of that text, and its text form comes back at once into the main editor.
     */
    method EnterGraphMode()
      requires Valid()
      modifies this`isGraphMode, this`editorText, this`rendered,
        graph`isInitialized, graph`visAvailable, graph`hasStore, graph`notify, graph`nodes,
        graph`edges, graph`graphHeader, graph`nextNodeIndex, graph`isLoading, graph`currentMermaid
      ensures Valid() && isGraphMode
      ensures old(isGraphMode) ==>
        editorText == old(editorText) && rendered == old(rendered) &&
        graph.nodes == old(graph.nodes) && graph.edges == old(graph.edges) &&
        graph.currentMermaid == old(graph.currentMermaid)
      ensures !old(isGraphMode) && graph.hasStore ==>
        var p := Parse(if hasEditor then old(editorText) else "");
        graph.nodes == p.nodes && graph.edges == p.edges && graph.graphHeader == p.header &&
        graph.currentMermaid == Serialize(p.header, p.nodes, p.edges) &&
        editorText == (if hasEditor then graph.currentMermaid else old(editorText)) &&
        rendered == old(rendered) + [graph.currentMermaid]
      ensures !old(isGraphMode) && !graph.hasStore ==>
        var source := if hasEditor then old(editorText) else "";
        editorText == old(editorText) && rendered == old(rendered) &&
        graph.nodes == [] && graph.edges == [] && graph.graphHeader == DefaultHeader &&
        graph.currentMermaid == if source != "" then source else old(graph.currentMermaid)
    {
      if isGraphMode {
        return;
      }
      isGraphMode := true;
      var source := if hasEditor then editorText else "";
      var notes := graph.Open(source);
      Deliver(notes);
    }

    /**
     * `ModeModule.enterTextMode`: nothing if already in text mode; otherwise the graph editor is
     * closed, and its current text goes into the main editor and is rendered.
     */
    method EnterTextMode()
      requires Valid()
      modifies this`isGraphMode, this`editorText, this`rendered, graph`currentMermaid
      ensures Valid() && !isGraphMode
      ensures !old(isGraphMode) ==>
        editorText == old(editorText) && rendered == old(rendered) &&
        graph.currentMermaid == old(graph.currentMermaid)
      ensures old(isGraphMode) ==>
        graph.currentMermaid ==
          (if graph.visAvailable then Serialize(graph.graphHeader, graph.nodes, graph.edges)
           else old(graph.currentMermaid)) &&
        editorText == (if hasEditor then graph.currentMermaid else old(editorText)) &&
        rendered == old(rendered) + [graph.currentMermaid]
    {
      if !isGraphMode {
        return;
      }
      isGraphMode := false;
      graph.Close();
      var text := graph.CurrentMermaid();
      var dispatched := UpdateMainEditorContent(text);
      RenderMermaid(text);
    }

    /**
     * Entering graph mode and leaving it again without an edit, with a store: the graph is the
     * parse of what the main editor held, and the main editor ends with that graph's text form.
     */
    method GraphModeRoundTrip()
      requires Valid() && !isGraphMode && hasEditor && graph.hasStore
      modifies this`isGraphMode, this`editorText, this`rendered,
        graph`isInitialized, graph`visAvailable, graph`hasStore, graph`notify, graph`nodes,
        graph`edges, graph`graphHeader, graph`nextNodeIndex, graph`isLoading, graph`currentMermaid
      ensures Valid() && !isGraphMode
      ensures var p := Parse(old(editorText));
        graph.graphHeader == p.header && graph.nodes == p.nodes && graph.edges == p.edges
      ensures editorText == Serialize(graph.graphHeader, graph.nodes, graph.edges)
    {
      EnterGraphMode();
      EnterTextMode();
    }

    /**
     * The same without a store. When vis-network is missing, the text comes back unchanged (unless
     * it was empty). Without the preview container the graph editor never gets a store yet still
     * counts as available, so leaving graph mode writes the bare default header over the editor.
     */
    method StorelessRoundTrip()
      requires Valid() && !isGraphMode && hasEditor && !graph.hasStore
      modifies this`isGraphMode, this`editorText, this`rendered,
        graph`isInitialized, graph`visAvailable, graph`hasStore, graph`notify, graph`nodes,
        graph`edges, graph`graphHeader, graph`nextNodeIndex, graph`isLoading, graph`currentMermaid
      ensures Valid() && !isGraphMode
      ensures !graph.visAvailable ==>
        editorText == (if old(editorText) != "" then old(editorText) else old(graph.currentMermaid))
      ensures graph.visAvailable ==> editorText == DefaultHeader
      ensures rendered == old(rendered) + [editorText]
    {
      EnterGraphMode();
      EnterTextMode();
      SerializeEmpty(graph.graphHeader);
    }
  }
}

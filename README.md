# Mermaid graph editor: text ↔ graph translation

This project models the core of a desktop Mermaid editor. The core is the part that turns the
text in the main editor into an editable node/edge graph and turns the graph back into text.

- `src/graphEditorModule.js` is a module with private state: the vis-network node and edge
  stores, the header, the current text, the `isLoading` guard and the counter for new node ids.
  Its parser (`parseMermaidSource`) reads `graph …` headers, `id[label]` node lines and
  `a --> b` edge lines. Its serialiser (`buildMermaidString`) writes the store back as text,
  with `sanitizeId` and `escapeLabel` applied. The handlers behind the canvas's add/edit
  callbacks, the double-click and the clear button change the stores, and each store change
  republishes the text through `updateMermaid`.
- `src/renderer.js` holds the mode switch `modeState.isGraphMode`.
  `ModeModule.enterGraphMode` opens the graph editor on the main editor's text, and
  `enterTextMode` writes the graph's text back. `handleGraphMermaidChange` mirrors every
  published text into the main editor and the diagram while graph mode is on.

The model is split into modules along the source's structure:

| file | module | what |
|---|---|---|
| `text.dfy` | `JsText` | `trim`, `split('\n')`/`join('\n')`, decimal counters and `parseInt` |
| `graph.dfy` | `Graph` | nodes `{id, label}`, edges `{id, from, to}`, lookup by id |
| `sanitizer.dfy` | `Sanitizer` | `sanitizeId`, `escapeLabel` and its inverse |
| `patterns.dfy` | `Patterns` | the edge, node and numeric-suffix regular expressions as matchers |
| `parser.dfy` | `Parser` | `parseMermaidSource`: a fold over lines (specification) and the loops (method) |
| `serializer.dfy` | `Serializer` | `buildMermaidString`: the id sort, the lines, the join |
| `roundtrip.dfy` | `RoundTrip` | parsing what was serialised |
| `graph_editor.dfy` | `GraphEditing` | the module's state as class `GraphEditor` and its operations |
| `renderer.dfy` | `Renderer` | the main editor, the mode flag and the two mode switches as class `Workspace` |

The parser and the serialiser are pure code, so they are functions and lemmas. The loops of
`parseMermaidSource` and `buildMermaidString` are also written as methods with loop invariants,
and each method is proved equal to its function. The editor state and the mode controller
change state in place, so they are classes. Each method states its whole new state, in terms of
`Parse` and `Serialize`, and the properties of those two functions are lemmas.

### Where the code and its description differ (the model follows the code)

- Round trip. Reading back the serialised text does not give back every graph with unique
  ids. A label with `[` or `]` is written escaped but read back with its backslashes. An
  empty, untrimmed or multi-line label changes on the way back. A non-word id (say `a-b`) does
  not match the node pattern. An edge leaving a node whose id is `graph` is written as a line
  that starts with `graph `, which is read back as the header, and the edge is lost
  (`RoundTrip.GraphEdgeReadAsHeader`). `RoundTrip.ParseSerialize` therefore holds for the graphs
  that `RoundTrip.Representable` describes, and it yields the nodes sorted by id and the edges
  renumbered.
- Dangling edges. The serialiser's guard `if (!from || !to) continue` never fires, because
  `sanitizeId` never returns an empty string. An edge whose endpoints are not nodes is still
  written out (`Serializer.EdgeLinesSnoc`, `Serializer.EdgeLinesComplete`).
- Label acceptance. A prompt answer is accepted when its trim is non-empty, and the trimmed
  text is stored. No other sanitising is applied (`GraphEditing.AcceptedLabel`).
- Switching to graph mode and back does not give back the original text. It gives the
  serialisation of its parse (`Renderer.Workspace.GraphModeRoundTrip`). When vis-network is
  missing, the text comes back unchanged, unless it was empty. An empty text comes back as the
  last text the graph editor published, because `openEditor` falls back to it
  (`initialSource || currentMermaid`). When the preview container is missing, the graph
  editor never gets a store but still counts as available. Leaving graph mode then writes the
  bare `graph TD` over the main editor (`Renderer.Workspace.StorelessRoundTrip`).

## Model

| member | source | states |
|---|---|---|
| JsText.Trim | src/graphEditorModule.js:391 | a trimmed line has no leading or trailing whitespace and is no longer than the line |
| JsText.TrimIdempotent | src/graphEditorModule.js:391 | trimming a trimmed text changes nothing |
| JsText.Split | src/graphEditorModule.js:386 | splitting at newlines yields at least one piece and no piece holds a newline |
| JsText.SplitJoin | src/graphEditorModule.js:472 | splitting the joined lines gives the lines back when none holds a newline |
| JsText.JoinSplit | src/graphEditorModule.js:386 | joining the pieces of a split gives the text back |
| JsText.DigitsValueOfDecimal | src/graphEditorModule.js:434 | `parseInt` of a formatted counter is the counter |
| Graph.Lookup | src/graphEditorModule.js:290 | a lookup finds a node exactly when the id is held, and what it finds has that id |
| Sanitizer.CollapseSpaces | src/graphEditorModule.js:452 | replacing whitespace runs leaves no whitespace and keeps a non-empty text non-empty |
| Sanitizer.CollapseRun | src/graphEditorModule.js:452 | one run of whitespace becomes exactly one underscore and the text around it is kept |
| Sanitizer.SanitizeId | src/graphEditorModule.js:449-453 | a sanitised id is never empty and has no whitespace; a blank id becomes `node` |
| Sanitizer.SanitizeSpaceFree | src/graphEditorModule.js:449-453 | a non-empty id without whitespace is kept as it is |
| Sanitizer.SanitizeWord | src/graphEditorModule.js:449-453 | ids matched by the id patterns are already sanitised |
| Sanitizer.SanitizeIdempotent | src/graphEditorModule.js:449-453 | sanitising twice is the same as sanitising once |
| Sanitizer.EscapeLabelCons | src/graphEditorModule.js:475-479 | escaping works character by character: only brackets get a backslash |
| Sanitizer.EscapeLabelInverse | src/graphEditorModule.js:475-479 | escaping is injective: unescaping the escaped label gives back every label |
| Sanitizer.BracketFreeUnescaped | src/graphEditorModule.js:475-479 | a label without brackets is written unchanged |
| Patterns.WordEnd | src/graphEditorModule.js:398 | an id group is the maximal run of word characters |
| Patterns.SpaceEnd | src/graphEditorModule.js:398 | `\s*` consumes the maximal run of whitespace |
| Patterns.CloseAt | src/graphEditorModule.js:398 | a lazy label stops at the first `]` where the rest of the pattern can match, and never crosses a line terminator |
| Patterns.MatchTarget | src/graphEditorModule.js:398 | after the arrow, the target is a word id and its label holds no line terminator |
| Patterns.MatchTargetGroups | src/graphEditorModule.js:398 | after the arrow and its spaces, the target id is the whole run of word characters; its label is present exactly when a `[` follows and the lazy group finds its `]`, and is then the text up to that `]` |
| Patterns.MatchEdge | src/graphEditorModule.js:398 | a match's source id is a word prefix of the line followed by a non-word character, its target a word, its labels one-line |
| Patterns.MatchEdgeGroups | src/graphEditorModule.js:398 | in a match, the source id is the whole run of word characters at the start; its label is present exactly when a `[` follows and the lazy group finds a `]` with an arrow after it, and is then the text up to that `]` |
| Patterns.MatchEdgeOfShape | src/graphEditorModule.js:398 | every line `f[l] --> t[l']`, with word ids, any spaces around the arrow and either label optional and free of `]` and line terminators, matches with exactly those groups |
| Patterns.MatchNodeOfShape | src/graphEditorModule.js:419 | every `id[text]` line with a word id and a non-empty one-line text matches the node pattern |
| Patterns.ShapeOfMatchNode | src/graphEditorModule.js:419 | every node-pattern match has the shape `id[text]` with a word id and a non-empty one-line text |
| Patterns.MatchNodeIff | src/graphEditorModule.js:419 | the node pattern matches exactly those lines, in both directions |
| Patterns.TrailingDigits | src/graphEditorModule.js:432 | the digit group is the maximal digit suffix of the id |
| Patterns.NumericSuffixOfNumbered | src/graphEditorModule.js:432-434 | an id `prefix_k` yields the suffix number `k` |
| Parser.AddIfAbsent | src/graphEditorModule.js:403-414 | adding to the node map keeps every known node; a known id leaves the map as it was, a new one appends the node at the end |
| Parser.ApplyEdge | src/graphEditorModule.js:399-416 | an edge line keeps the header and the known nodes and appends exactly one edge |
| Parser.ApplyNode | src/graphEditorModule.js:420-426 | a node line keeps the header, the edges and the known nodes |
| Parser.Classify | src/graphEditorModule.js:392-426 | the tests are tried in order (blank or comment, header, edge pattern, node pattern) and the first that applies decides, in both directions |
| Parser.ParseLine | src/graphEditorModule.js:390-427 | one line never removes a node or an edge and adds at most one edge; a skipped line changes nothing; a header line changes only the header |
| Parser.ParseMermaidSource | src/graphEditorModule.js:383-447 | the parser's two loops compute exactly the fold of the line reader and the `nextIndex` bound |
| Parser.ReadLine | src/graphEditorModule.js:391-426 | the loop body on one line does what the line reader specifies and keeps the edge counter equal to the number of edges |
| Parser.ComputeNextIndex | src/graphEditorModule.js:429-445 | the suffix loop and the `Math.max` compute the next free index |
| Parser.ParseLineHeader | src/graphEditorModule.js:393-396 | a header line replaces the header with its trimmed text; no other line touches it |
| Parser.HeaderIsLastHeaderLine | src/graphEditorModule.js:387-396 | the parsed header is the last `graph ` line of the source, or `graph TD` when there is none |
| Parser.DefaultHeaderValid | src/graphEditorModule.js:387 | the default header is a trimmed one-line `graph ` header |
| Parser.LastHeaderValid | src/graphEditorModule.js:393-396 | the last header line of newline-free lines is a valid header |
| Parser.ParsedHeaderValid | src/graphEditorModule.js:383-447 | whatever the source, the parsed header is a trimmed one-line `graph ` header |
| Parser.ApplyEdges | src/graphEditorModule.js:415 | a line appends the edge it declares, under the next number, and nothing else |
| Parser.EdgesFollowEdgeLines | src/graphEditorModule.js:398-416 | the parsed edges connect exactly the pairs the edge lines declare, duplicates included, in line order, numbered `edge_0`, `edge_1`, … |
| Parser.AddIfAbsentUnique | src/graphEditorModule.js:403-414 | the node map keeps one node per id and forgets no id |
| Parser.ParseWellFormed | src/graphEditorModule.js:383-447 | the parse has one node per id and every edge joins two parsed nodes |
| Parser.FirstOccurrenceWins | src/graphEditorModule.js:403-425 | the nodes known after any prefix of the source survive to the end, with the same labels and order |
| Parser.UnmatchedLineIgnored | src/graphEditorModule.js:419-426 | a line that matches neither pattern changes nothing unless it is a header line |
| Parser.NodeLineAdds | src/graphEditorModule.js:419-426 | a node line adds its node, with the trimmed label, exactly when the id is new |
| Parser.EdgeLineAdds | src/graphEditorModule.js:398-416 | an edge line appends `edge_<n>` from `f` to `t`, after creating `f` and then `t` when unknown, each labelled with its trimmed bracket text, or with its id when the brackets are absent or empty |
| Parser.HighestSuffixIsMax | src/graphEditorModule.js:429-439 | `highestIndex` is the largest numeric suffix among the ids and is attained, or 0 when there is none |
| Parser.NextIndexAbove | src/graphEditorModule.js:445 | `nextIndex` exceeds every numeric suffix and the number of nodes |
| Serializer.PrecedesIrreflexive | src/graphEditorModule.js:458 | no id sorts before itself |
| Serializer.PrecedesTransitive | src/graphEditorModule.js:458 | the id order is transitive |
| Serializer.PrecedesTotal | src/graphEditorModule.js:458 | any two distinct ids are ordered one way or the other |
| Serializer.Insert | src/graphEditorModule.js:458 | inserting a node lengthens the sequence by one |
| Serializer.InsertPermutes | src/graphEditorModule.js:458 | inserting adds the node and nothing else |
| Serializer.InsertSorted | src/graphEditorModule.js:458 | inserting a node with a new id into an id-sorted sequence keeps it sorted |
| Serializer.SortById | src/graphEditorModule.js:458 | sorting keeps the number of nodes |
| Serializer.SortByIdPermutes | src/graphEditorModule.js:458 | sorting is a permutation of the nodes |
| Serializer.SortByIdSorted | src/graphEditorModule.js:458 | with distinct ids, the sorted ids strictly increase |
| Serializer.SortedUnique | src/graphEditorModule.js:458 | two id-sorted arrangements of the same nodes are equal |
| Serializer.SortByIdCanonical | src/graphEditorModule.js:458 | the written order does not depend on the stores' insertion order when ids are distinct |
| Serializer.HeaderLine | src/graphEditorModule.js:456 | the written header line is never empty, and is a trimmed one-line `graph ` header whenever the stored header is one or is empty |
| Serializer.EdgeLinesSnoc | src/graphEditorModule.js:463-470 | the empty-id guard never drops an edge: each edge adds its own line |
| Serializer.EdgeLinesComplete | src/graphEditorModule.js:463-470 | there is one edge line per edge, in store order, dangling edges included |
| Serializer.SerializeLines | src/graphEditorModule.js:455-473 | splitting the text gives back the header, node and edge lines when no header, id or label holds a newline |
| Serializer.SerializeEmpty | src/graphEditorModule.js:455-473 | an empty store is written as its header line alone |
| Serializer.BuildMermaidString | src/graphEditorModule.js:455-473 | the loops produce the header line, the node lines in id order, the edge lines in store order, joined by newlines |
| RoundTrip.EdgeTextMatch | src/graphEditorModule.js:398 | a written edge line matches the edge pattern with its two ids and no labels |
| RoundTrip.EdgeTextHeader | src/graphEditorModule.js:392-396 | a written edge line is taken for a header exactly when its source id is `graph` |
| RoundTrip.NodeTextNoEdge | src/graphEditorModule.js:398 | a written node line with a bracket-free label does not match the edge pattern |
| RoundTrip.NodeLineParses | src/graphEditorModule.js:460 | a plain node's line reads back as that node when its id is new, and changes nothing otherwise |
| RoundTrip.EdgeLineParses | src/graphEditorModule.js:469 | an edge line between known word ids appends the same endpoints under the next edge number |
| RoundTrip.GraphEdgeReadAsHeader | src/graphEditorModule.js:393-396 | the line of an edge leaving node `graph` replaces the header and the edge is lost |
| RoundTrip.HeaderPhase | src/graphEditorModule.js:456 | the written header line reads back as the same header |
| RoundTrip.NodePhase | src/graphEditorModule.js:459-461 | the header and node lines read back as the same header and nodes, in order |
| RoundTrip.EdgePhase | src/graphEditorModule.js:463-470 | after the edge lines the nodes are untouched and the edges have the same endpoints, in order |
| RoundTrip.ParseSerialize | src/graphEditorModule.js:383-473 | reading back a representable graph gives its header, its nodes sorted by id, its edges' endpoints in order renumbered from `edge_0`, and the next index of those nodes |
| RoundTrip.SerializeParseSerialize | src/graphEditorModule.js:383-473 | the text of a representable graph is a fixpoint of reading back and writing again |
| RoundTrip.EdgeLinesEndpoints | src/graphEditorModule.js:463-470 | edge lines depend only on the endpoints, not on edge ids |
| GraphEditing.NumberedIdBounded | src/graphEditorModule.js:432-436 | a held id `node_k` has `k` at most the highest suffix |
| GraphEditing.FirstFree | src/graphEditorModule.js:310-316 | the id loop stops at the first free `node_k` at or after the counter |
| GraphEditing.FreshAfterLoad | src/graphEditorModule.js:363-365 | right after a load the counter already names a free id |
| GraphEditing.ParsedStoreValid | src/graphEditorModule.js:363-372 | a parse can be installed: valid non-empty header, one node per id, counter at least 1 |
| GraphEditing.AcceptedLabel | src/graphEditorModule.js:174-185 | an answer is refused exactly when cancelled or blank after trimming; otherwise the label is its trim |
| GraphEditing.Relabel | src/graphEditorModule.js:296 | updating a label changes only the node with that id |
| GraphEditing.RelabelKeepsIds | src/graphEditorModule.js:296 | relabelling keeps every id and one node per id, and the node is then found with the new label |
| GraphEditing.LookupUnique | src/graphEditorModule.js:290 | with one node per id, looking up a node's id finds that node |
| GraphEditing.AppendFresh | src/graphEditorModule.js:183-185 | adding a node with a new id keeps one node per id |
| GraphEditing.GraphEditor.constructor | src/graphEditorModule.js:5-17 | the module's state when first loaded: no store, header and text `graph TD`, counter 1, available |
| GraphEditing.GraphEditor.UpdateMermaid | src/graphEditorModule.js:481-498 | silent while loading; otherwise the text becomes the store's serialisation and is passed to the handler when one is registered |
| GraphEditing.GraphEditor.Init | src/graphEditorModule.js:19-82 | the first successful call creates the stores and publishes their text once; a repeat only installs a new handler; a missing container or library leaves no store |
| GraphEditing.GraphEditor.GenerateNodeId | src/graphEditorModule.js:310-316 | the minted id is `node_k` for the first free `k`, not held by any node, and the counter moves past it |
| GraphEditing.GraphEditor.AppendNode | src/graphEditorModule.js:183-185 | the store gains exactly one node, with a fresh id and the given label, and keeps one node per id |
| GraphEditing.GraphEditor.InsertNode | src/graphEditorModule.js:183-185 | adding the node also publishes the new text once |
| GraphEditing.GraphEditor.AddNode | src/graphEditorModule.js:171-187 | a refused answer changes nothing; otherwise one node with a fresh id and the trimmed label is added and the text published |
| GraphEditing.GraphEditor.RelabelNode | src/graphEditorModule.js:296 | only the named node's label changes; ids stay unique |
| GraphEditing.GraphEditor.SetLabel | src/graphEditorModule.js:296 | relabelling also publishes the new text once |
| GraphEditing.GraphEditor.EditNode | src/graphEditorModule.js:188-203 | a refused answer changes nothing; otherwise only that node's label changes, to the trimmed answer |
| GraphEditing.GraphEditor.HandleEditNode | src/graphEditorModule.js:288-297 | nothing happens without a store, for an unknown id, or for a refused answer; otherwise only that node is relabelled |
| GraphEditing.GraphEditor.AddEdge | src/graphEditorModule.js:204-217 | an edge with a missing end, or an unconfirmed self-loop, is refused; otherwise exactly that edge is appended and the text published |
| GraphEditing.GraphEditor.ClearAll | src/graphEditorModule.js:257-268 | unconfirmed: nothing changes; confirmed: both stores are empty and the text is published twice, nodes first |
| GraphEditing.GraphEditor.ClearStores | src/graphEditorModule.js:359-361 | both stores are emptied and, while loading, nothing is published |
| GraphEditing.GraphEditor.FillStores | src/graphEditorModule.js:363-372 | while loading, the stores, header and counter become the parse, and nothing is published |
| GraphEditing.GraphEditor.Install | src/graphEditorModule.js:363-375 | the parse is installed, loading ends and the text is published exactly once |
| GraphEditing.GraphEditor.Reload | src/graphEditorModule.js:359-375 | the store is replaced by the parse of the source and the text is published exactly once |
| GraphEditing.GraphEditor.Load | src/graphEditorModule.js:343-381 | without a store only a non-empty text is taken; with one, the store becomes the parse and its text is published once |
| GraphEditing.GraphEditor.Open | src/graphEditorModule.js:318-336 | opening initialises without a handler, then takes the text (no store) or loads the store from it |
| GraphEditing.GraphEditor.Close | src/graphEditorModule.js:338-341 | when available, the current text is rebuilt from the store; otherwise it is kept |
| Renderer.Workspace.constructor | src/renderer.js:640-650 | start-up: the initial document is in the editor and rendered, the graph editor is initialised with the handler, text mode |
| Renderer.Workspace.RenderMermaid | src/renderer.js:271-296 | each render is recorded, in order |
| Renderer.Workspace.UpdateMainEditorContent | src/renderer.js:298-309 | with an editor its text becomes the new content; a transaction is dispatched exactly when the text differs |
| Renderer.Workspace.HandleGraphMermaidChange | src/renderer.js:351-355 | ignored in text mode; in graph mode the text goes into the editor and is rendered |
| Renderer.Workspace.Deliver | src/renderer.js:648-650 | every text the graph editor publishes in graph mode is rendered, in order, and the editor keeps the last |
| Renderer.Workspace.EnterGraphMode | src/renderer.js:328-336 | idempotent; with a store the graph becomes the parse of the editor text and its serialisation comes back into the editor and is rendered |
| Renderer.Workspace.EnterTextMode | src/renderer.js:338-348 | idempotent; the graph's text, rebuilt when available, goes into the editor and is rendered |
| Renderer.Workspace.GraphModeRoundTrip | src/renderer.js:328-348 | entering and leaving graph mode with a store leaves the graph as the parse of the text and the editor holding its serialisation |
| Renderer.Workspace.StorelessRoundTrip | src/renderer.js:328-348 | without a store, when vis-network is missing, the text is unchanged unless it was empty, in which case it becomes the last published text; when the preview container is missing, the text is overwritten with `graph TD` |

## Left out

- The preview editor of the graph view (`previewEditor` and its `dispatch`) and
  `renderPreviewDiagram` are not modelled. Rendering in the main view is recorded as the list
  of texts passed to `renderMermaid`; what Mermaid draws, and its errors, are not modelled.
- `requestNodeLabel`'s modal dialog, `prompt` and `confirm` are user interaction. Their answers
  are parameters: an `Option<string>` for a prompt (`None` when cancelled) and a `bool` for a
  confirmation. The default text offered in a prompt is not modelled.
- vis-network is not modelled. The ids it gives new edges are a parameter (`edgeId`) of
  `AddEdge`. Deleting nodes and edges through its toolbar, with its cascade, is not modelled.
  Neither are the canvas, `network.fit`, the centre button, styling and the double-click
  guard on how many nodes are selected.
- The store events (`attachDatasetListeners`) are not callbacks in the model. Each operation
  calls `UpdateMermaid` itself after a store change. The texts it would pass to
  `onMermaidChange` are returned as `notes`, and the workspace passes them on (`Deliver`).
- `setMermaidChangeHandler` is not modelled: nothing in the two files calls it.
- `localeCompare` is modelled as lexicographic order on code points (`Serializer.Precedes`).
  Locale collation is not modelled. Dafny's `char` is a Unicode scalar value, whereas
  JavaScript strings are sequences of UTF-16 code units, so the model does not capture the
  code-unit order in which a character above U+FFFF (a surrogate pair) sorts before one in
  U+E000–U+FFFF.
- JavaScript's `\s` and `trim` whitespace is modelled as the ASCII set space, tab, `\n`, `\r`,
  vertical tab and form feed. Unicode spaces are left out. The line terminators that `.` refuses
  are `\n`, `\r`, U+2028 and U+2029.
- `parseInt` on a long digit string loses precision in JavaScript. The model reads numeric
  suffixes as unbounded naturals.
- `parseMermaidSource(source || '')` and `String(id || '')` handle `null` and non-string values.
  The model works on strings only.
- Serializer.SortById, Serializer.Insert: their ensures give only the length. That they permute
  and sort is stated in the lemmas beside them.
- Renderer.Workspace.GraphModeRoundTrip: does not state how many renders happen on the way.
  `EnterGraphMode` and `EnterTextMode` state it step by step.
- The rest of `src/renderer.js` is not modelled: files, export, theme, zoom, the resizer, the
  SVG interactions and the editor's blur re-render. `main.js` (the Electron shell) is not
  part of this model.

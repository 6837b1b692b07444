# Philosophical network graph editor — a Dafny model

This project models the state logic of the graph editor component
`components/PhilosophicalNetworkGraph.js`. The editor draws statements as
nodes on a pannable, zoomable canvas and typed relationships as directed
edges between them. Two edge types, `supports` and `weakens`, carry an
integer strength, and each node shows the net strength of its incoming
edges of those types.

The model has six modules:

- `Seqs` (`seqs.dfy`) holds the list primitives the handlers build on:
  - `Array.prototype.filter` as `Filter`.
  - Distinct keys as `DistinctBy`.
  - The id rule `Math.max(...ids, 0) + 1` as `MaxId` / `NextId`.
- `Text` (`text.dfy`) holds the string operations applied to user input:
  - `trim()`, used to reject blank input. `HasText` is the truth value of `s.trim()`.
  - `toLowerCase()` for stored type names.
  - Truncation of long statements on the canvas and in the edit preview.
- `Graph` (`graph.dfy`) holds the entities (nodes, edges, relationship types and custom node types) and the pure list updates the handlers commit:
  - deletion filters;
  - the edit and drag `map`s;
  - the edge and node a click creates;
  - colour lookup;
  - the node-type menu.
- `Strength` (`strength.dfy`) covers the net strength of a node.
  - `NetStrength` is a reference definition: incoming `supports` minus incoming `weakens`.
  - The component's filter-then-accumulate computation is proved equal to it.
- `Editor` (`editor.dfy`) holds the class `GraphEditor`.
  - Each React state variable is a field.
  - Each handler is a method that assigns exactly the fields the handler sets.
  - `Valid()` is the invariant every handler keeps: ids are distinct in all four lists, every edge is well formed, the zoom is in `[0.2, 3]`, and at most one node is anchored.
  - `Linked()` says that every edge and the anchor refer to existing nodes.
- `Scenarios` (`scenarios.dfy`) composes handler contracts into the gestures a browser delivers:
  - a click versus a drag on a node;
  - drawing an edge with two clicks;
  - deleting the anchor of an edge being drawn.

Inputs from the browser are parameters:
- the pointer's client coordinates;
- the canvas's screen offset, taken from `getBoundingClientRect`;
- the parsed strength field.

Where the code leaves a property to its callers rather than checking it,
the model follows the code:
- **Type names are not checked for uniqueness,** although colours and edge labels are looked up by name.
  - `addRelationshipType` and `addNodeType` append whatever non-blank name they get.
  - A duplicated custom node type name is coloured by its first entry (`Graph.NodeColor`).
- **Committing an edge does not check its type.**
  - The commit takes `selectedEdgeType` as it is. The label falls back to the type name when no relationship type has it (`Graph.EdgeLabel`).
  - In the component itself the type is always listed: it starts as `implication`, only the menu of relationship types changes it, and relationship types are only ever appended. The model does not rely on this.
- **"Edges always join existing nodes" is not an invariant of the code.**
  - See the finding below. The model states it separately as `Linked()`.
  - Each handler's contract says when it preserves `Linked()`.

## Model

| member | source | states |
|---|---|---|
| Seqs.Filter | components/PhilosophicalNetworkGraph.js:228-229 | the result keeps exactly the elements the predicate accepts, each with its original multiplicity and in the original order, and is no longer than the input |
| Seqs.FilterKeepsDistinct | components/PhilosophicalNetworkGraph.js:228-229 | filtering a list whose keys are distinct leaves the keys distinct |
| Seqs.AppendFreshKeepsDistinct | components/PhilosophicalNetworkGraph.js:71 | appending an element whose key no element has keeps the keys distinct |
| Seqs.MaxId | components/PhilosophicalNetworkGraph.js:64 | `Math.max(...ids, 0)` is non-negative, at least every id, and either 0 or one of the ids |
| Seqs.NextId | components/PhilosophicalNetworkGraph.js:157 | the allocated id is at least 1, greater than every existing id, hence not among them, and is 1 or one more than an existing id |
| Text.IsWhitespace | components/PhilosophicalNetworkGraph.js:155 | the six ASCII whitespace characters (space, tab, line feed, vertical tab, form feed, carriage return) are trimmed, and no visible ASCII character is |
| Text.TrimStart | components/PhilosophicalNetworkGraph.js:155 | the result is a suffix of the input, everything removed is whitespace, and the result does not start with whitespace |
| Text.TrimEnd | components/PhilosophicalNetworkGraph.js:155 | the result is a prefix of the input, everything removed is whitespace, and the result does not end with whitespace |
| Text.LeadingWhitespace | components/PhilosophicalNetworkGraph.js:155 | the count of leading whitespace characters: every character before it is whitespace and the one at it is not |
| Text.Trim | components/PhilosophicalNetworkGraph.js:155 | `s.trim()` is the part of `s` that starts right after its leading whitespace; it neither starts nor ends with whitespace, and is empty exactly when every character of `s` is whitespace |
| Text.LeadingWhitespaceIsTrimmed | components/PhilosophicalNetworkGraph.js:155 | stripping leading whitespace removes exactly the leading whitespace characters |
| Text.TrimEmptyIffBlank | components/PhilosophicalNetworkGraph.js:155 | stripping leading then trailing whitespace leaves nothing exactly when every character is whitespace |
| Text.HasText | components/PhilosophicalNetworkGraph.js:183 | the guard holds exactly when the text is not blank |
| Text.TrimmedIsTruthy | components/PhilosophicalNetworkGraph.js:195 | `s.trim()` is a non-empty (truthy) string exactly when `HasText(s)` |
| Text.LowerChar | components/PhilosophicalNetworkGraph.js:186 | the result is never an upper-case letter; each upper-case letter moves up by 32 code points to its lower-case letter (`A` U+0041 becomes `a` U+0061) and every other character is unchanged |
| Text.ToLower | components/PhilosophicalNetworkGraph.js:198 | lower-casing keeps the length, maps each character by `LowerChar`, and leaves no upper-case letter |
| Text.Truncate | components/PhilosophicalNetworkGraph.js:497 | the label is at most `limit` long; it equals the input exactly when the input fits; otherwise it is the first `keep` characters followed by `...` |
| Text.NodeLabel | components/PhilosophicalNetworkGraph.js:497 | a node's label has at most 20 characters and is the statement itself exactly when the statement has at most 20; otherwise it is the first 17 characters and `...` |
| Text.PreviewLabel | components/PhilosophicalNetworkGraph.js:603-605 | the edit preview has at most 15 characters and is the statement itself exactly when the statement has at most 15; otherwise it is the first 12 characters and `...` |
| Graph.AppendKeepsNodes | components/PhilosophicalNetworkGraph.js:163 | appending a node keeps every node id that was present |
| Graph.AppendNodeKeepsLinks | components/PhilosophicalNetworkGraph.js:163 | adding a node never breaks the link of an existing edge |
| Graph.PlacedNode | components/PhilosophicalNetworkGraph.js:156-162 | the placed node has a fresh id of at least 1 and the drafted statement, type and position; appending it keeps node ids distinct and keeps every existing node |
| Graph.WithoutNode | components/PhilosophicalNetworkGraph.js:228 | exactly the nodes with other ids remain, in order; the id is gone and every other id stays; distinct ids stay distinct |
| Graph.WithoutIncidentEdges | components/PhilosophicalNetworkGraph.js:229 | exactly the edges that neither start nor end at the node remain, in order, with distinct ids kept distinct |
| Graph.WithoutEdge | components/PhilosophicalNetworkGraph.js:233 | exactly the edges with other ids remain, in order, with distinct ids kept distinct |
| Graph.DraftOf | components/PhilosophicalNetworkGraph.js:82-86 | the draft opened on a node carries that node's id, and writing its statement and type back onto the node leaves the node unchanged |
| Graph.ApplyEdit | components/PhilosophicalNetworkGraph.js:93-97 | saving keeps the node list's length, ids and positions; nodes with the draft's id take its statement and type, and all other nodes are unchanged |
| Graph.SaveUntouchedDraftIsIdentity | components/PhilosophicalNetworkGraph.js:82-97 | opening the dialog on a node and saving the draft unchanged leaves the node list as it was |
| Graph.MoveNode | components/PhilosophicalNetworkGraph.js:124-128 | the dragged node gets the new position and keeps its statement and type; every other node is unchanged; ids are kept |
| Graph.MoveToOwnPositionIsIdentity | components/PhilosophicalNetworkGraph.js:124-128 | moving a node to the position it already has leaves the node list as it was |
| Graph.FindByName | components/PhilosophicalNetworkGraph.js:238 | `find` by name yields the index of the first type with that name, or nothing exactly when no type has it |
| Graph.EdgeLabel | components/PhilosophicalNetworkGraph.js:68 | the label of a new edge is always its type name, whether or not a relationship type of that name exists |
| Graph.CreatedEdge | components/PhilosophicalNetworkGraph.js:63-70 | the new edge has a fresh id of at least 1, the anchor as source and the clicked node as target, the selected type as type and label, and a strength exactly when the type is `supports` or `weakens`; it is well formed |
| Graph.AppendEdgeKeepsGraph | components/PhilosophicalNetworkGraph.js:71 | appending a well-formed edge with a fresh id keeps the graph well formed, and keeps it linked when both ends exist |
| Graph.BuiltinColor | components/PhilosophicalNetworkGraph.js:244-250 | every type is drawn in one of the four grey levels, and a type outside the built-in four is drawn in `#cccccc` |
| Graph.NodeColor | components/PhilosophicalNetworkGraph.js:236-251 | the first custom type with the node's type name decides its colour; with no such custom type the built-in colour applies |
| Graph.AllNodeTypes | components/PhilosophicalNetworkGraph.js:206-208 | the menu lists the four built-in types, then the custom type names in order |
| Graph.AllNodeTypesAfterAdd | components/PhilosophicalNetworkGraph.js:201 | adding a custom node type appends its name to the menu and leaves the rest of the menu as it was |
| Strength.IncomingStrengthEdges | components/PhilosophicalNetworkGraph.js:211 | the filtered list holds exactly the `supports` and `weakens` edges ending at the node, and is non-empty exactly when such an edge exists |
| Strength.IncomingStrengthEdgesIsFilter | components/PhilosophicalNetworkGraph.js:211 | the incoming-edge list is `Filter` with the component's predicate, so it keeps those edges with their multiplicity and in their order |
| Strength.NetStrength | components/PhilosophicalNetworkGraph.js:210-225 | reference definition of the total (incoming `supports` minus incoming `weakens` strength); it is 0 for a node with no incoming `supports` or `weakens` edge |
| Strength.TypedTotalWithoutKind | components/PhilosophicalNetworkGraph.js:214-222 | when no edge of a type ends at the node, that type adds nothing to the total |
| Strength.Contribution | components/PhilosophicalNetworkGraph.js:215-221 | what one edge adds in the `forEach` body equals the reference net strength that edge alone gives its target; an edge without a strength, or of another type, adds 0 |
| Strength.IncomingSumIsNetStrength | components/PhilosophicalNetworkGraph.js:214-222 | accumulating the incoming edges as the `forEach` does yields incoming `supports` strength minus incoming `weakens` strength |
| Strength.TypedTotalConcat | components/PhilosophicalNetworkGraph.js:214-222 | the total strength of a type is additive over concatenated edge lists |
| Strength.NetStrengthConcat | components/PhilosophicalNetworkGraph.js:214-222 | the net strength is additive over concatenated edge lists |
| Strength.NetStrengthAfterAppend | components/PhilosophicalNetworkGraph.js:71 | a new edge changes the net strength of its target by its signed strength and no other node's |
| Strength.NetStrengthOnlyIncoming | components/PhilosophicalNetworkGraph.js:211 | edges that do not end at the node, or are of another type, do not change its net strength |
| Strength.NoIncomingMeansZero | components/PhilosophicalNetworkGraph.js:224 | a node with no incoming edge has net strength 0 and no strength edges |
| Strength.DeletionClearsStrength | components/PhilosophicalNetworkGraph.js:229 | after the cascade of a node's deletion nothing contributes to that node's strength |
| Editor.ClampZoom | components/PhilosophicalNetworkGraph.js:179 | the zoom stays within [0.2, 3]; a value inside is kept, and a value outside is set to the nearer bound |
| Editor.ToCanvas | components/PhilosophicalNetworkGraph.js:152-153 | the canvas point, drawn at the current zoom and pan, lies back under the pointer |
| Editor.DraggedTo | components/PhilosophicalNetworkGraph.js:121-126 | the dragged node's screen displacement (its canvas displacement times the zoom) equals the pointer's |
| Editor.BeyondClick | components/PhilosophicalNetworkGraph.js:114-117 | a move of more than 5 pixels along either axis is a drag; along one axis, a move of at most 5 pixels is not |
| Editor.SquareWithinThreshold | components/PhilosophicalNetworkGraph.js:114-117 | a displacement of at most 5 pixels has a square of at most 25, so comparing squares agrees with comparing distances |
| Editor.NewTypeDef | components/PhilosophicalNetworkGraph.js:184-188 | the new type has a fresh id of at least 1, the lower-cased name (with no upper-case letter left) and the drafted colour; appending it keeps type ids distinct |
| Editor.GraphEditor.constructor | components/PhilosophicalNetworkGraph.js:5-42 | the initial state: four nodes, two edges and four relationship types; zoom 1, no pan, navigate mode, empty forms; the state is valid and linked |
| Editor.GraphEditor.SetMode | components/PhilosophicalNetworkGraph.js:260-288 | a mode button sets the mode and nothing else |
| Editor.GraphEditor.SetSelectedEdgeType | components/PhilosophicalNetworkGraph.js:323 | the type menu sets the selected edge type |
| Editor.GraphEditor.SetEdgeStrength | components/PhilosophicalNetworkGraph.js:334 | the strength becomes the parsed number, or 0 when parsing fails |
| Editor.GraphEditor.ClearSelection | components/PhilosophicalNetworkGraph.js:344 | the cancel button empties the anchor and keeps the state valid and linked |
| Editor.GraphEditor.SetNewNodeStatement | components/PhilosophicalNetworkGraph.js:303 | typing changes the draft statement and keeps the draft type |
| Editor.GraphEditor.SetNewNodeKind | components/PhilosophicalNetworkGraph.js:308 | the menu changes the draft type and keeps the draft statement |
| Editor.GraphEditor.SetNewRelationType | components/PhilosophicalNetworkGraph.js:359-365 | the relationship-type form holds the new draft |
| Editor.GraphEditor.SetNewNodeType | components/PhilosophicalNetworkGraph.js:383-389 | the node-type form holds the new draft |
| Editor.GraphEditor.MouseDownOnNode | components/PhilosophicalNetworkGraph.js:45-75 | navigate mode: starts a node drag and clears `hasDragged`. Add-edge mode: a first click anchors the node, a click on the anchor does nothing, and a click on another node appends the created edge and clears the anchor. The event stops exactly in these two modes. Validity is kept, and links are kept when the clicked node exists |
| Editor.GraphEditor.NodeClick | components/PhilosophicalNetworkGraph.js:78-88 | the edit dialog opens on the node exactly in navigate mode after a gesture that was not a drag; otherwise nothing changes |
| Editor.GraphEditor.MouseMove | components/PhilosophicalNetworkGraph.js:109-135 | during a node drag, the gesture becomes a drag once the pointer is more than 5 pixels away, and only the dragged node moves, by the displacement divided by the zoom; during a pan the drawing moves by the displacement; otherwise nothing changes; links are kept |
| Editor.GraphEditor.MouseUp | components/PhilosophicalNetworkGraph.js:137-139 | releasing ends the gesture and keeps `hasDragged` |
| Editor.GraphEditor.CanvasMouseDown | components/PhilosophicalNetworkGraph.js:141-167 | navigate mode starts a pan from the current pan; add-node mode appends the placed node at the pointer's canvas position and clears the draft, unless the draft statement is blank, in which case nothing changes; validity and links are kept |
| Editor.GraphEditor.Zoom | components/PhilosophicalNetworkGraph.js:178-180 | the zoom becomes the clamped sum, so it never leaves [0.2, 3] |
| Editor.GraphEditor.SetEditStatement | components/PhilosophicalNetworkGraph.js:573 | typing in the dialog changes the draft statement only |
| Editor.GraphEditor.SetEditKind | components/PhilosophicalNetworkGraph.js:586 | the dialog's menu changes the draft type only |
| Editor.GraphEditor.SaveEditedNode | components/PhilosophicalNetworkGraph.js:91-101 | with a draft open, the nodes take the edit and the dialog closes; without one nothing changes; validity and links are kept |
| Editor.GraphEditor.CancelEdit | components/PhilosophicalNetworkGraph.js:104-107 | the dialog closes and the nodes are untouched |
| Editor.GraphEditor.AddRelationshipType | components/PhilosophicalNetworkGraph.js:182-192 | a non-blank draft appends the new relationship type and resets the form; a blank draft changes nothing |
| Editor.GraphEditor.AddNodeType | components/PhilosophicalNetworkGraph.js:194-204 | a non-blank draft appends the new custom node type and resets the form; a blank draft changes nothing |
| Editor.GraphEditor.CalculateNodeStrength | components/PhilosophicalNetworkGraph.js:210-225 | the loop's total is the node's net strength, and the flag says whether any incoming `supports` or `weakens` edge exists |
| Editor.GraphEditor.DeleteNode | components/PhilosophicalNetworkGraph.js:227-230 | the node and every edge touching it are removed and the rest keep their order; if every edge joined existing nodes before, every remaining edge still does; the anchor is left as it was |
| Editor.GraphEditor.DeleteNodeAndDeselect | components/PhilosophicalNetworkGraph.js:227-230 | as `DeleteNode`, and the node is also dropped from the anchor, so a linked state stays linked |
| Editor.GraphEditor.DeleteEdge | components/PhilosophicalNetworkGraph.js:232-234 | exactly the edges with that id are removed; validity and links are kept |
| Scenarios.ShortGestureOpensEditor | components/PhilosophicalNetworkGraph.js:45-88 | a press, a move of at most 5 pixels, a release and the click open the dialog on the node |
| Scenarios.DragDoesNotOpenEditor | components/PhilosophicalNetworkGraph.js:109-128 | the same gesture with a move beyond 5 pixels leaves the dialog as it was and moves the node |
| Scenarios.TwoClicksDrawOneEdge | components/PhilosophicalNetworkGraph.js:57-73 | two clicks on different nodes in add-edge mode append exactly one edge, from the first to the second, and clear the anchor |
| Scenarios.DeletedAnchorLeavesDanglingEdge | components/PhilosophicalNetworkGraph.js:227-230 | as written: anchoring `a`, deleting `a` and clicking `b` commits an edge from the deleted node |
| Scenarios.AnchorThenDelete | components/PhilosophicalNetworkGraph.js:227-230 | with the corrected deletion, anchoring a node and deleting it leaves nothing anchored and every edge linked |
| Scenarios.DeletedAnchorIsDeselected | components/PhilosophicalNetworkGraph.js:227-230 | with the corrected deletion, the same gestures keep every edge linked |

## Left out

- Rendering (JSX, SVG, styling, the toolbar layout) is not modelled. Only the state updates are, plus the strings that are computed for display.
- The `useEffect` that attaches `mousemove`/`mouseup` to the document, and the `useCallback` dependency lists, are not modelled. Each handler is modelled as acting on the current state.
- DOM event propagation is reduced to the `stopped` result of `MouseDownOnNode`.
- `getBoundingClientRect` and the pointer position are parameters.
- Editor.GraphEditor.MouseMove: coordinates, pan and zoom are exact reals. IEEE-754 rounding of the division by the zoom is not modelled. `Math.sqrt(d) > 5` is modelled as `d > 25`, which is equivalent on reals.
- Editor.GraphEditor.SetEdgeStrength: takes the outcome of `parseInt` (`None` for NaN). Parsing the field's string is not modelled.
- Editor.GraphEditor.CalculateNodeStrength: sums are unbounded integers. JavaScript number precision beyond 2^53 is not modelled.
- Text.ToLower: lower-cases only ASCII A-Z and the Latin-1 capitals U+00C0-U+00DE (except U+00D7). Full Unicode case mapping, which can change the length of a string, is not modelled.
- Text.NodeLabel: counts characters where JavaScript counts UTF-16 code units. The two differ only for characters outside the Basic Multilingual Plane.
- Text.PreviewLabel: counts characters where JavaScript counts UTF-16 code units, as for `Text.NodeLabel`.
- Text.Truncate: counts and cuts characters where `length` and `substring` count UTF-16 code units. A character outside the Basic Multilingual Plane counts once instead of twice, and a cut is never made inside a surrogate pair.
- Text.LowerChar: lowers only ASCII A-Z and the Latin-1 capitals U+00C0-U+00DE (except U+00D7). Other capitals, such as U+0100 (lower case U+0101), are left unchanged.
- Editor.GraphEditor.SetSelectedEdgeType: accepts any string, where the component's menu offers only the names of listed relationship types.
- Seqs.MaxId: is defined for lists of any length. The engine's limit on the number of spread arguments to `Math.max` is not modelled.
- The application shell `app/layout.js` and the build configuration `nextconfig.js` are not part of this model.

## Findings

| source | as written | input that shows it | evidently intended | confidence | as-written member | corrected member |
|---|---|---|---|---|---|---|
| components/PhilosophicalNetworkGraph.js:227-230 | `deleteNode` removes the node and its edges but leaves the node's id in `selectedNodes` | in add-edge mode, click node `a` (it becomes the anchor), delete `a`, then click node `b`: the edge `a -> b` is committed although `a` no longer exists; for a `supports` or `weakens` edge it also counts in `b`'s net strength | deleting a node also drops it from the anchor, so that edges only ever join existing nodes | medium, not executed | Scenarios.DeletedAnchorLeavesDanglingEdge | Scenarios.DeletedAnchorIsDeselected |

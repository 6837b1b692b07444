/** The editor component's state and its event handlers. Each React state
    variable is a field; each handler is a method that updates the fields it
    sets and no others. */
module Editor {
  import opened Seqs
  import opened Text
  import opened Graph
  import opened Strength

  datatype Mode = Navigate | AddNode | AddEdge | AddEdgeType | AddNodeType

  datatype Point = Point(x: real, y: real)

  /** `dragState`: no gesture, a node drag, or a pan of the whole drawing.
      Start positions are the pointer's client coordinates at mouse-down. */
  datatype DragState =
    | NoDrag
    | NodeDrag(nodeId: int, startX: real, startY: real, nodeStartX: real, nodeStartY: real)
    | PanDrag(startX: real, startY: real, panStartX: real, panStartY: real)

  /** The add-node form (`newNode`). */
  datatype NodeDraft = NodeDraft(statement: string, kind: string)

  /** The add-relationship-type and add-node-type forms. */
  datatype TypeDraft = TypeDraft(name: string, color: string)

  const MinZoom: real := 0.2
  const MaxZoom: real := 3.0

  /** A node gesture longer than this many pixels is a drag, not a click. */
  const DragThreshold: real := 5.0

  const EmptyNodeDraft := NodeDraft("", "empirical")
  const EmptyRelationDraft := TypeDraft("", "#666666")
  const EmptyNodeTypeDraft := TypeDraft("", "#888888")

  const InitialNodes: seq<Node> := [
    Node(1, "I think therefore I am", "axiom", 200.0, 150.0),
    Node(2, "It rained on wednesday", "empirical", 400.0, 100.0),
    Node(3, "It did not rain on wednesday", "empirical", 400.0, 200.0),
    Node(4, "The road was wet on wednesday", "empirical", 600.0, 150.0)
  ]

  const InitialEdges: seq<Edge> := [
    Edge(1, 2, 3, "contradiction", "contradicts", None),
    Edge(2, 2, 4, "implication", "implies", None)
  ]

  const InitialRelationshipTypes: seq<TypeDef> := [
    TypeDef(1, "contradiction", "#ff4444"),
    TypeDef(2, "implication", "#44ff44"),
    TypeDef(3, Supports, "#4444ff"),
    TypeDef(4, Weakens, "#ffaa00")
  ]

  /** `Math.max(0.2, Math.min(3, v))`. */
  function ClampZoom(v: real): (z: real)
    ensures MinZoom <= z <= MaxZoom
    ensures MinZoom <= v <= MaxZoom ==> z == v
    ensures v < MinZoom ==> z == MinZoom
    ensures v > MaxZoom ==> z == MaxZoom
  {
    if v < MinZoom then MinZoom else if v > MaxZoom then MaxZoom else v
  }

  /** A client coordinate converted to canvas space: undo the canvas's screen
      offset and the pan, then the zoom. Drawing the result at that zoom and
      pan puts it back under the pointer. */
  function ToCanvas(client: real, offset: real, pan: real, zoom: real): (v: real)
    requires zoom > 0.0
    ensures offset + pan + v * zoom == client
  {
    (client - offset - pan) / zoom
  }

  /** Where a dragged node goes: its start position plus the pointer's
      displacement scaled down by the zoom, so that on screen the node moves
      exactly as far as the pointer. */
  function DraggedTo(nodeStart: real, delta: real, zoom: real): (p: real)
    requires zoom > 0.0
    ensures (p - nodeStart) * zoom == delta
  {
    nodeStart + delta / zoom
  }

  /** Whether a pointer that moved by (`dx`, `dy`) has left the click radius:
      `Math.sqrt(dx * dx + dy * dy) > 5`, compared on squares. Any move of
      more than 5 along one axis leaves it; along an axis, nothing less does. */
  predicate BeyondClick(dx: real, dy: real)
    ensures dx > DragThreshold || dx < -DragThreshold || dy > DragThreshold || dy < -DragThreshold ==> BeyondClick(dx, dy)
    ensures dy == 0.0 && BeyondClick(dx, dy) ==> dx > DragThreshold || dx < -DragThreshold
    ensures dx == 0.0 && BeyondClick(dx, dy) ==> dy > DragThreshold || dy < -DragThreshold
  {
    SquareWithinThreshold(dx);
    SquareWithinThreshold(dy);
    dx * dx + dy * dy > DragThreshold * DragThreshold
  }

  lemma SquareWithinThreshold(d: real)
    ensures -DragThreshold <= d <= DragThreshold ==> d * d <= DragThreshold * DragThreshold
  {
    var m := if d < 0.0 then -d else d;
    assert d * d == m * m;
    if m <= DragThreshold {
      assert m * m <= m * DragThreshold;
      assert m * DragThreshold <= DragThreshold * DragThreshold;
    }
  }

  /** The type a non-blank draft adds: a fresh id, the lower-cased name and the
      chosen color. Callers check the name is not blank before calling. */
  function NewTypeDef(types: seq<TypeDef>, draft: TypeDraft): (t: TypeDef)
    ensures t.id >= 1 && t.id !in TypeIds(types)
    ensures t.name == ToLower(draft.name) && IsLowerCase(t.name) && t.color == draft.color
    ensures DistinctBy(types, TypeDefId) ==> DistinctBy(types + [t], TypeDefId)
  {
    var t := TypeDef(NextId(TypeIds(types)), ToLower(draft.name), draft.color);
    assert forall i :: 0 <= i < |types| ==> TypeDefId(types[i]) == TypeIds(types)[i];
    AppendFreshKeepsDistinct(types, t, TypeDefId);
    t
  }

  /** Relationship types and custom node types each have distinct ids. */
  ghost predicate DistinctTypeIds(relationshipTypes: seq<TypeDef>, customNodeTypes: seq<TypeDef>) {
    DistinctBy(relationshipTypes, TypeDefId) && DistinctBy(customNodeTypes, TypeDefId)
  }

  class GraphEditor {
    var nodes: seq<Node>
    var edges: seq<Edge>
    var relationshipTypes: seq<TypeDef>
    var customNodeTypes: seq<TypeDef>
    var zoom: real
    var pan: Point
    var dragState: DragState
    var hasDragged: bool
    var mode: Mode
    var newNode: NodeDraft
    var newRelationType: TypeDraft
    var newNodeType: TypeDraft
    var selectedNodes: seq<int>
    var selectedEdgeType: string
    var edgeStrength: int
    var selectedNodeForEdit: Option<Node>
    var editingNode: Option<EditDraft>

    /** What every handler preserves: ids are distinct in every list, edges
        are well formed, the zoom is in range and at most one node is the
        anchor of an edge being drawn. */
    ghost predicate Valid()
      reads this
    {
      && WellFormedGraph(nodes, edges)
      && DistinctTypeIds(relationshipTypes, customNodeTypes)
      && MinZoom <= zoom <= MaxZoom
      && |selectedNodes| <= 1
    }

    /** Every edge joins existing nodes and the anchor is an existing node. */
    ghost predicate Linked()
      reads this
    {
      && EdgesLinked(nodes, edges)
      && (forall a :: a in selectedNodes ==> HasNode(nodes, a))
    }

    /** The component's initial state. */
    constructor ()
      ensures Valid() && Linked()
      ensures nodes == InitialNodes && edges == InitialEdges
      ensures relationshipTypes == InitialRelationshipTypes && customNodeTypes == []
      ensures zoom == 1.0 && pan == Point(0.0, 0.0) && dragState == NoDrag && !hasDragged
      ensures mode == Navigate && selectedNodes == [] && selectedEdgeType == "implication"
      ensures newNode == EmptyNodeDraft && newRelationType == EmptyRelationDraft
      ensures newNodeType == EmptyNodeTypeDraft && edgeStrength == 1
      ensures selectedNodeForEdit == None && editingNode == None
    {
      nodes := InitialNodes;
      edges := InitialEdges;
      relationshipTypes := InitialRelationshipTypes;
      customNodeTypes := [];
      zoom := 1.0;
      pan := Point(0.0, 0.0);
      dragState := NoDrag;
      hasDragged := false;
      mode := Navigate;
      newNode := EmptyNodeDraft;
      newRelationType := EmptyRelationDraft;
      newNodeType := EmptyNodeTypeDraft;
      selectedNodes := [];
      selectedEdgeType := "implication";
      edgeStrength := 1;
      selectedNodeForEdit := None;
      editingNode := None;
      assert NodeIds(InitialNodes) == [1, 2, 3, 4];
    }

    // ------------------------------------------------------------ toolbar

    /** A mode button. The anchor is kept across mode changes. */
    method SetMode(m: Mode)
      requires Valid()
      modifies this`mode
      ensures Valid() && mode == m
    {
      mode := m;
    }

    /** The add-edge form's type menu. */
    method SetSelectedEdgeType(kind: string)
      requires Valid()
      modifies this`selectedEdgeType
      ensures Valid() && selectedEdgeType == kind
    {
      selectedEdgeType := kind;
    }

    /** The strength field: `parseInt(value) || 0`, where `parsed` is the
        outcome of `parseInt` (`None` for NaN). */
    method SetEdgeStrength(parsed: Option<int>)
      requires Valid()
      modifies this`edgeStrength
      ensures Valid()
      ensures edgeStrength == (if parsed.Some? then parsed.value else 0)
    {
      match parsed
      case Some(v) => edgeStrength := v;
      case None => edgeStrength := 0;
    }

    /** The "cancel" button of the add-edge form drops the anchor. */
    method ClearSelection()
      requires Valid()
      modifies this`selectedNodes
      ensures Valid() && (old(Linked()) ==> Linked())
      ensures selectedNodes == []
    {
      selectedNodes := [];
    }

    method SetNewNodeStatement(statement: string)
      requires Valid()
      modifies this`newNode
      ensures Valid() && newNode == old(newNode).(statement := statement)
    {
      newNode := newNode.(statement := statement);
    }

    method SetNewNodeKind(kind: string)
      requires Valid()
      modifies this`newNode
      ensures Valid() && newNode == old(newNode).(kind := kind)
    {
      newNode := newNode.(kind := kind);
    }

    method SetNewRelationType(draft: TypeDraft)
      requires Valid()
      modifies this`newRelationType
      ensures Valid() && newRelationType == draft
    {
      newRelationType := draft;
    }

    method SetNewNodeType(draft: TypeDraft)
      requires Valid()
      modifies this`newNodeType
      ensures Valid() && newNodeType == draft
    {
      newNodeType := draft;
    }

    // ------------------------------------------------------ pointer events

    /** `handleMouseDown` on a node. In navigate mode it starts a node drag and
        forgets any earlier drag; in add-edge mode the first click anchors the
        node and a click on another node commits one edge from the anchor.
        `stopped` tells whether the event is kept from reaching the canvas. */
    method MouseDownOnNode(node: Node, clientX: real, clientY: real) returns (stopped: bool)
      requires Valid()
      modifies this`hasDragged, this`dragState, this`selectedNodes, this`edges
      ensures Valid()
      ensures stopped <==> mode == Navigate || mode == AddEdge
      ensures mode == Navigate ==>
        && !hasDragged
        && dragState == NodeDrag(node.id, clientX, clientY, node.x, node.y)
        && selectedNodes == old(selectedNodes) && edges == old(edges)
      ensures mode != Navigate ==> hasDragged == old(hasDragged) && dragState == old(dragState)
      ensures mode != AddEdge ==> selectedNodes == old(selectedNodes) && edges == old(edges)
      ensures mode == AddEdge && old(selectedNodes) == [] ==>
        selectedNodes == [node.id] && edges == old(edges)
      ensures mode == AddEdge && old(selectedNodes) == [node.id] ==>
        selectedNodes == old(selectedNodes) && edges == old(edges)
      ensures mode == AddEdge && |old(selectedNodes)| == 1 && old(selectedNodes)[0] != node.id ==>
        && selectedNodes == []
        && edges == old(edges) + [CreatedEdge(old(edges), relationshipTypes, old(selectedNodes)[0],
                                             node.id, selectedEdgeType, edgeStrength)]
      ensures old(Linked()) && HasNode(nodes, node.id) ==> Linked()
    {
      if mode == Navigate {
        stopped := true;
        hasDragged := false;
        dragState := NodeDrag(node.id, clientX, clientY, node.x, node.y);
      } else if mode == AddEdge {
        stopped := true;
        if |selectedNodes| == 0 {
          selectedNodes := [node.id];
        } else if |selectedNodes| == 1 && selectedNodes[0] != node.id {
          var e := CreatedEdge(edges, relationshipTypes, selectedNodes[0], node.id,
                               selectedEdgeType, edgeStrength);
          AppendEdgeKeepsGraph(nodes, edges, e);
          edges := edges + [e];
          selectedNodes := [];
        }
      } else {
        stopped := false;
      }
    }

    /** `handleNodeClick`: a click opens the edit dialog on the node, but only
        in navigate mode and only if the gesture was not a drag. */
    method NodeClick(node: Node)
      requires Valid()
      modifies this`selectedNodeForEdit, this`editingNode
      ensures Valid()
      ensures mode == Navigate && !hasDragged ==>
        selectedNodeForEdit == Some(node) && editingNode == Some(DraftOf(node))
      ensures !(mode == Navigate && !hasDragged) ==>
        selectedNodeForEdit == old(selectedNodeForEdit) && editingNode == old(editingNode)
    {
      if mode == Navigate && !hasDragged {
        selectedNodeForEdit := Some(node);
        editingNode := Some(DraftOf(node));
      }
    }

    /** `handleMouseMove`. A node drag marks the gesture as a drag once the
        pointer is more than 5 pixels from where it went down, and moves that
        node (and no other) by the pointer's displacement scaled by the zoom;
        a pan moves the drawing. */
    method MouseMove(clientX: real, clientY: real)
      requires Valid()
      modifies this`hasDragged, this`nodes, this`pan
      ensures Valid()
      ensures dragState.NoDrag? ==>
        hasDragged == old(hasDragged) && nodes == old(nodes) && pan == old(pan)
      ensures dragState.NodeDrag? ==>
        var dx, dy := clientX - dragState.startX, clientY - dragState.startY;
        && hasDragged == (old(hasDragged) || BeyondClick(dx, dy))
        && nodes == MoveNode(old(nodes), dragState.nodeId,
                             DraggedTo(dragState.nodeStartX, dx, zoom), DraggedTo(dragState.nodeStartY, dy, zoom))
        && pan == old(pan)
      ensures dragState.PanDrag? ==>
        && pan == Point(dragState.panStartX + (clientX - dragState.startX),
                        dragState.panStartY + (clientY - dragState.startY))
        && hasDragged == old(hasDragged) && nodes == old(nodes)
      ensures old(Linked()) ==> Linked()
    {
      match dragState
      case NoDrag =>
      case NodeDrag(id, startX, startY, nodeStartX, nodeStartY) =>
        var dx, dy := clientX - startX, clientY - startY;
        if BeyondClick(dx, dy) {
          hasDragged := true;
        }
        nodes := MoveNode(nodes, id, DraggedTo(nodeStartX, dx, zoom), DraggedTo(nodeStartY, dy, zoom));
      case PanDrag(startX, startY, panStartX, panStartY) =>
        pan := Point(panStartX + (clientX - startX), panStartY + (clientY - startY));
    }

    /** `handleMouseUp`: the gesture ends; `hasDragged` is kept for the click that follows. */
    method MouseUp()
      requires Valid()
      modifies this`dragState
      ensures Valid() && dragState == NoDrag
    {
      dragState := NoDrag;
    }

    /** `handleSvgMouseDown` on the canvas (`rectLeft`, `rectTop` are the
        canvas's position on screen). In navigate mode it starts a pan; in
        add-node mode it places the drafted node under the pointer unless the
        draft statement is blank, and then clears the draft. */
    method CanvasMouseDown(clientX: real, clientY: real, rectLeft: real, rectTop: real)
      requires Valid()
      modifies this`dragState, this`nodes, this`newNode
      ensures Valid()
      ensures mode == Navigate ==>
        dragState == PanDrag(clientX, clientY, pan.x, pan.y) && nodes == old(nodes) && newNode == old(newNode)
      ensures mode != Navigate ==> dragState == old(dragState)
      ensures mode != AddNode ==> nodes == old(nodes) && newNode == old(newNode)
      ensures mode == AddNode && IsBlank(old(newNode).statement) ==>
        nodes == old(nodes) && newNode == old(newNode)
      ensures mode == AddNode && !IsBlank(old(newNode).statement) ==>
        && nodes == old(nodes) + [PlacedNode(old(nodes), old(newNode).statement, old(newNode).kind,
                                             ToCanvas(clientX, rectLeft, pan.x, zoom), ToCanvas(clientY, rectTop, pan.y, zoom))]
        && newNode == EmptyNodeDraft
      ensures old(Linked()) ==> Linked()
    {
      if mode == Navigate {
        dragState := PanDrag(clientX, clientY, pan.x, pan.y);
      } else if mode == AddNode {
        var x := ToCanvas(clientX, rectLeft, pan.x, zoom);
        var y := ToCanvas(clientY, rectTop, pan.y, zoom);
        if HasText(newNode.statement) {
          var n := PlacedNode(nodes, newNode.statement, newNode.kind, x, y);
          AppendNodeKeepsLinks(nodes, edges, n);
          nodes := nodes + [n];
          newNode := EmptyNodeDraft;
        }
      }
    }

    /** `handleZoom`: the zoom moves by `delta` and is clamped to [0.2, 3]. */
    method Zoom(delta: real)
      requires Valid()
      modifies this`zoom
      ensures Valid()
      ensures zoom == ClampZoom(old(zoom) + delta)
      ensures MinZoom <= old(zoom) + delta <= MaxZoom ==> zoom == old(zoom) + delta
    {
      zoom := ClampZoom(zoom + delta);
    }

    // -------------------------------------------------------- edit dialog

    method SetEditStatement(statement: string)
      requires Valid() && editingNode.Some?
      modifies this`editingNode
      ensures Valid() && editingNode == Some(old(editingNode).value.(statement := statement))
    {
      editingNode := Some(editingNode.value.(statement := statement));
    }

    method SetEditKind(kind: string)
      requires Valid() && editingNode.Some?
      modifies this`editingNode
      ensures Valid() && editingNode == Some(old(editingNode).value.(kind := kind))
    {
      editingNode := Some(editingNode.value.(kind := kind));
    }

    /** `saveEditedNode`: the draft's statement and type replace those of the
        node with the draft's id and the dialog closes; without a draft it does nothing. */
    method SaveEditedNode()
      requires Valid()
      modifies this`nodes, this`selectedNodeForEdit, this`editingNode
      ensures Valid()
      ensures old(editingNode).None? ==>
        nodes == old(nodes) && selectedNodeForEdit == old(selectedNodeForEdit) && editingNode == None
      ensures old(editingNode).Some? ==>
        nodes == ApplyEdit(old(nodes), old(editingNode).value)
        && selectedNodeForEdit == None && editingNode == None
      ensures old(Linked()) ==> Linked()
    {
      if editingNode.Some? {
        nodes := ApplyEdit(nodes, editingNode.value);
        assert forall i, j :: 0 <= i < j < |nodes| ==> NodeIds(nodes)[i] != NodeIds(nodes)[j];
        selectedNodeForEdit := None;
        editingNode := None;
      }
    }

    /** `cancelEdit`: the dialog closes and the nodes are left as they were. */
    method CancelEdit()
      requires Valid()
      modifies this`selectedNodeForEdit, this`editingNode
      ensures Valid()
      ensures selectedNodeForEdit == None && editingNode == None
      ensures nodes == old(nodes)
    {
      selectedNodeForEdit := None;
      editingNode := None;
    }

    // ---------------------------------------------------------- type forms

    /** `addRelationshipType`: unless the name is blank, appends a type with a
        fresh id, the lower-cased name and the chosen colour, and clears the form. */
    method AddRelationshipType()
      requires Valid()
      modifies this`relationshipTypes, this`newRelationType
      ensures Valid()
      ensures IsBlank(old(newRelationType).name) ==>
        relationshipTypes == old(relationshipTypes) && newRelationType == old(newRelationType)
      ensures !IsBlank(old(newRelationType).name) ==>
        && relationshipTypes == old(relationshipTypes) + [NewTypeDef(old(relationshipTypes), old(newRelationType))]
        && newRelationType == EmptyRelationDraft
    {
      if HasText(newRelationType.name) {
        var t := NewTypeDef(relationshipTypes, newRelationType);
        relationshipTypes := relationshipTypes + [t];
        newRelationType := EmptyRelationDraft;
      }
    }

    /** `addNodeType`: the same for custom node types. */
    method AddNodeType()
      requires Valid()
      modifies this`customNodeTypes, this`newNodeType
      ensures Valid()
      ensures IsBlank(old(newNodeType).name) ==>
        customNodeTypes == old(customNodeTypes) && newNodeType == old(newNodeType)
      ensures !IsBlank(old(newNodeType).name) ==>
        && customNodeTypes == old(customNodeTypes) + [NewTypeDef(old(customNodeTypes), old(newNodeType))]
        && newNodeType == EmptyNodeTypeDraft
    {
      if HasText(newNodeType.name) {
        var t := NewTypeDef(customNodeTypes, newNodeType);
        customNodeTypes := customNodeTypes + [t];
        newNodeType := EmptyNodeTypeDraft;
      }
    }

    // ------------------------------------------------------------ derived

    /** `calculateNodeStrength`: the node's net strength, accumulated over its
        incoming strength-bearing edges, and whether it has any. */
    method CalculateNodeStrength(nodeId: int) returns (total: int, hasStrengthEdges: bool)
      ensures total == NetStrength(edges, nodeId)
      ensures hasStrengthEdges <==> HasStrengthEdges(edges, nodeId)
    {
      var incoming := IncomingStrengthEdges(edges, nodeId);
      total := 0;
      var i := 0;
      while i < |incoming|
        invariant 0 <= i <= |incoming|
        invariant total == ContributionSum(incoming[..i])
      {
        var e := incoming[i];
        if e.strength.Some? {
          if e.kind == Supports {
            total := total + e.strength.value;
          } else if e.kind == Weakens {
            total := total - e.strength.value;
          }
        }
        assert incoming[..i + 1][..i] == incoming[..i];
        assert ContributionSum(incoming[..i + 1]) == ContributionSum(incoming[..i]) + Contribution(e);
        i := i + 1;
      }
      assert incoming[..i] == incoming;
      IncomingSumIsNetStrength(edges, nodeId);
      hasStrengthEdges := |incoming| > 0;
    }

    // ----------------------------------------------------------- deletion

    /** `deleteNode`: the node and every edge that starts or ends at it are
        removed; the rest keep their order. The anchor is left as it was. */
    method DeleteNode(id: int)
      requires Valid()
      modifies this`nodes, this`edges
      ensures Valid()
      ensures nodes == WithoutNode(old(nodes), id) && edges == WithoutIncidentEdges(old(edges), id)
      ensures !HasNode(nodes, id)
      ensures forall e :: e in edges ==> e.from != id && e.to != id
      ensures old(EdgesLinked(nodes, edges)) ==> EdgesLinked(nodes, edges)
    {
      nodes := WithoutNode(nodes, id);
      edges := WithoutIncidentEdges(edges, id);
    }

    /** `deleteNode` as it is evidently meant: it also drops the node from the
        anchor, so that every edge keeps joining existing nodes. */
    method DeleteNodeAndDeselect(id: int)
      requires Valid()
      modifies this`nodes, this`edges, this`selectedNodes
      ensures Valid()
      ensures nodes == WithoutNode(old(nodes), id) && edges == WithoutIncidentEdges(old(edges), id)
      ensures selectedNodes == Filter(old(selectedNodes), (a: int) => a != id)
      ensures id !in selectedNodes
      ensures old(Linked()) ==> Linked()
    {
      nodes := WithoutNode(nodes, id);
      edges := WithoutIncidentEdges(edges, id);
      selectedNodes := Filter(selectedNodes, (a: int) => a != id);
    }

    /** `deleteEdge`: exactly the edges with that id are removed. */
    method DeleteEdge(id: int)
      requires Valid()
      modifies this`edges
      ensures Valid()
      ensures edges == WithoutEdge(old(edges), id)
      ensures old(Linked()) ==> Linked()
    {
      edges := WithoutEdge(edges, id);
    }
  }
}

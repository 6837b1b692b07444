/** Gestures as the browser delivers them to the editor (mouse-down, moves,
    mouse-up, click), proved from the handlers' contracts alone. */
module Scenarios {
  import opened Graph
  import opened Editor

  /** A press on a node, a move that stays within 5 pixels, the release and
      the click open the edit dialog on that node, whatever earlier gestures
      left in `hasDragged`. */
  method ShortGestureOpensEditor(e: GraphEditor, node: Node, downX: real, downY: real, upX: real, upY: real)
    requires e.Valid() && e.mode == Navigate
    requires !BeyondClick(upX - downX, upY - downY)
    modifies e
    ensures e.Valid()
    ensures e.editingNode == Some(DraftOf(node))
    ensures e.selectedNodeForEdit == Some(node.(x := DraggedTo(node.x, upX - downX, e.zoom),
                                                y := DraggedTo(node.y, upY - downY, e.zoom)))
  {
    var stopped := e.MouseDownOnNode(node, downX, downY);
    e.MouseMove(upX, upY);
    e.MouseUp();
    // The click reports the node as the canvas now draws it, after the small move.
    var moved := node.(x := DraggedTo(node.x, upX - downX, e.zoom), y := DraggedTo(node.y, upY - downY, e.zoom));
    e.NodeClick(moved);
  }

  /** The same gesture with a move beyond 5 pixels is a drag: the click that
      follows leaves the dialog as it was, and the dragged node has moved. */
  method DragDoesNotOpenEditor(e: GraphEditor, node: Node, downX: real, downY: real, upX: real, upY: real)
    requires e.Valid() && e.mode == Navigate
    requires BeyondClick(upX - downX, upY - downY)
    modifies e
    ensures e.Valid()
    ensures e.editingNode == old(e.editingNode) && e.selectedNodeForEdit == old(e.selectedNodeForEdit)
    ensures e.nodes == MoveNode(old(e.nodes), node.id,
                                DraggedTo(node.x, upX - downX, e.zoom), DraggedTo(node.y, upY - downY, e.zoom))
  {
    var stopped := e.MouseDownOnNode(node, downX, downY);
    e.MouseMove(upX, upY);
    e.MouseUp();
    e.NodeClick(node);
  }

  /** In add-edge mode with no anchor, clicks on two different nodes append
      exactly one edge, from the first to the second, and clear the anchor. */
  method TwoClicksDrawOneEdge(e: GraphEditor, a: Node, b: Node)
    requires e.Valid() && e.mode == AddEdge && e.selectedNodes == []
    requires a.id != b.id
    modifies e
    ensures e.Valid() && e.selectedNodes == [] && e.nodes == old(e.nodes)
    ensures |e.edges| == |old(e.edges)| + 1 && e.edges[..|old(e.edges)|] == old(e.edges)
    ensures e.edges[|old(e.edges)|] ==
      CreatedEdge(old(e.edges), e.relationshipTypes, a.id, b.id, e.selectedEdgeType, e.edgeStrength)
    ensures old(e.Linked()) && HasNode(e.nodes, a.id) && HasNode(e.nodes, b.id) ==> e.Linked()
  {
    var first := e.MouseDownOnNode(a, 0.0, 0.0);
    var second := e.MouseDownOnNode(b, 0.0, 0.0);
  }

  /** The component as written: in add-edge mode, anchor node `a`, delete
      node `a`, then click node `b`. The edge `a -> b` is committed although
      `a` is gone, so the edges no longer join existing nodes. */
  method DeletedAnchorLeavesDanglingEdge(e: GraphEditor, a: Node, b: Node)
    requires e.Valid() && e.Linked() && e.mode == AddEdge && e.selectedNodes == []
    requires a.id != b.id
    modifies e
    ensures e.Valid() && !e.Linked()
    ensures exists d :: d in e.edges && d.from == a.id && d.to == b.id && !HasNode(e.nodes, a.id)
  {
    var first := e.MouseDownOnNode(a, 0.0, 0.0);
    e.DeleteNode(a.id);
    var second := e.MouseDownOnNode(b, 0.0, 0.0);
    assert e.edges[|e.edges| - 1].from == a.id;
  }

  /** The first two gestures with the corrected deletion: anchor node `a`,
      then delete it. Nothing stays anchored and every edge stays linked. */
  method AnchorThenDelete(e: GraphEditor, a: Node)
    requires e.Valid() && e.Linked() && e.mode == AddEdge && e.selectedNodes == []
    requires HasNode(e.nodes, a.id)
    modifies e
    ensures e.Valid() && e.Linked() && e.mode == AddEdge && e.selectedNodes == []
    ensures e.nodes == WithoutNode(old(e.nodes), a.id)
    ensures e.edges == WithoutIncidentEdges(old(e.edges), a.id)
  {
    var first := e.MouseDownOnNode(a, 0.0, 0.0);
    e.DeleteNodeAndDeselect(a.id);
    assert a.id !in e.selectedNodes;
  }

  /** The same gestures with the corrected deletion: the anchor goes with its
      node, so the click on `b` commits no edge, and every edge stays linked. */
  method DeletedAnchorIsDeselected(e: GraphEditor, a: Node, b: Node)
    requires e.Valid() && e.Linked() && e.mode == AddEdge && e.selectedNodes == []
    requires a.id != b.id && HasNode(e.nodes, a.id) && HasNode(e.nodes, b.id)
    modifies e
    ensures e.Valid() && e.Linked()
    ensures e.edges == WithoutIncidentEdges(old(e.edges), a.id)
  {
    AnchorThenDelete(e, a);
    var second := e.MouseDownOnNode(b, 0.0, 0.0);
  }
}

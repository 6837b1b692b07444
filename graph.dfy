/** The entities of the philosophical network and the pure list updates the
    editor's handlers build their new state from. */
module Graph {
  import opened Seqs

  datatype Option<+T> = None | Some(value: T)

  /** A statement on the canvas. `kind` is the node's `type` (one of the four
      built-in categories or a custom one); `x`, `y` are canvas coordinates. */
  datatype Node = Node(id: int, statement: string, kind: string, x: real, y: real)

  /** A directed, typed relationship; `strength` is absent (`undefined`) unless
      the edge was created with a strength-bearing type. */
  datatype Edge = Edge(id: int, from: int, to: int, kind: string, caption: string, strength: Option<int>)

  /** A relationship type or a custom node type: both are `{id, name, color}`. */
  datatype TypeDef = TypeDef(id: int, name: string, color: string)

  function NodeId(n: Node): int { n.id }
  function EdgeId(e: Edge): int { e.id }
  function TypeDefId(t: TypeDef): int { t.id }

  function NodeIds(nodes: seq<Node>): seq<int> {
    seq(|nodes|, i requires 0 <= i < |nodes| => nodes[i].id)
  }

  function EdgeIds(edges: seq<Edge>): seq<int> {
    seq(|edges|, i requires 0 <= i < |edges| => edges[i].id)
  }

  function TypeIds(types: seq<TypeDef>): seq<int> {
    seq(|types|, i requires 0 <= i < |types| => types[i].id)
  }

  predicate HasNode(nodes: seq<Node>, id: int) {
    id in NodeIds(nodes)
  }

  lemma HasNodeMeans(nodes: seq<Node>, id: int)
    ensures HasNode(nodes, id) <==> exists n :: n in nodes && n.id == id
  {
    if HasNode(nodes, id) {
      var i :| 0 <= i < |nodes| && NodeIds(nodes)[i] == id;
      assert nodes[i] in nodes;
    }
    if n :| n in nodes && n.id == id {
      var i :| 0 <= i < |nodes| && nodes[i] == n;
      assert NodeIds(nodes)[i] == id;
    }
  }

  /** Every edge joins two nodes of the list. */
  ghost predicate EdgesLinked(nodes: seq<Node>, edges: seq<Edge>) {
    forall e :: e in edges ==> HasNode(nodes, e.from) && HasNode(nodes, e.to)
  }

  /** Adding a node never breaks an edge's link. */
  lemma AppendNodeKeepsLinks(nodes: seq<Node>, edges: seq<Edge>, n: Node)
    ensures EdgesLinked(nodes, edges) ==> EdgesLinked(nodes + [n], edges)
  {
    AppendKeepsNodes(nodes, n);
  }

  /** Appending a node keeps every node id that was there. */
  lemma AppendKeepsNodes(nodes: seq<Node>, n: Node)
    ensures forall a :: HasNode(nodes, a) ==> HasNode(nodes + [n], a)
  {
    forall a | HasNode(nodes, a) ensures HasNode(nodes + [n], a) {
      var i :| 0 <= i < |nodes| && NodeIds(nodes)[i] == a;
      assert NodeIds(nodes + [n])[i] == a;
    }
  }

  /** The node the add-node mode places: the next free id, the drafted
      statement and type, and the clicked canvas position. Appending it keeps
      ids distinct and keeps every node id that was there. */
  function PlacedNode(nodes: seq<Node>, statement: string, kind: string, x: real, y: real): (n: Node)
    ensures n.id >= 1 && !HasNode(nodes, n.id)
    ensures n.statement == statement && n.kind == kind && n.x == x && n.y == y
    ensures DistinctBy(nodes, NodeId) ==> DistinctBy(nodes + [n], NodeId)
    ensures forall a :: HasNode(nodes, a) ==> HasNode(nodes + [n], a)
  {
    var n := Node(NextId(NodeIds(nodes)), statement, kind, x, y);
    assert forall i :: 0 <= i < |nodes| ==> NodeId(nodes[i]) == NodeIds(nodes)[i];
    AppendFreshKeepsDistinct(nodes, n, NodeId);
    AppendKeepsNodes(nodes, n);
    n
  }

  const Supports := "supports"
  const Weakens := "weakens"

  /** The two relationship types whose edges carry a signed strength. */
  predicate IsStrengthBearing(kind: string) {
    kind == Supports || kind == Weakens
  }

  /** What every edge the editor creates satisfies: it joins two different
      nodes and carries a strength exactly when its type is strength-bearing. */
  predicate WellFormedEdge(e: Edge) {
    e.from != e.to && (e.strength.Some? <==> IsStrengthBearing(e.kind))
  }

  /** Node ids and edge ids are distinct and every edge is well formed. */
  ghost predicate WellFormedGraph(nodes: seq<Node>, edges: seq<Edge>) {
    && DistinctBy(nodes, NodeId)
    && DistinctBy(edges, EdgeId)
    && (forall e :: e in edges ==> WellFormedEdge(e))
  }

  // ---------------------------------------------------------------- deletion

  /** `nodes.filter(n => n.id !== id)`. */
  function WithoutNode(nodes: seq<Node>, id: int): (r: seq<Node>)
    ensures forall n :: n in r <==> n in nodes && n.id != id
    ensures IsSubsequence(r, nodes)
    ensures forall a :: HasNode(r, a) <==> HasNode(nodes, a) && a != id
    ensures DistinctBy(nodes, NodeId) ==> DistinctBy(r, NodeId)
  {
    var keep := (n: Node) => n.id != id;
    var r := Filter(nodes, keep);
    FilterKeepsDistinct(nodes, keep, NodeId);
    assert forall a :: HasNode(r, a) <==> HasNode(nodes, a) && a != id by {
      forall a ensures HasNode(r, a) <==> HasNode(nodes, a) && a != id {
        HasNodeMeans(r, a);
        HasNodeMeans(nodes, a);
      }
    }
    r
  }

  /** `edges.filter(e => e.from !== id && e.to !== id)`: the cascade of a node deletion. */
  function WithoutIncidentEdges(edges: seq<Edge>, id: int): (r: seq<Edge>)
    ensures forall e :: e in r <==> e in edges && e.from != id && e.to != id
    ensures IsSubsequence(r, edges)
    ensures DistinctBy(edges, EdgeId) ==> DistinctBy(r, EdgeId)
  {
    var keep := (e: Edge) => e.from != id && e.to != id;
    FilterKeepsDistinct(edges, keep, EdgeId);
    Filter(edges, keep)
  }

  /** `edges.filter(e => e.id !== id)`. */
  function WithoutEdge(edges: seq<Edge>, id: int): (r: seq<Edge>)
    ensures forall e :: e in r <==> e in edges && e.id != id
    ensures IsSubsequence(r, edges)
    ensures DistinctBy(edges, EdgeId) ==> DistinctBy(r, EdgeId)
  {
    var keep := (e: Edge) => e.id != id;
    FilterKeepsDistinct(edges, keep, EdgeId);
    Filter(edges, keep)
  }

  // ---------------------------------------------------------- in-place update

  /** The draft the edit dialog holds: `editingNode`. */
  datatype EditDraft = EditDraft(id: int, statement: string, kind: string)

  /** The draft a click on `n` opens: it names `n` and holds exactly its
      statement and type, so writing it back onto `n` changes nothing. */
  function DraftOf(n: Node): (d: EditDraft)
    ensures d.id == n.id
    ensures n.(statement := d.statement, kind := d.kind) == n
  {
    EditDraft(n.id, n.statement, n.kind)
  }

  /** Saving the dialog: every node with the draft's id takes the draft's
      statement and type; nothing else changes. */
  function ApplyEdit(nodes: seq<Node>, d: EditDraft): (r: seq<Node>)
    ensures |r| == |nodes| && NodeIds(r) == NodeIds(nodes)
    ensures forall i :: 0 <= i < |r| ==> r[i].x == nodes[i].x && r[i].y == nodes[i].y
    ensures forall i :: 0 <= i < |r| && nodes[i].id == d.id ==>
              r[i].statement == d.statement && r[i].kind == d.kind
    ensures forall i :: 0 <= i < |r| && nodes[i].id != d.id ==> r[i] == nodes[i]
  {
    seq(|nodes|, i requires 0 <= i < |nodes| =>
      if nodes[i].id == d.id then nodes[i].(statement := d.statement, kind := d.kind) else nodes[i])
  }

  /** Opening the dialog on a node and saving it untouched changes nothing,
      because ids are distinct. */
  lemma SaveUntouchedDraftIsIdentity(nodes: seq<Node>, k: nat)
    requires DistinctBy(nodes, NodeId)
    requires k < |nodes|
    ensures ApplyEdit(nodes, DraftOf(nodes[k])) == nodes
  {
    var r := ApplyEdit(nodes, DraftOf(nodes[k]));
    assert forall i :: 0 <= i < |nodes| ==> r[i] == nodes[i];
  }

  /** Dragging: the node with id `id` is placed at (`x`, `y`); nothing else changes. */
  function MoveNode(nodes: seq<Node>, id: int, x: real, y: real): (r: seq<Node>)
    ensures |r| == |nodes| && NodeIds(r) == NodeIds(nodes)
    ensures forall i :: 0 <= i < |r| ==>
              r[i].statement == nodes[i].statement && r[i].kind == nodes[i].kind
    ensures forall i :: 0 <= i < |r| && nodes[i].id == id ==> r[i].x == x && r[i].y == y
    ensures forall i :: 0 <= i < |r| && nodes[i].id != id ==> r[i] == nodes[i]
  {
    seq(|nodes|, i requires 0 <= i < |nodes| =>
      if nodes[i].id == id then nodes[i].(x := x, y := y) else nodes[i])
  }

  /** A drag that ends where it started puts the node back: moving a node to
      its own position changes nothing, because ids are distinct. */
  lemma MoveToOwnPositionIsIdentity(nodes: seq<Node>, k: nat)
    requires DistinctBy(nodes, NodeId)
    requires k < |nodes|
    ensures MoveNode(nodes, nodes[k].id, nodes[k].x, nodes[k].y) == nodes
  {
    var r := MoveNode(nodes, nodes[k].id, nodes[k].x, nodes[k].y);
    assert forall i :: 0 <= i < |nodes| ==> r[i] == nodes[i];
  }

  // ------------------------------------------------------------------ lookup

  /** `types.find(t => t.name === name)`, as the index of the first match. */
  function FindByName(types: seq<TypeDef>, name: string): (r: Option<nat>)
    ensures r.Some? ==> r.value < |types| && types[r.value].name == name
    ensures r.Some? ==> forall j :: 0 <= j < r.value ==> types[j].name != name
    ensures r.None? <==> forall j :: 0 <= j < |types| ==> types[j].name != name
    decreases |types|
  {
    if types == [] then None
    else if types[0].name == name then Some(0)
    else
      match FindByName(types[1..], name)
      case None => None
      case Some(i) => Some(i + 1)
  }

  /** An edge's label: `relationshipTypes.find(rt => rt.name === kind)?.name || kind`.
      Whichever branch is taken, it is the type name itself. */
  function EdgeLabel(relTypes: seq<TypeDef>, kind: string): (caption: string)
    ensures caption == kind
  {
    match FindByName(relTypes, kind)
    case Some(i) => if relTypes[i].name != "" then relTypes[i].name else kind
    case None => kind
  }

  /** The edge a second click in add-edge mode commits. */
  function CreatedEdge(edges: seq<Edge>, relTypes: seq<TypeDef>, from: int, to: int,
                       kind: string, strength: int): (e: Edge)
    requires from != to
    ensures e.id >= 1 && e.id !in EdgeIds(edges)
    ensures e.from == from && e.to == to && e.kind == kind && e.caption == kind
    ensures e.strength == (if IsStrengthBearing(kind) then Some(strength) else None)
    ensures WellFormedEdge(e)
  {
    Edge(NextId(EdgeIds(edges)), from, to, kind, EdgeLabel(relTypes, kind),
         if IsStrengthBearing(kind) then Some(strength) else None)
  }

  /** Appending an edge with a fresh id keeps the graph well formed, and
      keeps it linked when both ends exist. */
  lemma AppendEdgeKeepsGraph(nodes: seq<Node>, edges: seq<Edge>, e: Edge)
    requires WellFormedGraph(nodes, edges) && WellFormedEdge(e) && e.id !in EdgeIds(edges)
    ensures WellFormedGraph(nodes, edges + [e])
    ensures EdgesLinked(nodes, edges) && HasNode(nodes, e.from) && HasNode(nodes, e.to) ==>
            EdgesLinked(nodes, edges + [e])
  {
    assert forall i :: 0 <= i < |edges| ==> EdgeId(edges[i]) == EdgeIds(edges)[i];
    AppendFreshKeepsDistinct(edges, e, EdgeId);
  }

  // --------------------------------------------------------------- node types

  const BuiltinNodeTypes: seq<string> := ["axiom", "empirical", "theoretical", "normative"]
  const DefaultNodeColor := "#cccccc"

  /** The colour of a built-in node type; any other type is drawn in the default colour. */
  function BuiltinColor(kind: string): (c: string)
    ensures kind !in BuiltinNodeTypes ==> c == DefaultNodeColor
    ensures c in {"#ffffff", "#cccccc", "#888888", "#444444"}
  {
    match kind
    case "axiom" => "#ffffff"
    case "empirical" => "#cccccc"
    case "theoretical" => "#888888"
    case "normative" => "#444444"
    case _ => DefaultNodeColor
  }

  /** `getNodeColor`: the first custom type with that name decides, shadowing
      the built-in colours; otherwise the built-in colour or `#cccccc`. */
  function NodeColor(custom: seq<TypeDef>, kind: string): (c: string)
    ensures (forall j :: 0 <= j < |custom| ==> custom[j].name != kind) ==> c == BuiltinColor(kind)
    ensures forall i :: (0 <= i < |custom| && custom[i].name == kind &&
              forall j :: 0 <= j < i ==> custom[j].name != kind) ==> c == custom[i].color
  {
    match FindByName(custom, kind)
    case Some(i) => custom[i].color
    case None => BuiltinColor(kind)
  }

  /** `getAllNodeTypes`: the built-in types, then the custom names in order. */
  function AllNodeTypes(custom: seq<TypeDef>): (r: seq<string>)
    ensures |r| == |BuiltinNodeTypes| + |custom|
    ensures r[..|BuiltinNodeTypes|] == BuiltinNodeTypes
    ensures forall i :: 0 <= i < |custom| ==> r[|BuiltinNodeTypes| + i] == custom[i].name
  {
    BuiltinNodeTypes + seq(|custom|, i requires 0 <= i < |custom| => custom[i].name)
  }

  /** Adding a custom node type appends its name to the type menu and leaves
      the rest of the menu as it was. */
  lemma AllNodeTypesAfterAdd(custom: seq<TypeDef>, t: TypeDef)
    ensures AllNodeTypes(custom + [t]) == AllNodeTypes(custom) + [t.name]
  {
    var a, b := AllNodeTypes(custom + [t]), AllNodeTypes(custom) + [t.name];
    assert |a| == |b|;
    forall i | 0 <= i < |a| ensures a[i] == b[i] {
      if i >= |BuiltinNodeTypes| {
        var k := i - |BuiltinNodeTypes|;
        assert a[|BuiltinNodeTypes| + k] == (custom + [t])[k].name;
      } else {
        assert a[..|BuiltinNodeTypes|][i] == b[..|BuiltinNodeTypes|][i];
      }
    }
  }
}

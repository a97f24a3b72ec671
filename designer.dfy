/** The interaction controller of the single-file designer (src/app/page.jsx):
    the graph it edits, the connection-drawing gesture, node dragging, and
    panning and zooming of the canvas. */
module Designer {
  import opened Shapes
  import opened Geometry
  import opened CycleCheck
  import opened Edits
  import opened Store

  const MIN_ZOOM: real := 0.1
  const MAX_ZOOM: real := 2.0
  const CycleMessage: string := "Cannot create circular dependencies"

  /** Where a drawing gesture began: the node, the anchor pressed and its bar. */
  datatype DrawingStart = DrawingStart(nodeId: string, point: Point, role: Role)

  /** The dashed line that follows the pointer while drawing. */
  datatype TempLine = TempLine(fromPoint: Point, toPoint: Point, role: Role)

  function Min(a: real, b: real): real { if a <= b then a else b }
  function Max(a: real, b: real): real { if a >= b then a else b }

  // ---------------------------------------------------------------------------
  // Coordinates under the controller's own zoom and pan

  /** Model point to canvas point. */
  function ToScreen(p: Point, zoom: real, pan: Point): (r: Point)
    ensures Some(r) == TransformCoordinates(p.x, p.y, Some(TransformState(Some(zoom), Some(pan))))
  {
    var t := Some(TransformState(Some(zoom), Some(pan)));
    assert Usable(t);
    assert TransformCoordinates(p.x, p.y, t).value == Point(p.x * zoom + pan.x, p.y * zoom + pan.y);
    Point(p.x * zoom + pan.x, p.y * zoom + pan.y)
  }

  /** Canvas point to model point. */
  function ToModel(p: Point, zoom: real, pan: Point): (r: Point)
    requires zoom != 0.0
    ensures Some(r) == InverseTransformCoordinates(p.x, p.y, Some(TransformState(Some(zoom), Some(pan))))
    ensures ToScreen(r, zoom, pan) == p
  {
    var r := Point((p.x - pan.x) / zoom, (p.y - pan.y) / zoom);
    assert r.x * zoom == p.x - pan.x && r.y * zoom == p.y - pan.y;
    r
  }

  // ---------------------------------------------------------------------------
  // Zoom

  /** Scrolling down shrinks the view, scrolling up enlarges it. */
  function WheelFactor(deltaY: real): (f: real)
    ensures deltaY > 0.0 ==> 0.0 < f < 1.0
    ensures deltaY <= 0.0 ==> 1.0 < f
  {
    if deltaY > 0.0 then 0.9 else 1.1
  }

  /** The zoom after a ctrl- or meta-wheel step: scaled by 0.9 (scrolling
      down) or 1.1, then held within [MIN_ZOOM, MAX_ZOOM]. */
  function WheelZoom(zoom: real, deltaY: real): (r: real)
    ensures MIN_ZOOM <= r <= MAX_ZOOM
    ensures MIN_ZOOM <= zoom * WheelFactor(deltaY) <= MAX_ZOOM ==> r == zoom * WheelFactor(deltaY)
    ensures zoom * WheelFactor(deltaY) > MAX_ZOOM ==> r == MAX_ZOOM
    ensures zoom * WheelFactor(deltaY) < MIN_ZOOM ==> r == MIN_ZOOM
    ensures deltaY > 0.0 && MIN_ZOOM <= zoom ==> r <= zoom
    ensures deltaY <= 0.0 && 0.0 <= zoom <= MAX_ZOOM ==> zoom <= r
  {
    Min(Max(MIN_ZOOM, zoom * WheelFactor(deltaY)), MAX_ZOOM)
  }

  /** The zoom-in button: 20% more, never above MAX_ZOOM. */
  function ZoomedIn(zoom: real): (r: real)
    ensures r <= MAX_ZOOM
    ensures MIN_ZOOM <= zoom <= MAX_ZOOM ==> MIN_ZOOM <= r && zoom <= r
    ensures zoom * 1.2 <= MAX_ZOOM ==> r == zoom * 1.2
    ensures zoom * 1.2 > MAX_ZOOM ==> r == MAX_ZOOM
  {
    Min(MAX_ZOOM, zoom * 1.2)
  }

  /** The zoom-out button: 20% less, never below MIN_ZOOM. */
  function ZoomedOut(zoom: real): (r: real)
    ensures MIN_ZOOM <= r
    ensures MIN_ZOOM <= zoom <= MAX_ZOOM ==> r <= MAX_ZOOM && r <= zoom
    ensures MIN_ZOOM <= zoom * 0.8 ==> r == zoom * 0.8
    ensures zoom * 0.8 < MIN_ZOOM ==> r == MIN_ZOOM
  {
    Max(MIN_ZOOM, zoom * 0.8)
  }

  // ---------------------------------------------------------------------------
  // Placing and grabbing nodes

  /** The position the file gives a new node: the canvas centre with the pan
      taken off once by hand and once more by the inverse transform. */
  function CenterAsWritten(canvas: Canvas, zoom: real, pan: Point): (r: Point)
    requires zoom != 0.0
    ensures ToScreen(r, zoom, pan) == Point(canvas.width / 2.0 - pan.x, canvas.height / 2.0 - pan.y)
  {
    ToModel(Point(canvas.width / 2.0 - pan.x, canvas.height / 2.0 - pan.y), zoom, pan)
  }

  /** Under any non-zero pan the node placed as written is not drawn at the
      canvas centre, while the corrected position always is. */
  lemma CenterAsWrittenMisses(canvas: Canvas, zoom: real, pan: Point)
    requires zoom != 0.0
    ensures pan != Point(0.0, 0.0) ==>
      ToScreen(CenterAsWritten(canvas, zoom, pan), zoom, pan) != Point(canvas.width / 2.0, canvas.height / 2.0)
    ensures ToScreen(ViewportCenter(canvas, zoom, pan), zoom, pan) == Point(canvas.width / 2.0, canvas.height / 2.0)
  {
  }

  /** An 800 x 400 canvas panned 100 to the right at zoom 1: the file puts the
      node at (200, 200), the centre of the view is (300, 200). */
  lemma CenterAsWrittenExample()
    ensures CenterAsWritten(Canvas(800.0, 400.0), 1.0, Point(100.0, 0.0)) == Point(200.0, 200.0)
    ensures ViewportCenter(Canvas(800.0, 400.0), 1.0, Point(100.0, 0.0)) == Point(300.0, 200.0)
  {
  }

  /** The grab offset the file records: the pointer's offset inside the node
      box sent through the full inverse transform, pan included. */
  function DragOffsetAsWritten(local: Point, zoom: real, pan: Point): (r: Point)
    requires zoom != 0.0
    ensures ToScreen(r, zoom, pan) == local
  {
    ToModel(local, zoom, pan)
  }

  /** The grab offset in model units: the pointer's offset inside the node
      box, scaled by the zoom only. */
  function DragOffset(local: Point, zoom: real): (r: Point)
    requires zoom != 0.0
    ensures r.x * zoom == local.x && r.y * zoom == local.y
  {
    ToModel(local, zoom, Point(0.0, 0.0))
  }

  /** Where a dragged node goes: the pointer in model space less the grab offset. */
  function DragTarget(pointer: Point, offset: Point, zoom: real, pan: Point): (r: Point)
    requires zoom != 0.0
  {
    var m := ToModel(pointer, zoom, pan);
    Point(m.x - offset.x, m.y - offset.y)
  }

  /** The dragged node is placed so that the grab point, the target plus the
      offset, is drawn under the pointer. */
  lemma DragTargetUnderPointer(pointer: Point, offset: Point, zoom: real, pan: Point)
    requires zoom != 0.0
    ensures var r := DragTarget(pointer, offset, zoom, pan);
            ToScreen(Point(r.x + offset.x, r.y + offset.y), zoom, pan) == pointer
  {
    var r := DragTarget(pointer, offset, zoom, pan);
    assert Point(r.x + offset.x, r.y + offset.y) == ToModel(pointer, zoom, pan);
  }

  /** Grab a node drawn at `pos` with the pointer at canvas point `q` and move
      without moving the pointer: as written the node jumps by pan / zoom;
      with the corrected offset it stays where it is. */
  lemma GrabThenDrag(pos: Point, q: Point, zoom: real, pan: Point)
    requires zoom != 0.0
    ensures var box := ToScreen(pos, zoom, pan);
            var local := Point(q.x - box.x, q.y - box.y);
            DragTarget(q, DragOffsetAsWritten(local, zoom, pan), zoom, pan)
              == Point(pos.x + pan.x / zoom, pos.y + pan.y / zoom)
    ensures var box := ToScreen(pos, zoom, pan);
            var local := Point(q.x - box.x, q.y - box.y);
            DragTarget(q, DragOffset(local, zoom), zoom, pan) == pos
  {
    var box := ToScreen(pos, zoom, pan);
    var local := Point(q.x - box.x, q.y - box.y);
    var m := ToModel(q, zoom, pan);
    var w := DragOffsetAsWritten(local, zoom, pan);
    var o := DragOffset(local, zoom);
    assert m.x * zoom == q.x - pan.x && m.y * zoom == q.y - pan.y;
    assert (m.x - w.x) * zoom == pos.x * zoom + pan.x;
    assert (m.y - w.y) * zoom == pos.y * zoom + pan.y;
    assert (m.x - o.x) * zoom == pos.x * zoom;
    assert (m.y - o.y) * zoom == pos.y * zoom;
    assert m.x - w.x == pos.x + pan.x / zoom && m.y - w.y == pos.y + pan.y / zoom;
  }

  /** Pan (10, 0), zoom 1, node at the origin grabbed at canvas point (20, 20):
      as written, the first move to the same point puts the node at (10, 0). */
  lemma GrabThenDragExample()
    ensures DragTarget(Point(20.0, 20.0), DragOffsetAsWritten(Point(10.0, 20.0), 1.0, Point(10.0, 0.0)), 1.0, Point(10.0, 0.0))
         == Point(10.0, 0.0)
    ensures DragTarget(Point(20.0, 20.0), DragOffset(Point(10.0, 20.0), 1.0), 1.0, Point(10.0, 0.0))
         == Point(0.0, 0.0)
  {
    GrabThenDrag(Point(0.0, 0.0), Point(20.0, 20.0), 1.0, Point(10.0, 0.0));
    assert ToScreen(Point(0.0, 0.0), 1.0, Point(10.0, 0.0)) == Point(10.0, 0.0);
  }

  // ---------------------------------------------------------------------------
  // The controller

  class Designer {
    var nodes: seq<Node>
    var connections: seq<Connection>
    var selectedNode: Option<Node>
    var isDrawing: bool
    var drawingStart: Option<DrawingStart>
    var tempLine: Option<TempLine>
    var draggedNode: Option<string>
    var dragOffset: Point
    var zoom: real
    var pan: Point
    var isDraggingCanvas: bool
    var dragStart: Point
    var error: Option<string>

    /** The zoom stays within its bounds; node ids are unique and non-empty;
        every connection joins two existing nodes, caches their anchors, and
        the connections form no cycle; a gesture in progress has both its
        start and its dashed line. */
    ghost predicate Valid()
      reads this
    {
      MIN_ZOOM <= zoom <= MAX_ZOOM && Whole(nodes, connections) &&
      (isDrawing <==> drawingStart.Some?) && (isDrawing <==> tempLine.Some?)
    }

    ghost function Graph(): (seq<Node>, seq<Connection>, Option<Node>)
      reads this
    {
      (nodes, connections, selectedNode)
    }

    ghost function Gesture(): (bool, Option<DrawingStart>, Option<TempLine>)
      reads this
    {
      (isDrawing, drawingStart, tempLine)
    }

    ghost function Drag(): (Option<string>, Point)
      reads this
    {
      (draggedNode, dragOffset)
    }

    ghost function View(): (real, Point, bool, Point)
      reads this
    {
      (zoom, pan, isDraggingCanvas, dragStart)
    }

    constructor ()
      ensures nodes == [] && connections == [] && selectedNode == None
      ensures !isDrawing && drawingStart == None && tempLine == None
      ensures draggedNode == None && dragOffset == Point(0.0, 0.0)
      ensures zoom == 1.0 && pan == Point(0.0, 0.0) && !isDraggingCanvas && dragStart == Point(0.0, 0.0)
      ensures error == None
      ensures Valid()
    {
      EmptyAcyclic();
      nodes := [];
      connections := [];
      selectedNode := None;
      isDrawing := false;
      drawingStart := None;
      tempLine := None;
      draggedNode := None;
      dragOffset := Point(0.0, 0.0);
      zoom := 1.0;
      pan := Point(0.0, 0.0);
      isDraggingCanvas := false;
      dragStart := Point(0.0, 0.0);
      error := None;
    }

    // --- canvas navigation -------------------------------------------------

    /** A press on the canvas itself starts panning and remembers the pointer
        relative to the current pan; a press on anything else does nothing. */
    method CanvasMouseDown(onCanvas: bool, client: Point)
      requires Valid()
      modifies this
      ensures Valid()
      ensures onCanvas ==> isDraggingCanvas && dragStart == Point(client.x - pan.x, client.y - pan.y)
      ensures !onCanvas ==> isDraggingCanvas == old(isDraggingCanvas) && dragStart == old(dragStart)
      ensures zoom == old(zoom) && pan == old(pan)
      ensures Graph() == old(Graph()) && Gesture() == old(Gesture()) && Drag() == old(Drag()) && error == old(error)
    {
      if onCanvas {
        isDraggingCanvas := true;
        dragStart := Point(client.x - pan.x, client.y - pan.y);
      }
    }

    /** A pointer move over the canvas: while panning, the pan follows the
        pointer; while drawing, only the loose end of the dashed line moves,
        to the pointer in model space under the pan in effect before the move. */
    method CanvasMouseMove(client: Point, canvasOrigin: Point)
      requires Valid()
      modifies this
      ensures Valid()
      ensures old(isDraggingCanvas) ==> pan == Point(client.x - dragStart.x, client.y - dragStart.y)
      ensures !old(isDraggingCanvas) ==> pan == old(pan)
      ensures old(isDrawing) ==>
        tempLine == Some(old(tempLine).value.(toPoint :=
          ToModel(Point(client.x - canvasOrigin.x, client.y - canvasOrigin.y), zoom, old(pan))))
      ensures !old(isDrawing) ==> tempLine == old(tempLine)
      ensures isDrawing == old(isDrawing) && drawingStart == old(drawingStart)
      ensures zoom == old(zoom) && isDraggingCanvas == old(isDraggingCanvas) && dragStart == old(dragStart)
      ensures Graph() == old(Graph()) && Drag() == old(Drag()) && error == old(error)
    {
      var oldPan := pan;
      if isDraggingCanvas {
        pan := Point(client.x - dragStart.x, client.y - dragStart.y);
      }
      if isDrawing && tempLine.Some? {
        var m := ToModel(Point(client.x - canvasOrigin.x, client.y - canvasOrigin.y), zoom, oldPan);
        tempLine := Some(tempLine.value.(toPoint := m));
      }
    }

    /** Releasing the button over the canvas, or leaving it, ends panning. */
    method CanvasMouseUp()
      requires Valid()
      modifies this
      ensures Valid()
      ensures !isDraggingCanvas
      ensures zoom == old(zoom) && pan == old(pan) && dragStart == old(dragStart)
      ensures Graph() == old(Graph()) && Gesture() == old(Gesture()) && Drag() == old(Drag()) && error == old(error)
    {
      isDraggingCanvas := false;
    }

    /** Press on the empty canvas at `c0`, then move to `c`: the view pans by
        exactly the distance the pointer travelled. */
    method PanGesture(c0: Point, c: Point, canvasOrigin: Point)
      requires Valid()
      modifies this
      ensures Valid()
      ensures isDraggingCanvas
      ensures pan == Point(old(pan).x + (c.x - c0.x), old(pan).y + (c.y - c0.y))
      ensures zoom == old(zoom) && Graph() == old(Graph()) && Drag() == old(Drag())
    {
      CanvasMouseDown(true, c0);
      CanvasMouseMove(c, canvasOrigin);
    }

    /** A wheel step zooms only with ctrl or meta held. */
    method Wheel(modifier: bool, deltaY: real)
      requires Valid()
      modifies this
      ensures Valid()
      ensures modifier ==> zoom == WheelZoom(old(zoom), deltaY)
      ensures !modifier ==> zoom == old(zoom)
      ensures pan == old(pan) && isDraggingCanvas == old(isDraggingCanvas) && dragStart == old(dragStart)
      ensures Graph() == old(Graph()) && Gesture() == old(Gesture()) && Drag() == old(Drag()) && error == old(error)
    {
      if modifier {
        zoom := WheelZoom(zoom, deltaY);
      }
    }

    method ZoomIn()
      requires Valid()
      modifies this
      ensures Valid()
      ensures zoom == ZoomedIn(old(zoom)) && old(zoom) <= zoom
      ensures pan == old(pan) && isDraggingCanvas == old(isDraggingCanvas) && dragStart == old(dragStart)
      ensures Graph() == old(Graph()) && Gesture() == old(Gesture()) && Drag() == old(Drag()) && error == old(error)
    {
      zoom := ZoomedIn(zoom);
    }

    method ZoomOut()
      requires Valid()
      modifies this
      ensures Valid()
      ensures zoom == ZoomedOut(old(zoom)) && zoom <= old(zoom)
      ensures pan == old(pan) && isDraggingCanvas == old(isDraggingCanvas) && dragStart == old(dragStart)
      ensures Graph() == old(Graph()) && Gesture() == old(Gesture()) && Drag() == old(Drag()) && error == old(error)
    {
      zoom := ZoomedOut(zoom);
    }

    /** The reset button: zoom 1 and no pan. */
    method ResetView()
      requires Valid()
      modifies this
      ensures Valid()
      ensures zoom == 1.0 && pan == Point(0.0, 0.0)
      ensures isDraggingCanvas == old(isDraggingCanvas) && dragStart == old(dragStart)
      ensures Graph() == old(Graph()) && Gesture() == old(Gesture()) && Drag() == old(Drag()) && error == old(error)
    {
      zoom := 1.0;
      pan := Point(0.0, 0.0);
    }

    // --- nodes ---------------------------------------------------------------

    /** Adds a node of catalog type `typeKey`, drawn at the centre of the
        canvas (the corrected placement; see `CenterAsWritten`). */
    method AddNode(typeKey: string, entry: CatalogEntry, freshId: string, canvas: Canvas)
      requires Valid() && freshId != "" && freshId !in NodeIds(nodes)
      modifies this
      ensures Valid()
      ensures |nodes| == |old(nodes)| + 1 && nodes[..|old(nodes)|] == old(nodes)
      ensures var n := nodes[|nodes| - 1];
        n.id == freshId && n.resourceType == typeKey &&
        n.name == NumberedName(entry, |old(nodes)|) &&
        n.config == NodeConfig(typeKey, entry.category, map[]) &&
        ToScreen(n.position, zoom, pan) == Point(canvas.width / 2.0, canvas.height / 2.0)
      ensures connections == old(connections) && selectedNode == old(selectedNode)
      ensures View() == old(View()) && Gesture() == old(Gesture()) && Drag() == old(Drag()) && error == old(error)
    {
      var n := Node(freshId, typeKey, NumberedName(entry, |nodes|), ViewportCenter(canvas, zoom, pan),
                    NodeConfig(typeKey, entry.category, map[]));
      AppendKeepsGraph(nodes, connections, n);
      nodes := nodes + [n];
      assert nodes[..|nodes| - 1] == old(nodes);
    }

    /** Pressing on a node starts dragging it and records where in the node
        box it was grabbed, in model units. */
    method NodeMouseDown(nodeId: string, local: Point)
      requires Valid()
      modifies this
      ensures Valid()
      ensures draggedNode == Some(nodeId)
      ensures dragOffset.x * zoom == local.x && dragOffset.y * zoom == local.y
      ensures Graph() == old(Graph()) && Gesture() == old(Gesture()) && View() == old(View()) && error == old(error)
    {
      draggedNode := Some(nodeId);
      dragOffset := DragOffset(local, zoom);
    }

    /** A pointer move over node `nodeId` while it is being dragged moves that
        node to the pointer less the grab offset and re-anchors the
        connections touching it; nothing else changes, and nothing at all when
        another node (or none) is being dragged. */
    method NodeDrag(nodeId: string, pointer: Point)
      requires Valid()
      modifies this
      ensures Valid()
      ensures old(draggedNode) == Some(nodeId) ==>
        MovedOnly(old(nodes), nodes, nodeId, DragTarget(pointer, dragOffset, zoom, pan)) &&
        ReanchoredOnly(old(connections), connections, nodeId)
      ensures old(draggedNode) != Some(nodeId) ==> nodes == old(nodes) && connections == old(connections)
      ensures selectedNode == old(selectedNode)
      ensures View() == old(View()) && Gesture() == old(Gesture()) && Drag() == old(Drag()) && error == old(error)
    {
      if draggedNode == Some(nodeId) {
        var ns, cs := MoveNode(nodes, connections, nodeId, DragTarget(pointer, dragOffset, zoom, pan));
        nodes, connections := ns, cs;
      }
    }

    /** Releasing a node ends the drag. */
    method NodeMouseUp()
      requires Valid()
      modifies this
      ensures Valid()
      ensures draggedNode == None && dragOffset == old(dragOffset)
      ensures Graph() == old(Graph()) && Gesture() == old(Gesture()) && View() == old(View()) && error == old(error)
    {
      draggedNode := None;
    }

    /** Clicking a node selects the copy of it the click saw. */
    method SelectNode(node: Node)
      requires Valid()
      modifies this
      ensures Valid()
      ensures selectedNode == Some(node)
      ensures nodes == old(nodes) && connections == old(connections)
      ensures View() == old(View()) && Gesture() == old(Gesture()) && Drag() == old(Drag()) && error == old(error)
    {
      selectedNode := Some(node);
    }

    /** The name field of the properties panel renames the node carrying the
        selected id and the selected copy alike. */
    method RenameSelected(newName: string)
      requires Valid() && selectedNode.Some?
      modifies this
      ensures Valid()
      ensures |nodes| == |old(nodes)|
      ensures forall i :: 0 <= i < |nodes| ==>
        nodes[i] == if old(nodes)[i].id == old(selectedNode).value.id then old(nodes)[i].(name := newName) else old(nodes)[i]
      ensures selectedNode == Some(old(selectedNode).value.(name := newName))
      ensures connections == old(connections)
      ensures View() == old(View()) && Gesture() == old(Gesture()) && Drag() == old(Drag()) && error == old(error)
    {
      var id := selectedNode.value.id;
      UpdateKeepsIds(nodes, id, Renamed(newName));
      UpdateKeepsPointsFresh(nodes, connections, id, Renamed(newName));
      forall i | 0 <= i < |nodes| && nodes[i].id == id
        ensures UpdateWhere(nodes, id, Renamed(newName))[i] == nodes[i].(name := newName)
      {
        MovedAndRenamed(nodes[i], Point(0.0, 0.0), newName);
      }
      nodes := UpdateWhere(nodes, id, Renamed(newName));
      selectedNode := Some(selectedNode.value.(name := newName));
    }

    /** Deletes a node and every connection touching it; the selection is
        cleared exactly when it holds that node. */
    method DeleteNode(nodeId: string)
      requires Valid()
      modifies this
      ensures Valid()
      ensures nodes == RemoveNode(old(nodes), nodeId)
      ensures connections == RemoveTouching(old(connections), nodeId)
      ensures NodeIds(nodes) == old(NodeIds(nodes)) - {nodeId}
      ensures forall c :: c in connections ==> c.fromNode != nodeId && c.toNode != nodeId
      ensures old(selectedNode.Some? && selectedNode.value.id == nodeId) ==> selectedNode == None
      ensures !old(selectedNode.Some? && selectedNode.value.id == nodeId) ==> selectedNode == old(selectedNode)
      ensures View() == old(View()) && Gesture() == old(Gesture()) && Drag() == old(Drag()) && error == old(error)
    {
      DeleteKeepsGraph(nodes, connections, nodeId);
      DeleteKeepsPointsFresh(nodes, connections, nodeId);
      RemoveNodeIds(nodes, nodeId);
      RemoveKeepsUnique(nodes, nodeId);
      nodes := RemoveNode(nodes, nodeId);
      connections := RemoveTouching(connections, nodeId);
      if selectedNode.Some? && selectedNode.value.id == nodeId {
        selectedNode := None;
      }
    }

    // --- drawing connections -------------------------------------------------

    /** Pressing a bar of node `nodeId` starts a drawing gesture there; the
        dashed line starts and ends at the anchor pressed. */
    method StartConnection(nodeId: string, point: Point, role: Role)
      requires Valid()
      modifies this
      ensures Valid()
      ensures isDrawing && drawingStart == Some(DrawingStart(nodeId, point, role))
      ensures tempLine == Some(TempLine(point, point, role))
      ensures Graph() == old(Graph()) && View() == old(View()) && Drag() == old(Drag()) && error == old(error)
    {
      isDrawing := true;
      drawingStart := Some(DrawingStart(nodeId, point, role));
      tempLine := Some(TempLine(point, point, role));
    }

    /** The gesture may connect: one is in progress, it began on the child
        bar of another node, and it ends on a parent bar. */
    predicate Connectable(nodeId: string, role: Role)
      reads this
    {
      isDrawing && Completes(drawingStart, nodeId, role)
    }

    /** Releasing over a bar of node `nodeId` ends the gesture, with the
        connection list and error message `Release` gives. */
    method EndConnection(nodeId: string, role: Role, freshConnId: string)
      requires Valid()
      requires Connectable(nodeId, role) ==> drawingStart.value.nodeId in NodeIds(nodes) && nodeId in NodeIds(nodes)
      modifies this
      ensures Valid()
      ensures nodes == old(nodes) && selectedNode == old(selectedNode)
      ensures (connections, error) == old(Release(nodes, connections, error, drawingStart, nodeId, role, freshConnId))
      ensures !isDrawing && drawingStart == None && tempLine == None
      ensures zoom == old(zoom) && pan == old(pan) && isDraggingCanvas == old(isDraggingCanvas) && dragStart == old(dragStart)
      ensures draggedNode == old(draggedNode) && dragOffset == old(dragOffset)
    {
      var r := Release(nodes, connections, error, drawingStart, nodeId, role, freshConnId);
      connections, error, isDrawing, drawingStart, tempLine := r.0, r.1, false, None, None;
    }

    /** The timer that hides the error message. */
    method DismissError()
      requires Valid()
      modifies this
      ensures Valid()
      ensures error == None
      ensures Graph() == old(Graph()) && Gesture() == old(Gesture()) && View() == old(View()) && Drag() == old(Drag())
    {
      error := None;
    }
  }

  /** The connection a finished gesture adds from child `from` to parent `to`,
      its points at their anchors. */
  function NewConnection(id: string, nodes: seq<Node>, from: string, to: string): (c: Connection)
    requires from in NodeIds(nodes) && to in NodeIds(nodes)
    ensures c.id == id && c.fromNode == from && c.toNode == to && c.kind == ParentChild
    ensures c.fromPoint == ConnectionPoint(Find(nodes, from), Child)
    ensures c.toPoint == ConnectionPoint(Find(nodes, to), Parent)
  {
    Connection(id, from, to, Anchor(Find(nodes, from).value.position, Child),
               Anchor(Find(nodes, to).value.position, Parent), ParentChild)
  }

  /** The graph the controller keeps: unique non-empty node ids, every
      connection joining two existing nodes and caching their anchors, and no
      cycle. */
  ghost predicate Whole(nodes: seq<Node>, cs: seq<Connection>) {
    UniqueIds(nodes) && NonEmptyIds(nodes) && Integrity(nodes, cs) && Acyclic(cs) && FreshPoints(nodes, cs)
  }

  /** On two existing nodes the file's unguarded cycle search answers exactly
      whether the target already reaches the origin. */
  lemma CycleGuardIsReachability(nodes: seq<Node>, cs: seq<Connection>, from: string, to: string)
    requires NonEmptyIds(nodes) && Integrity(nodes, cs)
    requires from in NodeIds(nodes) && to in NodeIds(nodes)
    ensures WouldCreateCycleUnguarded(from, to, cs, {}) <==> Reaches(cs, from, to)
  {
    IntegrityNamesEnds(nodes, cs);
    UnguardedAgrees(from, to, cs, {});
    WouldCreateCycleIff(from, to, cs);
  }

  /** A gesture begun at `start` completes over bar `role` of `nodeId` when
      it began on the child bar of another node and ends on a parent bar. */
  predicate Completes(start: Option<DrawingStart>, nodeId: string, role: Role) {
    start.Some? && start.value.nodeId != nodeId && start.value.role == Child && role == Parent
  }

  /** The connection list and error message a released gesture leaves. A
      completed gesture appends the new connection when the cycle guard lets
      it through and shows the cycle message otherwise; any other release
      changes neither. The graph stays whole either way. */
  function Release(nodes: seq<Node>, cs: seq<Connection>, err: Option<string>, start: Option<DrawingStart>,
                   nodeId: string, role: Role, id: string): (r: (seq<Connection>, Option<string>))
    requires Whole(nodes, cs)
    requires Completes(start, nodeId, role) ==> start.value.nodeId in NodeIds(nodes) && nodeId in NodeIds(nodes)
    ensures Whole(nodes, r.0)
    ensures Completes(start, nodeId, role) && !WouldCreateCycleUnguarded(start.value.nodeId, nodeId, cs, {}) ==>
      r.0 == cs + [NewConnection(id, nodes, start.value.nodeId, nodeId)] && r.1 == err
    ensures Completes(start, nodeId, role) && WouldCreateCycleUnguarded(start.value.nodeId, nodeId, cs, {}) ==>
      r.0 == cs && r.1 == Some(CycleMessage)
    ensures !Completes(start, nodeId, role) ==> r == (cs, err)
  {
    if !Completes(start, nodeId, role) then (cs, err)
    else if WouldCreateCycleUnguarded(start.value.nodeId, nodeId, cs, {}) then (cs, Some(CycleMessage))
    else
      ConnectKeepsGraph(nodes, cs, id, start.value.nodeId, nodeId);
      (cs + [NewConnection(id, nodes, start.value.nodeId, nodeId)], err)
  }

  /** A connection between existing nodes that the guard lets through, with
      its ends' anchors as its points, keeps the graph whole, acyclic and fresh. */
  lemma ConnectKeepsGraph(nodes: seq<Node>, cs: seq<Connection>, id: string, from: string, to: string)
    requires Whole(nodes, cs)
    requires from in NodeIds(nodes) && to in NodeIds(nodes)
    requires !WouldCreateCycleUnguarded(from, to, cs, {})
    ensures Whole(nodes, cs + [NewConnection(id, nodes, from, to)])
  {
    var c := NewConnection(id, nodes, from, to);
    IntegrityNamesEnds(nodes, cs);
    UnguardedAgrees(from, to, cs, {});
    AddKeepsAcyclic(cs, c);
  }

  /** Moves node `id` to `pos` and re-anchors the connections touching it. */
  method MoveNode(nodes: seq<Node>, cs: seq<Connection>, id: string, pos: Point) returns (nodes': seq<Node>, cs': seq<Connection>)
    requires Whole(nodes, cs)
    ensures Whole(nodes', cs')
    ensures MovedOnly(nodes, nodes', id, pos)
    ensures ReanchoredOnly(cs, cs', id)
  {
    DragKeepsGraph(nodes, cs, id, pos);
    nodes', cs' := UpdateWhere(nodes, id, Moved(pos)), ReanchorAll(cs, nodes, id, pos);
  }

  /** Dragging keeps the graph whole, acyclic and fresh, and moves exactly the
      dragged node. */
  lemma DragKeepsGraph(nodes: seq<Node>, cs: seq<Connection>, id: string, pos: Point)
    requires Whole(nodes, cs)
    ensures Whole(UpdateWhere(nodes, id, Moved(pos)), ReanchorAll(cs, nodes, id, pos))
    ensures MovedOnly(nodes, UpdateWhere(nodes, id, Moved(pos)), id, pos)
    ensures ReanchoredOnly(cs, ReanchorAll(cs, nodes, id, pos), id)
  {
    MoveKeepsPointsFresh(nodes, cs, id, pos);
    ReanchorKeepsEnds(cs, nodes, id, pos);
    UpdateKeepsIds(nodes, id, Moved(pos));
    forall i | 0 <= i < |nodes| && nodes[i].id == id
      ensures UpdateWhere(nodes, id, Moved(pos))[i] == nodes[i].(position := pos)
    {
      MovedAndRenamed(nodes[i], pos, "");
    }
  }
}

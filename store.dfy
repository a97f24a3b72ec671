/** The graph store of the designer page (src/app/page.tsx): the node and
    connection lists, the selection and the view, with the handlers that
    replace them. */
module Store {
  import opened Shapes
  import opened Geometry
  import opened CycleCheck
  import opened Edits

  /** The canvas size read from the page layout. */
  datatype Canvas = Canvas(width: real, height: real)

  /** The model point drawn at the middle of the canvas under `zoom` and `pan`. */
  function ViewportCenter(canvas: Canvas, zoom: real, pan: Point): (r: Point)
    requires zoom != 0.0
    ensures TransformCoordinates(r.x, r.y, Some(TransformState(Some(zoom), Some(pan))))
         == Some(Point(canvas.width / 2.0, canvas.height / 2.0))
  {
    var x, y := (canvas.width / 2.0 - pan.x) / zoom, (canvas.height / 2.0 - pan.y) / zoom;
    assert x * zoom == canvas.width / 2.0 - pan.x;
    assert y * zoom == canvas.height / 2.0 - pan.y;
    var t := Some(TransformState(Some(zoom), Some(pan)));
    assert Usable(t);
    assert TransformCoordinates(x, y, t).value == Point(canvas.width / 2.0, canvas.height / 2.0);
    Point(x, y)
  }

  /** The display name of the `count + 1`-th node made from a catalog entry. */
  function NumberedName(entry: CatalogEntry, count: nat): (s: string)
    ensures |s| > |entry.name| + 1 && s[..|entry.name|] == entry.name && s[|entry.name|] == '-'
    ensures DecimalValue(s[|entry.name| + 1..]) == count + 1 && s[|entry.name| + 1] != '0'
    ensures forall k :: |entry.name| < k < |s| ==> '0' <= s[k] <= '9'
  {
    var s := entry.name + "-" + NatToString(count + 1);
    assert s[|entry.name| + 1..] == NatToString(count + 1);
    s
  }

  class GraphStore {
    var nodes: seq<Node>
    var connections: seq<Connection>
    var selectedNode: Option<Node>
    var zoom: real
    var pan: Point

    /** What the handlers keep when their callers do their part: node ids
        unique and non-empty, and both ends of every connection naming a node. */
    ghost predicate Valid()
      reads this
    {
      UniqueIds(nodes) && NonEmptyIds(nodes) && Integrity(nodes, connections)
    }

    constructor ()
      ensures nodes == [] && connections == [] && selectedNode == None
      ensures zoom == 1.0 && pan == Point(0.0, 0.0)
      ensures Valid()
    {
      nodes := [];
      connections := [];
      selectedNode := None;
      zoom := 1.0;
      pan := Point(0.0, 0.0);
    }

    /** Adds a node of catalog type `typeKey` at the model point under the
        canvas centre; without a canvas nothing happens. */
    method AddNode(typeKey: string, entry: CatalogEntry, freshId: string, canvas: Option<Canvas>)
      requires canvas.Some? ==> zoom != 0.0
      modifies this
      ensures connections == old(connections) && selectedNode == old(selectedNode)
      ensures zoom == old(zoom) && pan == old(pan)
      ensures canvas.None? ==> nodes == old(nodes)
      ensures canvas.Some? ==> |nodes| == |old(nodes)| + 1 && nodes[..|old(nodes)|] == old(nodes)
      ensures canvas.Some? ==>
        var n := nodes[|nodes| - 1];
        n.id == freshId && n.resourceType == typeKey &&
        n.name == NumberedName(entry, |old(nodes)|) &&
        n.config == NodeConfig(typeKey, entry.category, map[]) &&
        TransformCoordinates(n.position.x, n.position.y, Some(TransformState(Some(zoom), Some(pan))))
          == Some(Point(canvas.value.width / 2.0, canvas.value.height / 2.0))
      ensures old(Valid()) && freshId != "" && freshId !in old(NodeIds(nodes)) ==> Valid()
    {
      if canvas.None? {
        return;
      }
      var center := ViewportCenter(canvas.value, zoom, pan);
      var n := Node(freshId, typeKey, NumberedName(entry, |nodes|), center, NodeConfig(typeKey, entry.category, map[]));
      ghost var before := nodes;
      nodes := nodes + [n];
      assert nodes[..|before|] == before;
      if freshId !in NodeIds(before) {
        AppendKeepsGraph(before, connections, n);
      }
    }

    /** Merges `updates` into every node whose id is `nodeId`; the selection
        keeps the copy it held. */
    method UpdateNode(nodeId: string, updates: NodeUpdate)
      modifies this
      ensures |nodes| == |old(nodes)|
      ensures forall i :: 0 <= i < |nodes| && old(nodes)[i].id != nodeId ==> nodes[i] == old(nodes)[i]
      ensures forall i :: 0 <= i < |nodes| && old(nodes)[i].id == nodeId ==> nodes[i] == Merge(old(nodes)[i], updates)
      ensures connections == old(connections) && selectedNode == old(selectedNode)
      ensures zoom == old(zoom) && pan == old(pan)
      ensures old(Valid()) && updates.id.None? ==> Valid()
    {
      if updates.id.None? {
        UpdateKeepsIdSet(nodes, nodeId, updates);
        UpdateKeepsIds(nodes, nodeId, updates);
      }
      nodes := UpdateWhere(nodes, nodeId, updates);
    }

    /** Connects child `fromId` to parent `toId` when both are nodes, with the
        points at the child's child anchor and the parent's parent anchor. No
        cycle or self-loop check is made here. */
    method CreateConnection(fromId: string, toId: string, freshConnId: string)
      modifies this
      ensures nodes == old(nodes) && selectedNode == old(selectedNode)
      ensures zoom == old(zoom) && pan == old(pan)
      ensures fromId !in NodeIds(nodes) || toId !in NodeIds(nodes) ==> connections == old(connections)
      ensures fromId in NodeIds(nodes) && toId in NodeIds(nodes) ==>
        connections == old(connections) + [Connection(freshConnId, fromId, toId,
          ConnectionPoint(Find(nodes, fromId), Child), ConnectionPoint(Find(nodes, toId), Parent), ParentChild)]
      ensures old(Valid()) ==> Valid()
      ensures old(Valid() && Acyclic(connections)) && !WouldCreateCycle(fromId, toId, old(connections), {}) ==>
        Acyclic(connections)
      ensures fromId == toId && fromId in NodeIds(nodes) ==> !Acyclic(connections)
    {
      var fromNode := Find(nodes, fromId);
      var toNode := Find(nodes, toId);
      if fromNode.None? || toNode.None? {
        return;
      }
      var c := Connection(freshConnId, fromId, toId, ConnectionPoint(fromNode, Child), ConnectionPoint(toNode, Parent), ParentChild);
      ghost var before := connections;
      connections := connections + [c];
      if old(Valid()) && Acyclic(before) && !WouldCreateCycle(fromId, toId, before, {}) {
        IntegrityNamesEnds(nodes, before);
        AddKeepsAcyclic(before, c);
      }
      if fromId == toId {
        assert c in connections;
        SelfLoopIsCycle(connections, c);
      }
    }

    /** Replaces the whole connection list (the canvas hands back an edited one). */
    method ReplaceConnections(newConnections: seq<Connection>)
      modifies this
      ensures connections == newConnections
      ensures nodes == old(nodes) && selectedNode == old(selectedNode)
      ensures zoom == old(zoom) && pan == old(pan)
    {
      connections := newConnections;
    }

    /** Deletes node `nodeId` and every connection touching it; the selection
        is cleared exactly when it holds that node. */
    method DeleteNode(nodeId: string)
      modifies this
      ensures nodes == RemoveNode(old(nodes), nodeId)
      ensures connections == RemoveTouching(old(connections), nodeId)
      ensures forall c :: c in connections ==> c.fromNode != nodeId && c.toNode != nodeId
      ensures NodeIds(nodes) == old(NodeIds(nodes)) - {nodeId}
      ensures old(selectedNode.Some? && selectedNode.value.id == nodeId) ==> selectedNode == None
      ensures !old(selectedNode.Some? && selectedNode.value.id == nodeId) ==> selectedNode == old(selectedNode)
      ensures zoom == old(zoom) && pan == old(pan)
      ensures old(Valid()) ==> Valid()
      ensures old(Acyclic(connections)) ==> Acyclic(connections)
    {
      DeleteKeepsGraph(nodes, connections, nodeId);
      RemoveNodeIds(nodes, nodeId);
      if UniqueIds(nodes) {
        RemoveKeepsUnique(nodes, nodeId);
      }
      nodes := RemoveNode(nodes, nodeId);
      connections := RemoveTouching(connections, nodeId);
      if selectedNode.Some? && selectedNode.value.id == nodeId {
        selectedNode := None;
      }
    }

    method SelectNode(node: Option<Node>)
      modifies this
      ensures selectedNode == node
      ensures nodes == old(nodes) && connections == old(connections)
      ensures zoom == old(zoom) && pan == old(pan)
    {
      selectedNode := node;
    }

    /** `setZoom`, handed to the canvas as its zoom callback. */
    method SetZoom(newZoom: real)
      modifies this
      ensures zoom == newZoom && pan == old(pan)
      ensures nodes == old(nodes) && connections == old(connections) && selectedNode == old(selectedNode)
    {
      zoom := newZoom;
    }

    /** `setPan`, handed to the canvas as its pan callback. */
    method SetPan(newPan: Point)
      modifies this
      ensures pan == newPan && zoom == old(zoom)
      ensures nodes == old(nodes) && connections == old(connections) && selectedNode == old(selectedNode)
    {
      pan := newPan;
    }
  }

}

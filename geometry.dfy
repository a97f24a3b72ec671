/** Coordinate conversion between screen and model space, and node anchors
    (src/app/canvasUtils.ts). */
module Geometry {
  import opened Shapes

  const NODE_WIDTH: real := 160.0
  const NODE_HEIGHT: real := 80.0

  /** The pan/zoom state a transform is given; either part may be absent. */
  datatype TransformState = TransformState(zoom: Option<real>, pan: Option<Point>)

  /** The transform is usable: it is present and has both a zoom and a pan. */
  predicate Usable(t: Option<TransformState>) {
    t.Some? && t.value.zoom.Some? && t.value.pan.Some?
  }

  /** Division is only performed when the zoom is present and non-zero. */
  predicate DivisionDefined(t: Option<TransformState>) {
    Usable(t) ==> t.value.zoom.value != 0.0
  }

  /** Model point to screen point: scale by the zoom, then translate by the pan. */
  function TransformCoordinates(x: real, y: real, t: Option<TransformState>): (r: Option<Point>)
    ensures r.None? <==> !Usable(t)
    ensures r.Some? ==>
      var z, p := t.value.zoom.value, t.value.pan.value;
      r.value.x - p.x == x * z && r.value.y - p.y == y * z
  {
    if !Usable(t) then None
    else
      var z, p := t.value.zoom.value, t.value.pan.value;
      Some(Point(x * z + p.x, y * z + p.y))
  }

  /** Screen point to model point: remove the pan, then divide by the zoom. */
  function InverseTransformCoordinates(x: real, y: real, t: Option<TransformState>): (r: Option<Point>)
    requires DivisionDefined(t)
    ensures r.None? <==> !Usable(t)
    ensures r.Some? ==>
      var z, p := t.value.zoom.value, t.value.pan.value;
      r.value.x * z + p.x == x && r.value.y * z + p.y == y
  {
    if !Usable(t) then None
    else
      var z, p := t.value.zoom.value, t.value.pan.value;
      Some(Point((x - p.x) / z, (y - p.y) / z))
  }

  /** The inverse undoes the transform. */
  lemma InverseAfterTransform(x: real, y: real, t: Option<TransformState>)
    requires Usable(t) && t.value.zoom.value != 0.0
    ensures var s := TransformCoordinates(x, y, t).value;
            InverseTransformCoordinates(s.x, s.y, t) == Some(Point(x, y))
  {
    var z, p := t.value.zoom.value, t.value.pan.value;
    var s := TransformCoordinates(x, y, t).value;
    assert (s.x - p.x) / z == x by { assert s.x - p.x == x * z; }
    assert (s.y - p.y) / z == y by { assert s.y - p.y == y * z; }
  }

  /** The transform undoes the inverse. */
  lemma TransformAfterInverse(x: real, y: real, t: Option<TransformState>)
    requires Usable(t) && t.value.zoom.value != 0.0
    ensures var m := InverseTransformCoordinates(x, y, t).value;
            TransformCoordinates(m.x, m.y, t) == Some(Point(x, y))
  {
  }

  /** Anchor of a node's bar: top-centre for the parent bar, bottom-centre for
      the child bar; a missing node yields the origin instead of failing. */
  function ConnectionPoint(node: Option<Node>, role: Role): (r: Point)
    ensures node.None? ==> r == Point(0.0, 0.0)
    ensures node.Some? ==> r.x - node.value.position.x == NODE_WIDTH / 2.0
    ensures node.Some? && role == Parent ==> r.y == node.value.position.y
    ensures node.Some? && role == Child ==> r.y - node.value.position.y == NODE_HEIGHT
  {
    match node
    case None => Point(0.0, 0.0)
    case Some(n) => Point(n.position.x + NODE_WIDTH / 2.0, n.position.y + (if role == Parent then 0.0 else NODE_HEIGHT))
  }

  /** The anchor of a placed node at position `pos` (the unguarded form the
      earlier single-file version uses; it has no missing-node case). */
  function Anchor(pos: Point, role: Role): (r: Point)
    ensures r == ConnectionPoint(Some(Node("", "", "", pos, NodeConfig("", "", map[]))), role)
  {
    Point(pos.x + NODE_WIDTH / 2.0, pos.y + (if role == Parent then 0.0 else NODE_HEIGHT))
  }
}

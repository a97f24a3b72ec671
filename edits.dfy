/** The list edits both versions of the designer perform on `nodes` and
    `connections`: merging an update into the node with a given id, removing a
    node, removing the connections that touch it, and re-anchoring the
    connections of a moved node (src/app/page.tsx, src/app/page.jsx). */
module Edits {
  import opened Shapes
  import opened Geometry
  import opened CycleCheck

  /** `Partial<Node>`: each present field overrides the node's own. */
  datatype NodeUpdate = NodeUpdate(
    id: Option<string>,
    resourceType: Option<string>,
    name: Option<string>,
    position: Option<Point>,
    config: Option<NodeConfig>)

  /** An update that only moves the node. */
  function Moved(pos: Point): NodeUpdate {
    NodeUpdate(None, None, None, Some(pos), None)
  }

  /** An update that only renames the node. */
  function Renamed(name: string): NodeUpdate {
    NodeUpdate(None, None, Some(name), None, None)
  }

  function Pick<T>(o: Option<T>, otherwise: T): T {
    if o.Some? then o.value else otherwise
  }

  /** `{ ...node, ...updates }`. */
  function Merge(n: Node, u: NodeUpdate): (r: Node)
    ensures u.id.None? ==> r.id == n.id
  {
    Node(Pick(u.id, n.id), Pick(u.resourceType, n.resourceType), Pick(u.name, n.name),
         Pick(u.position, n.position), Pick(u.config, n.config))
  }

  /** Merging is idempotent, and the empty update changes nothing. */
  lemma MergeIdempotent(n: Node, u: NodeUpdate)
    ensures Merge(Merge(n, u), u) == Merge(n, u)
    ensures Merge(n, NodeUpdate(None, None, None, None, None)) == n
  {
  }

  /** A move keeps everything but the position; a rename everything but the name. */
  lemma MovedAndRenamed(n: Node, pos: Point, name: string)
    ensures Merge(n, Moved(pos)) == n.(position := pos)
    ensures Merge(n, Renamed(name)) == n.(name := name)
  {
  }

  /** `nodes.map(node => node.id === id ? { ...node, ...u } : node)`. */
  function UpdateWhere(nodes: seq<Node>, id: string, u: NodeUpdate): (r: seq<Node>)
    ensures |r| == |nodes|
    ensures forall i :: 0 <= i < |nodes| && nodes[i].id != id ==> r[i] == nodes[i]
    ensures forall i :: 0 <= i < |nodes| && nodes[i].id == id ==> r[i] == Merge(nodes[i], u)
  {
    if |nodes| == 0 then []
    else [if nodes[0].id == id then Merge(nodes[0], u) else nodes[0]] + UpdateWhere(nodes[1..], id, u)
  }

  /** An update that leaves ids alone keeps the set of ids. */
  lemma {:induction false} UpdateKeepsIdSet(nodes: seq<Node>, id: string, u: NodeUpdate)
    requires u.id.None?
    ensures NodeIds(UpdateWhere(nodes, id, u)) == NodeIds(nodes)
  {
    var r := UpdateWhere(nodes, id, u);
    if |nodes| > 0 {
      UpdateKeepsIdSet(nodes[1..], id, u);
      assert r[1..] == UpdateWhere(nodes[1..], id, u);
      IdsCons(nodes);
      IdsCons(r);
    }
  }

  /** After an update that leaves ids alone, `Find` sees the updated copy of
      the very node it found before. */
  lemma {:induction false} FindAfterUpdate(nodes: seq<Node>, id: string, u: NodeUpdate, x: string)
    requires u.id.None?
    ensures Find(UpdateWhere(nodes, id, u), x) ==
      (match Find(nodes, x)
       case None => None
       case Some(n) => Some(if n.id == id then Merge(n, u) else n))
  {
    var r := UpdateWhere(nodes, id, u);
    if |nodes| > 0 && nodes[0].id != x {
      FindAfterUpdate(nodes[1..], id, u, x);
      assert r[1..] == UpdateWhere(nodes[1..], id, u);
    }
  }

  /** An update that leaves ids alone keeps them unique and non-empty. */
  lemma UpdateKeepsIds(nodes: seq<Node>, id: string, u: NodeUpdate)
    requires u.id.None?
    ensures UniqueIds(nodes) ==> UniqueIds(UpdateWhere(nodes, id, u))
    ensures NonEmptyIds(nodes) ==> NonEmptyIds(UpdateWhere(nodes, id, u))
  {
    var r := UpdateWhere(nodes, id, u);
    assert forall i :: 0 <= i < |r| ==> r[i].id == nodes[i].id;
    if UniqueIds(nodes) {
      forall i, j | 0 <= i < j < |r| ensures r[i].id != r[j].id {
        assert r[i].id == nodes[i].id && r[j].id == nodes[j].id;
      }
    }
    if NonEmptyIds(nodes) {
      forall n | n in r ensures n.id != "" {
        var i :| 0 <= i < |r| && r[i] == n;
        assert nodes[i] in nodes;
      }
    }
  }

  /** Appending a node with a new id keeps ids unique, connection ends
      attached, and every cached point fresh. */
  lemma AppendKeepsGraph(nodes: seq<Node>, cs: seq<Connection>, n: Node)
    requires n.id !in NodeIds(nodes)
    ensures NodeIds(nodes + [n]) == NodeIds(nodes) + {n.id}
    ensures UniqueIds(nodes) ==> UniqueIds(nodes + [n])
    ensures Integrity(nodes, cs) ==> Integrity(nodes + [n], cs)
    ensures Integrity(nodes, cs) && FreshPoints(nodes, cs) ==> FreshPoints(nodes + [n], cs)
  {
    var after := nodes + [n];
    assert forall m :: m in after <==> m in nodes || m == n;
    if UniqueIds(nodes) {
      forall i, j | 0 <= i < j < |after| ensures after[i].id != after[j].id {
        if j == |nodes| {
          assert after[i] in nodes;
        } else {
          assert after[i] == nodes[i] && after[j] == nodes[j];
        }
      }
    }
    if Integrity(nodes, cs) && FreshPoints(nodes, cs) {
      forall c | c in cs
        ensures c.fromPoint == ConnectionPoint(Find(after, c.fromNode), Child)
        ensures c.toPoint == ConnectionPoint(Find(after, c.toNode), Parent)
      {
        FindAppend(nodes, n, c.fromNode);
        FindAppend(nodes, n, c.toNode);
      }
    }
  }

  /** An update that touches neither ids nor positions leaves every anchor
      where it was. */
  lemma UpdatedEnd(nodes: seq<Node>, id: string, u: NodeUpdate, x: string, role: Role)
    requires u.id.None? && u.position.None?
    ensures ConnectionPoint(Find(UpdateWhere(nodes, id, u), x), role) == ConnectionPoint(Find(nodes, x), role)
  {
    FindAfterUpdate(nodes, id, u, x);
  }

  /** An update that touches neither ids nor positions keeps every cached
      point fresh. */
  lemma UpdateKeepsPointsFresh(nodes: seq<Node>, cs: seq<Connection>, id: string, u: NodeUpdate)
    requires u.id.None? && u.position.None?
    requires Integrity(nodes, cs) && FreshPoints(nodes, cs)
    ensures Integrity(UpdateWhere(nodes, id, u), cs)
    ensures FreshPoints(UpdateWhere(nodes, id, u), cs)
  {
    UpdateKeepsIdSet(nodes, id, u);
    forall c | c in cs
      ensures c.fromPoint == ConnectionPoint(Find(UpdateWhere(nodes, id, u), c.fromNode), Child)
      ensures c.toPoint == ConnectionPoint(Find(UpdateWhere(nodes, id, u), c.toNode), Parent)
    {
      UpdatedEnd(nodes, id, u, c.fromNode, Child);
      UpdatedEnd(nodes, id, u, c.toNode, Parent);
    }
  }

  /** `nodes.filter(node => node.id !== id)`. */
  function RemoveNode(nodes: seq<Node>, id: string): (r: seq<Node>)
    ensures forall n :: n in r <==> n in nodes && n.id != id
    ensures Subsequence(r, nodes)
  {
    if |nodes| == 0 then []
    else if nodes[0].id == id then RemoveNode(nodes[1..], id)
    else
      var rest := RemoveNode(nodes[1..], id);
      assert forall n :: n in nodes <==> n == nodes[0] || n in nodes[1..] by {
        assert nodes == [nodes[0]] + nodes[1..];
      }
      [nodes[0]] + rest
  }

  /** The filter keeps every copy of a node record whose id differs, and no
      copy of the others: with `Subsequence`, this fixes the result. */
  lemma {:induction false} RemoveNodeCounts(nodes: seq<Node>, id: string)
    ensures forall n :: multiset(RemoveNode(nodes, id))[n] == if n.id != id then multiset(nodes)[n] else 0
  {
    if |nodes| > 0 {
      RemoveNodeCounts(nodes[1..], id);
      assert nodes == [nodes[0]] + nodes[1..];
      if nodes[0].id != id {
        assert RemoveNode(nodes, id) == [nodes[0]] + RemoveNode(nodes[1..], id);
      }
    }
  }

  /** Removing a node removes exactly its id. */
  lemma {:induction false} RemoveNodeIds(nodes: seq<Node>, id: string)
    ensures NodeIds(RemoveNode(nodes, id)) == NodeIds(nodes) - {id}
  {
    var r := RemoveNode(nodes, id);
    if |nodes| > 0 {
      RemoveNodeIds(nodes[1..], id);
      IdsCons(nodes);
      if nodes[0].id != id {
        IdsCons(r);
        assert r[1..] == RemoveNode(nodes[1..], id);
      }
    }
  }

  /** Removing a node keeps the remaining ids unique. */
  lemma {:induction false} RemoveKeepsUnique(nodes: seq<Node>, id: string)
    requires UniqueIds(nodes)
    ensures UniqueIds(RemoveNode(nodes, id))
  {
    var r := RemoveNode(nodes, id);
    if |nodes| > 0 {
      UniqueCons(nodes);
      RemoveKeepsUnique(nodes[1..], id);
      if nodes[0].id != id {
        RemoveNodeIds(nodes[1..], id);
        assert r[1..] == RemoveNode(nodes[1..], id);
        UniqueCons(r);
      }
    }
  }

  /** Removing a node does not disturb the lookup of any other id. */
  lemma {:induction false} FindAfterRemove(nodes: seq<Node>, id: string, x: string)
    requires x != id
    ensures Find(RemoveNode(nodes, id), x) == Find(nodes, x)
  {
    if |nodes| > 0 {
      FindAfterRemove(nodes[1..], id, x);
    }
  }

  /** The cascade keeps every copy of a connection touching neither end, and
      no copy of the others. */
  lemma {:induction false} RemoveTouchingCounts(cs: seq<Connection>, id: string)
    ensures forall c :: multiset(RemoveTouching(cs, id))[c]
                        == if c.fromNode != id && c.toNode != id then multiset(cs)[c] else 0
  {
    if |cs| > 0 {
      RemoveTouchingCounts(cs[1..], id);
      assert cs == [cs[0]] + cs[1..];
      if cs[0].fromNode != id && cs[0].toNode != id {
        assert RemoveTouching(cs, id) == [cs[0]] + RemoveTouching(cs[1..], id);
      }
    }
  }

  /** `connections.filter(conn => conn.fromNode !== id && conn.toNode !== id)`. */
  function RemoveTouching(cs: seq<Connection>, id: string): (r: seq<Connection>)
    ensures forall c :: c in r <==> c in cs && c.fromNode != id && c.toNode != id
    ensures Subsequence(r, cs)
  {
    if |cs| == 0 then []
    else if cs[0].fromNode == id || cs[0].toNode == id then RemoveTouching(cs[1..], id)
    else
      var rest := RemoveTouching(cs[1..], id);
      assert forall c :: c in cs <==> c == cs[0] || c in cs[1..] by {
        assert cs == [cs[0]] + cs[1..];
      }
      [cs[0]] + rest
  }

  /** The cascade of a deletion keeps every remaining cached point fresh. */
  lemma DeleteKeepsPointsFresh(nodes: seq<Node>, cs: seq<Connection>, id: string)
    requires FreshPoints(nodes, cs)
    ensures FreshPoints(RemoveNode(nodes, id), RemoveTouching(cs, id))
  {
    forall c | c in RemoveTouching(cs, id)
      ensures c.fromPoint == ConnectionPoint(Find(RemoveNode(nodes, id), c.fromNode), Child)
      ensures c.toPoint == ConnectionPoint(Find(RemoveNode(nodes, id), c.toNode), Parent)
    {
      FindAfterRemove(nodes, id, c.fromNode);
      FindAfterRemove(nodes, id, c.toNode);
    }
  }

  /** The cascade of a deletion keeps referential integrity and acyclicity,
      and leaves no connection that names the deleted id. */
  lemma DeleteKeepsGraph(nodes: seq<Node>, cs: seq<Connection>, id: string)
    ensures forall c :: c in RemoveTouching(cs, id) ==> c.fromNode != id && c.toNode != id
    ensures Integrity(nodes, cs) ==> Integrity(RemoveNode(nodes, id), RemoveTouching(cs, id))
    ensures Acyclic(cs) ==> Acyclic(RemoveTouching(cs, id))
  {
    RemoveNodeIds(nodes, id);
    if Acyclic(cs) {
      SubsetKeepsAcyclic(cs, RemoveTouching(cs, id));
    }
  }

  /** With every node id non-empty, integrity leaves no connection end empty. */
  lemma IntegrityNamesEnds(nodes: seq<Node>, cs: seq<Connection>)
    requires NonEmptyIds(nodes) && Integrity(nodes, cs)
    ensures NamedEnds(cs)
  {
    forall c | c in cs ensures c.fromNode != "" && c.toNode != "" {
      var a :| a in nodes && a.id == c.fromNode;
      var b :| b in nodes && b.id == c.toNode;
    }
  }

  /** A node whose only parent was the deleted node becomes a root: no
      remaining connection has it as its child end. */
  lemma OrphanBecomesRoot(cs: seq<Connection>, id: string, y: string)
    requires forall c :: c in cs && c.fromNode == y ==> c.toNode == id
    ensures y !in FromIds(RemoveTouching(cs, id))
  {
  }

  /** Two connections with the same id, ends and kind; only their cached points may differ. */
  predicate SameEnds(c: Connection, d: Connection) {
    c.id == d.id && c.fromNode == d.fromNode && c.toNode == d.toNode && c.kind == d.kind
  }

  /** `after` is `before` with node `id` moved to `pos` and every other node as it was. */
  predicate MovedOnly(before: seq<Node>, after: seq<Node>, id: string, pos: Point) {
    |after| == |before| &&
    forall i :: 0 <= i < |before| ==> after[i] == if before[i].id == id then before[i].(position := pos) else before[i]
  }

  /** `after` is `before` with only the cached points of connections touching `id` rewritten. */
  predicate ReanchoredOnly(before: seq<Connection>, after: seq<Connection>, id: string) {
    |after| == |before| &&
    (forall i :: 0 <= i < |before| ==> SameEnds(after[i], before[i])) &&
    forall i :: 0 <= i < |before| && before[i].fromNode != id && before[i].toNode != id ==> after[i] == before[i]
  }

  /** The anchors of `c` once node `id` sits at `pos`: an end naming `id` takes
      the new position, the other end the position `nodes` records for it. */
  function Reanchor(c: Connection, nodes: seq<Node>, id: string, pos: Point): (r: Connection)
    requires c.fromNode in NodeIds(nodes) && c.toNode in NodeIds(nodes)
    ensures r.id == c.id && r.fromNode == c.fromNode && r.toNode == c.toNode && r.kind == c.kind
    ensures r.fromPoint == Anchor(if c.fromNode == id then pos else Find(nodes, c.fromNode).value.position, Child)
    ensures r.toPoint == Anchor(if c.toNode == id then pos else Find(nodes, c.toNode).value.position, Parent)
  {
    var from := if c.fromNode == id then pos else Find(nodes, c.fromNode).value.position;
    var to := if c.toNode == id then pos else Find(nodes, c.toNode).value.position;
    c.(fromPoint := Anchor(from, Child), toPoint := Anchor(to, Parent))
  }

  /** The connection list after node `id` moved to `pos`: connections touching
      `id` are re-anchored, the others are kept as they are. */
  function ReanchorAll(cs: seq<Connection>, nodes: seq<Node>, id: string, pos: Point): (r: seq<Connection>)
    requires Integrity(nodes, cs)
    ensures |r| == |cs|
    ensures forall i :: 0 <= i < |cs| ==> SameEnds(r[i], cs[i])
    ensures forall i :: 0 <= i < |cs| && cs[i].fromNode != id && cs[i].toNode != id ==> r[i] == cs[i]
    ensures forall i :: 0 <= i < |cs| && (cs[i].fromNode == id || cs[i].toNode == id) ==>
      r[i] == Reanchor(cs[i], nodes, id, pos)
  {
    if |cs| == 0 then []
    else
      assert cs[0] in cs;
      var rest := ReanchorAll(cs[1..], nodes, id, pos);
      ReanchorCons(cs, nodes, id, pos, rest);
      [ReanchorOne(cs[0], nodes, id, pos)] + rest
  }

  /** One connection after node `id` moved: re-anchored when it touches `id`. */
  function ReanchorOne(c: Connection, nodes: seq<Node>, id: string, pos: Point): (r: Connection)
    requires c.fromNode in NodeIds(nodes) && c.toNode in NodeIds(nodes)
    ensures SameEnds(r, c)
    ensures c.fromNode != id && c.toNode != id ==> r == c
    ensures c.fromNode == id || c.toNode == id ==> r == Reanchor(c, nodes, id, pos)
  {
    if c.fromNode == id || c.toNode == id then Reanchor(c, nodes, id, pos) else c
  }

  lemma ReanchorCons(cs: seq<Connection>, nodes: seq<Node>, id: string, pos: Point, rest: seq<Connection>)
    requires |cs| > 0 && Integrity(nodes, cs) && |rest| == |cs| - 1
    requires forall i :: 0 <= i < |rest| ==> SameEnds(rest[i], cs[1..][i])
    requires forall i :: 0 <= i < |rest| && cs[1..][i].fromNode != id && cs[1..][i].toNode != id ==> rest[i] == cs[1..][i]
    requires forall i :: 0 <= i < |rest| && (cs[1..][i].fromNode == id || cs[1..][i].toNode == id) ==>
      rest[i] == Reanchor(cs[1..][i], nodes, id, pos)
    ensures var r := [ReanchorOne(cs[0], nodes, id, pos)] + rest;
      && (forall i :: 0 <= i < |cs| ==> SameEnds(r[i], cs[i]))
      && (forall i :: 0 <= i < |cs| && cs[i].fromNode != id && cs[i].toNode != id ==> r[i] == cs[i])
      && (forall i :: 0 <= i < |cs| && (cs[i].fromNode == id || cs[i].toNode == id) ==>
            r[i] == Reanchor(cs[i], nodes, id, pos))
  {
    assert cs[0] in cs;
    var r := [ReanchorOne(cs[0], nodes, id, pos)] + rest;
    forall i | 0 < i < |cs| ensures r[i] == rest[i - 1] && cs[i] == cs[1..][i - 1] && cs[i] in cs { }
  }

  /** Every connection's cached points equal the anchors of the nodes it joins. */
  predicate FreshPoints(nodes: seq<Node>, cs: seq<Connection>) {
    forall c :: c in cs ==>
      c.fromPoint == ConnectionPoint(Find(nodes, c.fromNode), Child) &&
      c.toPoint == ConnectionPoint(Find(nodes, c.toNode), Parent)
  }

  /** Lookups after a move see the moved node at its new position. */
  lemma FindAfterMove(nodes: seq<Node>, id: string, pos: Point, x: string)
    ensures Find(UpdateWhere(nodes, id, Moved(pos)), x) ==
      (match Find(nodes, x)
       case None => None
       case Some(n) => Some(if n.id == id then n.(position := pos) else n))
  {
    FindAfterUpdate(nodes, id, Moved(pos), x);
    if Find(nodes, x).Some? {
      MovedAndRenamed(Find(nodes, x).value, pos, "");
    }
  }

  /** Re-anchoring changes no connection's ends. */
  lemma ReanchorKeepsEnds(cs: seq<Connection>, nodes: seq<Node>, id: string, pos: Point)
    requires Integrity(nodes, cs)
    ensures FromIds(ReanchorAll(cs, nodes, id, pos)) == FromIds(cs)
    ensures ToIds(ReanchorAll(cs, nodes, id, pos)) == ToIds(cs)
    ensures Acyclic(cs) ==> Acyclic(ReanchorAll(cs, nodes, id, pos))
  {
    var cs' := ReanchorAll(cs, nodes, id, pos);
    assert forall i :: 0 <= i < |cs| ==> cs'[i].fromNode == cs[i].fromNode && cs'[i].toNode == cs[i].toNode;
    forall x | x in FromIds(cs) ensures x in FromIds(cs') {
      var c :| c in cs && c.fromNode == x;
      var i :| 0 <= i < |cs| && cs[i] == c;
      assert cs'[i] in cs';
    }
    forall x | x in ToIds(cs) ensures x in ToIds(cs') {
      var c :| c in cs && c.toNode == x;
      var i :| 0 <= i < |cs| && cs[i] == c;
      assert cs'[i] in cs';
    }
    forall x | x in FromIds(cs') ensures x in FromIds(cs) {
      var c :| c in cs' && c.fromNode == x;
      var i :| 0 <= i < |cs'| && cs'[i] == c;
      assert cs[i] in cs;
    }
    forall x | x in ToIds(cs') ensures x in ToIds(cs) {
      var c :| c in cs' && c.toNode == x;
      var i :| 0 <= i < |cs'| && cs'[i] == c;
      assert cs[i] in cs;
    }
    if Acyclic(cs) {
      SameEndsKeepAcyclic(cs, cs');
    }
  }

  /** The anchor a re-anchored end gets is the anchor of that end's node in
      the list after the move. */
  lemma MovedEnd(nodes: seq<Node>, id: string, pos: Point, x: string, role: Role)
    requires x in NodeIds(nodes)
    ensures Anchor(if x == id then pos else Find(nodes, x).value.position, role)
         == ConnectionPoint(Find(UpdateWhere(nodes, id, Moved(pos)), x), role)
  {
    FindAfterMove(nodes, id, pos, x);
  }

  /** An end that is not the moved node keeps its anchor. */
  lemma UnmovedEnd(nodes: seq<Node>, id: string, pos: Point, x: string, role: Role)
    requires x != id
    ensures ConnectionPoint(Find(nodes, x), role) == ConnectionPoint(Find(UpdateWhere(nodes, id, Moved(pos)), x), role)
  {
    FindAfterMove(nodes, id, pos, x);
  }

  /** One connection of the list after a move: its ends still name nodes and
      its points are the anchors of those nodes where they now stand. */
  lemma MovedConnectionFresh(nodes: seq<Node>, cs: seq<Connection>, id: string, pos: Point, i: nat)
    requires Integrity(nodes, cs) && FreshPoints(nodes, cs) && i < |cs|
    ensures var c', nodes' := ReanchorAll(cs, nodes, id, pos)[i], UpdateWhere(nodes, id, Moved(pos));
      c'.fromPoint == ConnectionPoint(Find(nodes', c'.fromNode), Child) &&
      c'.toPoint == ConnectionPoint(Find(nodes', c'.toNode), Parent)
  {
    var c := cs[i];
    assert c in cs;
    if c.fromNode == id || c.toNode == id {
      MovedEnd(nodes, id, pos, c.fromNode, Child);
      MovedEnd(nodes, id, pos, c.toNode, Parent);
    } else {
      UnmovedEnd(nodes, id, pos, c.fromNode, Child);
      UnmovedEnd(nodes, id, pos, c.toNode, Parent);
    }
  }

  /** Moving a node and re-anchoring its connections keeps every cached point
      fresh and every connection end naming an existing node. */
  lemma MoveKeepsPointsFresh(nodes: seq<Node>, cs: seq<Connection>, id: string, pos: Point)
    requires Integrity(nodes, cs) && FreshPoints(nodes, cs)
    ensures Integrity(UpdateWhere(nodes, id, Moved(pos)), ReanchorAll(cs, nodes, id, pos))
    ensures FreshPoints(UpdateWhere(nodes, id, Moved(pos)), ReanchorAll(cs, nodes, id, pos))
  {
    var cs' := ReanchorAll(cs, nodes, id, pos);
    UpdateKeepsIdSet(nodes, id, Moved(pos));
    forall c' | c' in cs'
      ensures c'.fromNode in NodeIds(UpdateWhere(nodes, id, Moved(pos)))
      ensures c'.toNode in NodeIds(UpdateWhere(nodes, id, Moved(pos)))
      ensures c'.fromPoint == ConnectionPoint(Find(UpdateWhere(nodes, id, Moved(pos)), c'.fromNode), Child)
      ensures c'.toPoint == ConnectionPoint(Find(UpdateWhere(nodes, id, Moved(pos)), c'.toNode), Parent)
    {
      var i :| 0 <= i < |cs'| && cs'[i] == c';
      assert cs[i] in cs;
      MovedConnectionFresh(nodes, cs, id, pos, i);
    }
  }
}

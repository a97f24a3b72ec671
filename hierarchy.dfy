/** The export forest (src/app/canvasUtils.ts:63-96 and the unchecked copy in
    src/app/page.jsx:365-393): roots are the nodes that are nobody's child,
    and below a node hang the subtrees of the children connected to it. */
module Hierarchy {
  import opened Shapes
  import opened CycleCheck

  /** One emitted entry. */
  datatype Resource = Resource(
    id: string,
    resourceType: string,
    name: string,
    config: NodeConfig,
    children: Children)

  /** The `children` key: left out of the entry (undefined) or present with a list. */
  datatype Children = Omitted | Present(items: seq<Resource>)

  datatype Document = Document(version: string, resources: seq<Resource>)

  const Version: string := "1.0"

  /** `connections.filter(conn => conn.toNode === id)`. */
  function ChildConnections(cs: seq<Connection>, id: string): (r: seq<Connection>)
    ensures forall c :: c in r <==> c in cs && c.toNode == id
    ensures Subsequence(r, cs)
  {
    if |cs| == 0 then []
    else if cs[0].toNode == id then [cs[0]] + ChildConnections(cs[1..], id)
    else ChildConnections(cs[1..], id)
  }

  /** The filter keeps every copy of a connection into `id`, and no copy of
      the others. */
  lemma {:induction false} ChildConnectionsCounts(cs: seq<Connection>, id: string)
    ensures forall c :: multiset(ChildConnections(cs, id))[c] == if c.toNode == id then multiset(cs)[c] else 0
  {
    if |cs| > 0 {
      ChildConnectionsCounts(cs[1..], id);
      assert cs == [cs[0]] + cs[1..];
      if cs[0].toNode == id {
        assert ChildConnections(cs, id) == [cs[0]] + ChildConnections(cs[1..], id);
      }
    }
  }

  /** What a well-formed subtree looks like, seen from below the ids `seen`:
      no id repeats along a path and none of `seen` occurs on it, every entry
      copies its fields from the node that `Find` gives for its id, and
      `children` is never present and empty. */
  ghost predicate WellBuilt(t: Resource, seen: set<string>, nodes: seq<Node>)
    decreases t
  {
    && t.id !in seen
    && Copied(t, Find(nodes, t.id))
    && match t.children
       case Omitted => true
       case Present(kids) =>
         && |kids| > 0
         && forall k :: 0 <= k < |kids| ==> WellBuilt(kids[k], seen + {t.id}, nodes)
  }

  /** The entry's own fields are those of the node found for its id. */
  ghost predicate Copied(t: Resource, found: Option<Node>) {
    && found.Some?
    && t.resourceType == found.value.resourceType
    && t.name == found.value.name
    && t.config == found.value.config
  }

  lemma ChildrenBudget(cs: seq<Connection>, at: string, visited: set<string>)
    requires at !in visited
    ensures |FromIds(cs) - (visited + {at})| < Unseen(cs, at, visited)
  {
    var small := FromIds(cs) - (visited + {at});
    var big := (FromIds(cs) + {at}) - visited;
    var grown := small + {at};
    assert grown <= big && at !in small;
    assert big == grown + (big - grown);
    assert grown * (big - grown) == {};
  }

  lemma ChildBudget(cs: seq<Connection>, c: Connection, visited: set<string>)
    requires c in cs
    ensures Unseen(cs, c.fromNode, visited) == |FromIds(cs) - visited|
  {
    assert FromIds(cs) + {c.fromNode} == FromIds(cs);
  }

  /** `buildHierarchy(nodeId, visited)`: null for an empty or already visited
      id and for an id no node carries; otherwise the entry with the subtrees
      of its child connections, in connection order, nulls dropped. */
  function BuildHierarchy(nodes: seq<Node>, cs: seq<Connection>, nodeId: string, visited: set<string>): (r: Option<Resource>)
    ensures r.None? <==> nodeId == "" || nodeId in visited || nodeId !in NodeIds(nodes)
    ensures r.Some? ==> r.value.id == nodeId && WellBuilt(r.value, visited, nodes)
    decreases Unseen(cs, nodeId, visited), 0
  {
    if nodeId == "" || nodeId in visited then None
    else
      match Find(nodes, nodeId)
      case None => None
      case Some(node) =>
        ChildrenBudget(cs, nodeId, visited);
        var kids := BuildChildren(nodes, cs, ChildConnections(cs, nodeId), visited + {nodeId});
        Some(Resource(node.id, node.resourceType, node.name, node.config, if |kids| > 0 then Present(kids) else Omitted))
  }

  /** The subtrees for `pending`, in order, without the nulls. */
  function BuildChildren(nodes: seq<Node>, cs: seq<Connection>, pending: seq<Connection>, visited: set<string>): (r: seq<Resource>)
    requires forall c :: c in pending ==> c in cs
    ensures Ids(r) == ChildIds(nodes, pending, visited)
    ensures forall k :: 0 <= k < |r| ==> WellBuilt(r[k], visited, nodes)
    decreases |FromIds(cs) - visited|, |pending|
  {
    if |pending| == 0 then []
    else
      ChildBudget(cs, pending[0], visited);
      var rest := BuildChildren(nodes, cs, pending[1..], visited);
      ChildIdsCons(nodes, pending, visited);
      match BuildHierarchy(nodes, cs, pending[0].fromNode, visited)
      case None => rest
      case Some(t) => IdsCons(t, rest); [t] + rest
  }

  /** The child ends of `pending`, in order, that name an entry below
      `visited`: non-empty, not yet visited and carried by some node. */
  function ChildIds(nodes: seq<Node>, pending: seq<Connection>, visited: set<string>): seq<string> {
    if |pending| == 0 then []
    else
      var x := pending[0].fromNode;
      (if x != "" && x !in visited && x in NodeIds(nodes) then [x] else []) + ChildIds(nodes, pending[1..], visited)
  }

  /** An id is among the child ids exactly when it is the child end of a
      pending connection and names an entry below `visited`. */
  lemma {:induction false} ChildIdsMembers(nodes: seq<Node>, pending: seq<Connection>, visited: set<string>, x: string)
    ensures x in ChildIds(nodes, pending, visited) <==>
              x != "" && x !in visited && x in NodeIds(nodes) && exists c :: c in pending && c.fromNode == x
  {
    if |pending| > 0 {
      ChildIdsMembers(nodes, pending[1..], visited, x);
      assert forall c :: c in pending <==> c == pending[0] || c in pending[1..];
    }
  }

  lemma ChildIdsCons(nodes: seq<Node>, pending: seq<Connection>, visited: set<string>)
    requires |pending| > 0
    ensures var x := pending[0].fromNode;
            ChildIds(nodes, pending, visited)
              == (if x != "" && x !in visited && x in NodeIds(nodes) then [x] else []) + ChildIds(nodes, pending[1..], visited)
  {
  }

  lemma IdsCons(t: Resource, rest: seq<Resource>)
    ensures Ids([t] + rest) == [t.id] + Ids(rest)
  {
  }

  /** Each child entry is the very subtree `buildHierarchy` builds for its id
      below the visited ids. */
  lemma {:induction false} ChildIsSubtree(nodes: seq<Node>, cs: seq<Connection>, pending: seq<Connection>,
                                          visited: set<string>, k: nat)
    requires forall c :: c in pending ==> c in cs
    requires k < |BuildChildren(nodes, cs, pending, visited)|
    ensures var t := BuildChildren(nodes, cs, pending, visited)[k];
            BuildHierarchy(nodes, cs, t.id, visited) == Some(t)
    decreases |pending|
  {
    var rest := BuildChildren(nodes, cs, pending[1..], visited);
    var h := BuildHierarchy(nodes, cs, pending[0].fromNode, visited);
    if h.None? {
      ChildIsSubtree(nodes, cs, pending[1..], visited, k);
    } else if k == 0 {
      assert h.value.id == pending[0].fromNode;
    } else {
      ChildIsSubtree(nodes, cs, pending[1..], visited, k - 1);
      assert ([h.value] + rest)[k] == rest[k - 1];
    }
  }

  /** A built entry has a `children` key exactly when some child id is left
      after the filter, and then lists the subtrees of exactly those ids, in
      connection order. */
  lemma HierarchyChildren(nodes: seq<Node>, cs: seq<Connection>, nodeId: string, visited: set<string>)
    requires BuildHierarchy(nodes, cs, nodeId, visited).Some?
    ensures var t := BuildHierarchy(nodes, cs, nodeId, visited).value;
            var ids := ChildIds(nodes, ChildConnections(cs, nodeId), visited + {nodeId});
            && (t.children.Omitted? <==> ids == [])
            && (t.children.Present? ==> Ids(t.children.items) == ids)
  {
    var kids := BuildChildren(nodes, cs, ChildConnections(cs, nodeId), visited + {nodeId});
    assert |Ids(kids)| == |kids|;
  }

  /** The children of a node: every connection into it whose child end is
      another existing, named and not yet visited node puts that child's
      entry among the parent's `children`, whatever other parents the child
      has. */
  lemma ChildUnderParent(nodes: seq<Node>, cs: seq<Connection>, c: Connection, visited: set<string>)
    requires c in cs && c.fromNode != c.toNode
    requires c.fromNode != "" && c.toNode != "" && c.fromNode in NodeIds(nodes) && c.toNode in NodeIds(nodes)
    requires c.fromNode !in visited && c.toNode !in visited
    ensures var t := BuildHierarchy(nodes, cs, c.toNode, visited);
            && t.Some? && t.value.children.Present?
            && c.fromNode in Ids(t.value.children.items)
            && exists k :: 0 <= k < |t.value.children.items|
                 && BuildHierarchy(nodes, cs, c.fromNode, visited + {c.toNode}) == Some(t.value.children.items[k])
  {
    var pending := ChildConnections(cs, c.toNode);
    var ids := ChildIds(nodes, pending, visited + {c.toNode});
    assert c in pending;
    ChildIdsMembers(nodes, pending, visited + {c.toNode}, c.fromNode);
    var t := BuildHierarchy(nodes, cs, c.toNode, visited).value;
    var kids := BuildChildren(nodes, cs, pending, visited + {c.toNode});
    ChildInChildren(nodes, cs, pending, visited + {c.toNode}, c, BuildHierarchy(nodes, cs, c.fromNode, visited + {c.toNode}).value);
  }

  /** `nodes.filter(node => !parentNodes.has(node.id))`: the nodes that are no
      connection's child end, in node order. */
  function Roots(nodes: seq<Node>, cs: seq<Connection>): (r: seq<Node>)
    ensures forall n :: n in r <==> n in nodes && n.id !in FromIds(cs)
    ensures Subsequence(r, nodes)
  {
    if |nodes| == 0 then []
    else if nodes[0].id !in FromIds(cs) then [nodes[0]] + Roots(nodes[1..], cs)
    else Roots(nodes[1..], cs)
  }

  /** The root filter keeps every copy of a node record that is no child end,
      and no copy of the others. */
  lemma {:induction false} RootsCounts(nodes: seq<Node>, cs: seq<Connection>)
    ensures forall n :: multiset(Roots(nodes, cs))[n] == if n.id !in FromIds(cs) then multiset(nodes)[n] else 0
  {
    if |nodes| > 0 {
      RootsCounts(nodes[1..], cs);
      assert nodes == [nodes[0]] + nodes[1..];
      if nodes[0].id !in FromIds(cs) {
        assert Roots(nodes, cs) == [nodes[0]] + Roots(nodes[1..], cs);
      }
    }
  }

  /** `roots.map(node => buildHierarchy(node.id)).filter(nonNull)`. */
  function RootResources(nodes: seq<Node>, cs: seq<Connection>, roots: seq<Node>): (r: seq<Resource>)
    ensures |r| <= |roots|
    ensures forall k :: 0 <= k < |r| ==> WellBuilt(r[k], {}, nodes)
    ensures forall k :: 0 <= k < |r| ==> BuildHierarchy(nodes, cs, r[k].id, {}) == Some(r[k])
  {
    if |roots| == 0 then []
    else
      var rest := RootResources(nodes, cs, roots[1..]);
      match BuildHierarchy(nodes, cs, roots[0].id, {})
      case None => rest
      case Some(t) => [t] + rest
  }

  /** `generateConfig(nodes, connections)`. */
  function GenerateConfig(nodes: seq<Node>, cs: seq<Connection>): (d: Document)
    ensures d.version == Version
    ensures forall k :: 0 <= k < |d.resources| ==> WellBuilt(d.resources[k], {}, nodes)
    ensures forall k :: 0 <= k < |d.resources| ==> BuildHierarchy(nodes, cs, d.resources[k].id, {}) == Some(d.resources[k])
  {
    Document(Version, RootResources(nodes, cs, Roots(nodes, cs)))
  }

  // ---------------------------------------------------------------------------
  // Which roots are emitted

  function Ids(rs: seq<Resource>): (ids: seq<string>)
    ensures |ids| == |rs| && forall k :: 0 <= k < |rs| ==> ids[k] == rs[k].id
  {
    if |rs| == 0 then [] else [rs[0].id] + Ids(rs[1..])
  }

  /** The ids of `roots` in order, leaving out the empty id. */
  function NamedIds(roots: seq<Node>): (ids: seq<string>)
    ensures forall x :: x in ids <==> x != "" && exists n :: n in roots && n.id == x
  {
    if |roots| == 0 then []
    else
      assert forall n :: n in roots <==> n == roots[0] || n in roots[1..];
      if roots[0].id == "" then NamedIds(roots[1..]) else [roots[0].id] + NamedIds(roots[1..])
  }

  lemma {:induction false} RootResourcesIds(nodes: seq<Node>, cs: seq<Connection>, roots: seq<Node>)
    requires forall n :: n in roots ==> n in nodes
    ensures Ids(RootResources(nodes, cs, roots)) == NamedIds(roots)
  {
    if |roots| > 0 {
      assert roots[0].id in NodeIds(nodes);
      RootResourcesIds(nodes, cs, roots[1..]);
      var rest := RootResources(nodes, cs, roots[1..]);
      match BuildHierarchy(nodes, cs, roots[0].id, {})
      case None =>
      case Some(t) =>
        assert Ids([t] + rest) == [t.id] + Ids(rest);
    }
  }

  /** The export is version "1.0" and lists, in node order, one entry for each
      node that is no connection's child end (nodes with an empty id excepted). */
  lemma ExportedRoots(nodes: seq<Node>, cs: seq<Connection>)
    ensures GenerateConfig(nodes, cs).version == "1.0"
    ensures Ids(GenerateConfig(nodes, cs).resources) == NamedIds(Roots(nodes, cs))
    ensures forall x :: x in Ids(GenerateConfig(nodes, cs).resources)
              <==> x != "" && x in NodeIds(nodes) && x !in FromIds(cs)
  {
    RootResourcesIds(nodes, cs, Roots(nodes, cs));
  }

  /** With no connections every node is a root. */
  lemma {:induction false} NoConnectionsAllRoots(nodes: seq<Node>)
    ensures Roots(nodes, []) == nodes
  {
    if |nodes| > 0 {
      NoConnectionsAllRoots(nodes[1..]);
      assert nodes == [nodes[0]] + nodes[1..];
    }
  }

  /** A childless entry for a node. */
  function Leaf(n: Node): Resource {
    Resource(n.id, n.resourceType, n.name, n.config, Omitted)
  }

  function Leaves(ns: seq<Node>): seq<Resource> {
    if |ns| == 0 then []
    else if ns[0].id == "" then Leaves(ns[1..])
    else [Leaf(ns[0])] + Leaves(ns[1..])
  }

  lemma {:induction false} FlatRootResources(nodes: seq<Node>, roots: seq<Node>)
    requires forall n :: n in roots ==> Find(nodes, n.id) == Some(n)
    ensures RootResources(nodes, [], roots) == Leaves(roots)
  {
    if |roots| > 0 {
      assert Find(nodes, roots[0].id) == Some(roots[0]);
      assert ChildConnections([], roots[0].id) == [];
      FlatRootResources(nodes, roots[1..]);
    }
  }

  /** Without connections the export lists every (named) node, in order, as a
      root without a `children` key. */
  lemma ExportWithoutConnections(nodes: seq<Node>)
    requires UniqueIds(nodes)
    ensures GenerateConfig(nodes, []).resources == Leaves(nodes)
  {
    NoConnectionsAllRoots(nodes);
    forall n | n in nodes ensures Find(nodes, n.id) == Some(n) {
      var i :| 0 <= i < |nodes| && nodes[i] == n;
      FindUnique(nodes, i);
    }
    FlatRootResources(nodes, nodes);
  }

  // ---------------------------------------------------------------------------
  // Every node is exported when the graph is acyclic

  /** `x` is the id of the entry or of an entry below it. */
  ghost predicate Occurs(t: Resource, x: string)
    decreases t
  {
    || t.id == x
    || match t.children
       case Omitted => false
       case Present(kids) => exists k :: 0 <= k < |kids| && Occurs(kids[k], x)
  }

  lemma {:induction false} ChildInChildren(nodes: seq<Node>, cs: seq<Connection>, pending: seq<Connection>,
                                           visited: set<string>, c: Connection, t: Resource)
    requires forall d :: d in pending ==> d in cs
    requires c in pending && BuildHierarchy(nodes, cs, c.fromNode, visited) == Some(t)
    ensures t in BuildChildren(nodes, cs, pending, visited)
    decreases |pending|
  {
    if pending[0] != c {
      ChildInChildren(nodes, cs, pending[1..], visited, c, t);
    }
  }

  /** Following a repetition-free walk down from its first id, every id on it
      is emitted below the entry for that first id. */
  lemma {:induction false} DescendOccurs(nodes: seq<Node>, cs: seq<Connection>, p: seq<string>, visited: set<string>)
    requires IsWalk(cs, p) && NoEmpty(p) && Distinct(p)
    requires forall k :: 0 <= k < |p| ==> p[k] in NodeIds(nodes) && p[k] !in visited
    ensures BuildHierarchy(nodes, cs, p[0], visited).Some?
    ensures Occurs(BuildHierarchy(nodes, cs, p[0], visited).value, p[|p| - 1])
    decreases |p|
  {
    var top := BuildHierarchy(nodes, cs, p[0], visited).value;
    if |p| > 1 {
      assert Step(cs, p[0], p[1]);
      var c :| c in cs && c.toNode == p[0] && c.fromNode == p[1];
      var rest := p[1..];
      WalkSlice(cs, p, 1, |p|);
      forall k | 0 <= k < |rest| ensures rest[k] in NodeIds(nodes) && rest[k] !in visited + {p[0]} {
        assert rest[k] == p[k + 1];
      }
      DescendOccurs(nodes, cs, rest, visited + {p[0]});
      var t := BuildHierarchy(nodes, cs, p[1], visited + {p[0]}).value;
      var pending := ChildConnections(cs, p[0]);
      ChildInChildren(nodes, cs, pending, visited + {p[0]}, c, t);
      var kids := BuildChildren(nodes, cs, pending, visited + {p[0]});
      var k :| 0 <= k < |kids| && kids[k] == t;
      assert top.children == Present(kids);
      assert Occurs(kids[k], p[|p| - 1]);
    }
  }

  /** A repetition-free sequence drawn from `s` is no longer than `s` is large. */
  lemma {:induction false} DistinctBound(p: seq<string>, s: set<string>)
    requires Distinct(p) && forall k :: 0 <= k < |p| ==> p[k] in s
    ensures |p| <= |s|
  {
    if |p| > 0 {
      var rest := p[1..];
      forall k | 0 <= k < |rest| ensures rest[k] in s - {p[0]} {
        assert rest[k] == p[k + 1];
      }
      DistinctBound(rest, s - {p[0]});
    }
  }

  /** One climb: the parent of the walk's first id, put in front. */
  lemma ClimbOne(cs: seq<Connection>, p: seq<string>, c: Connection) returns (up: seq<string>)
    requires Acyclic(cs) && IsWalk(cs, p) && Distinct(p)
    requires c in cs && c.fromNode == p[0]
    ensures up == [c.toNode] + p
    ensures IsWalk(cs, up) && Distinct(up)
  {
    up := [c.toNode] + p;
    assert Step(cs, c.toNode, p[0]);
    forall k | 0 <= k < |up| - 1 ensures Step(cs, up[k], up[k + 1]) {
      if k > 0 { assert up[k] == p[k - 1] && up[k + 1] == p[k]; }
    }
    forall j | 0 <= j < |p| ensures p[j] != c.toNode {
      if p[j] == c.toNode {
        WalkSlice(cs, p, 0, j + 1);
        LoopThroughB(cs, p[..j + 1], c.toNode);
      }
    }
    forall i, j | 0 <= i < j < |up| ensures up[i] != up[j] {
      if i > 0 { assert up[i] == p[i - 1] && up[j] == p[j - 1]; }
      else { assert up[j] == p[j - 1]; }
    }
  }

  /** From a walk ending at some node, keep climbing to parents until a node
      that is nobody's child; acyclicity keeps the walk free of repetitions,
      which bounds its length by the number of node ids. */
  lemma ClimbToRoot(nodes: seq<Node>, cs: seq<Connection>, p: seq<string>) returns (q: seq<string>)
    requires Acyclic(cs) && Integrity(nodes, cs)
    requires IsWalk(cs, p) && Distinct(p) && forall k :: 0 <= k < |p| ==> p[k] in NodeIds(nodes)
    ensures IsWalk(cs, q) && Distinct(q) && forall k :: 0 <= k < |q| ==> q[k] in NodeIds(nodes)
    ensures q[0] !in FromIds(cs) && q[|q| - 1] == p[|p| - 1]
    decreases |NodeIds(nodes)| - |p|
  {
    DistinctBound(p, NodeIds(nodes));
    if p[0] !in FromIds(cs) {
      q := p;
    } else {
      var c :| c in cs && c.fromNode == p[0];
      var up := ClimbOne(cs, p, c);
      forall k | 0 <= k < |up| ensures up[k] in NodeIds(nodes) {
        if k > 0 { assert up[k] == p[k - 1]; }
      }
      DistinctBound(up, NodeIds(nodes));
      q := ClimbToRoot(nodes, cs, up);
    }
  }

  /** Fan-in: a node that is the child end of connections into two different
      root parents is emitted twice, once below each of them. */
  lemma FanInUnderBothParents(nodes: seq<Node>, cs: seq<Connection>, c1: Connection, c2: Connection)
    requires Integrity(nodes, cs) && NonEmptyIds(nodes)
    requires c1 in cs && c2 in cs && c1.fromNode == c2.fromNode && c1.toNode != c2.toNode
    requires c1.toNode !in FromIds(cs) && c2.toNode !in FromIds(cs)
    ensures var rs := GenerateConfig(nodes, cs).resources;
            exists i, j :: 0 <= i < |rs| && 0 <= j < |rs| && i != j
              && rs[i].id == c1.toNode && rs[j].id == c2.toNode
              && rs[i].children.Present? && rs[j].children.Present?
              && c1.fromNode in Ids(rs[i].children.items) && c1.fromNode in Ids(rs[j].children.items)
  {
    var rs := GenerateConfig(nodes, cs).resources;
    var i := RootEntryWithChild(nodes, cs, c1);
    var j := RootEntryWithChild(nodes, cs, c2);
  }

  /** The export entry of a root parent lists the child end of a connection into it. */
  lemma RootEntryWithChild(nodes: seq<Node>, cs: seq<Connection>, c: Connection) returns (i: nat)
    requires Integrity(nodes, cs) && NonEmptyIds(nodes)
    requires c in cs && c.toNode !in FromIds(cs)
    ensures var rs := GenerateConfig(nodes, cs).resources;
            && i < |rs| && rs[i].id == c.toNode && rs[i].children.Present?
            && c.fromNode in Ids(rs[i].children.items)
  {
    var n :| n in nodes && n.id == c.toNode;
    var m :| m in nodes && m.id == c.fromNode;
    assert c.fromNode in FromIds(cs);
    ChildUnderParent(nodes, cs, c, {});
    var t := BuildHierarchy(nodes, cs, c.toNode, {}).value;
    RootInResources(nodes, cs, Roots(nodes, cs), n, t);
    var rs := GenerateConfig(nodes, cs).resources;
    i :| i < |rs| && rs[i] == t;
  }

  lemma {:induction false} RootInResources(nodes: seq<Node>, cs: seq<Connection>, roots: seq<Node>, n: Node, t: Resource)
    requires n in roots && BuildHierarchy(nodes, cs, n.id, {}) == Some(t)
    ensures t in RootResources(nodes, cs, roots)
  {
    if roots[0] != n {
      RootInResources(nodes, cs, roots[1..], n, t);
    }
  }

  /** Forest completeness: when the connections form no cycle and reference
      only existing nodes, every node of the store is emitted somewhere in the
      export (a node with two parents is emitted under both). */
  lemma ExportCoversEveryNode(nodes: seq<Node>, cs: seq<Connection>, x: string)
    requires Acyclic(cs) && Integrity(nodes, cs) && NonEmptyIds(nodes)
    requires x in NodeIds(nodes)
    ensures exists k :: 0 <= k < |GenerateConfig(nodes, cs).resources|
                        && Occurs(GenerateConfig(nodes, cs).resources[k], x)
  {
    var q := ClimbToRoot(nodes, cs, [x]);
    forall k | 0 <= k < |q| ensures q[k] != "" {
      var n :| n in nodes && n.id == q[k];
    }
    DescendOccurs(nodes, cs, q, {});
    var t := BuildHierarchy(nodes, cs, q[0], {}).value;
    var n :| n in nodes && n.id == q[0];
    RootInResources(nodes, cs, Roots(nodes, cs), n, t);
    var rs := GenerateConfig(nodes, cs).resources;
    var k :| 0 <= k < |rs| && rs[k] == t;
  }

  // ---------------------------------------------------------------------------
  // A node with two parents

  function Sample(id: string): Node {
    Node(id, "aws_ec2", id, Point(0.0, 0.0), NodeConfig("aws_ec2", "compute", map[]))
  }

  function FanNodes(): seq<Node> {
    [Sample("p1"), Sample("p2"), Sample("c")]
  }

  function FanConnections(): seq<Connection> {
    [Edge("c", "p1"), Edge("c", "p2")]
  }

  function FanEntry(p: string): Resource {
    Resource(p, "aws_ec2", p, Sample(p).config, Present([Leaf(Sample("c"))]))
  }

  lemma FanInChild(p: string)
    requires p == "p1" || p == "p2"
    ensures BuildHierarchy(FanNodes(), FanConnections(), "c", {p}) == Some(Leaf(Sample("c")))
  {
    var cs := FanConnections();
    assert Find(FanNodes(), "c") == Some(Sample("c"));
    assert ChildConnections(cs, "c") == [];
  }

  lemma FanInParent(p: string)
    requires p == "p1" || p == "p2"
    ensures BuildHierarchy(FanNodes(), FanConnections(), p, {}) == Some(FanEntry(p))
  {
    var nodes, cs := FanNodes(), FanConnections();
    FanInChildren(p);
    FanInEdge(p);
    assert Find(nodes, p) == Some(Sample(p));
  }

  lemma FanInChildren(p: string)
    requires p == "p1" || p == "p2"
    ensures BuildChildren(FanNodes(), FanConnections(), [Edge("c", p)], {p}) == [Leaf(Sample("c"))]
  {
    FanInChild(p);
    assert BuildChildren(FanNodes(), FanConnections(), [], {p}) == [];
  }

  lemma FanInEdge(p: string)
    requires p == "p1" || p == "p2"
    ensures ChildConnections(FanConnections(), p) == [Edge("c", p)]
  {
    var cs := FanConnections();
    assert ChildConnections(cs[2..], p) == [];
  }

  /** A node that is the child end of two connections is emitted under both
      parents, and is not itself a root. */
  lemma FanInDuplicates()
    ensures GenerateConfig(FanNodes(), FanConnections()).resources == [FanEntry("p1"), FanEntry("p2")]
  {
    var nodes, cs := FanNodes(), FanConnections();
    FanRoots();
    FanInHead();
    FanInTail();
  }

  lemma FanInHead()
    ensures RootResources(FanNodes(), FanConnections(), [Sample("p1"), Sample("p2")])
         == [FanEntry("p1")] + RootResources(FanNodes(), FanConnections(), [Sample("p2")])
  {
    FanInParent("p1");
    assert [Sample("p1"), Sample("p2")][1..] == [Sample("p2")];
  }

  lemma FanInTail()
    ensures RootResources(FanNodes(), FanConnections(), [Sample("p2")]) == [FanEntry("p2")]
  {
    FanInParent("p2");
    assert RootResources(FanNodes(), FanConnections(), []) == [];
  }

  /** The two parents are the roots; the shared child is not. */
  lemma FanRoots()
    ensures Roots(FanNodes(), FanConnections()) == [Sample("p1"), Sample("p2")]
  {
    var nodes, cs := FanNodes(), FanConnections();
    assert FromIds(cs) == {"c"};
    assert Roots(nodes[2..], cs) == [];
  }

  // ---------------------------------------------------------------------------
  // The copy in page.jsx: no empty-id guard, `nodes.find` unchecked, roots
  // not null-filtered

  /** `buildHierarchy` of page.jsx; a node it reaches must exist, since the
      found node is dereferenced unchecked. */
  function BuildHierarchyUnchecked(nodes: seq<Node>, cs: seq<Connection>, nodeId: string, visited: set<string>): (r: Option<Resource>)
    requires nodeId in NodeIds(nodes) && FromIds(cs) <= NodeIds(nodes)
    ensures r.None? <==> nodeId in visited
    ensures r.Some? ==> r.value.id == nodeId
    decreases Unseen(cs, nodeId, visited), 0
  {
    if nodeId in visited then None
    else
      var node := Find(nodes, nodeId).value;
      ChildrenBudget(cs, nodeId, visited);
      var kids := BuildChildrenUnchecked(nodes, cs, ChildConnections(cs, nodeId), visited + {nodeId});
      Some(Resource(node.id, node.resourceType, node.name, node.config, if |kids| > 0 then Present(kids) else Omitted))
  }

  /** `childConnections.map(...).filter(Boolean)` of page.jsx. */
  function BuildChildrenUnchecked(nodes: seq<Node>, cs: seq<Connection>, pending: seq<Connection>, visited: set<string>): (r: seq<Resource>)
    requires forall c :: c in pending ==> c in cs
    requires FromIds(cs) <= NodeIds(nodes)
    ensures |r| <= |pending|
    decreases |FromIds(cs) - visited|, |pending|
  {
    if |pending| == 0 then []
    else
      ChildBudget(cs, pending[0], visited);
      assert pending[0].fromNode in FromIds(cs);
      var rest := BuildChildrenUnchecked(nodes, cs, pending[1..], visited);
      match BuildHierarchyUnchecked(nodes, cs, pending[0].fromNode, visited)
      case None => rest
      case Some(t) => [t] + rest
  }

  /** `rootNodes.map(node => buildHierarchy(node.id))`, kept unfiltered: with
      a fresh visited set the top-level call never yields null. */
  function RootResourcesUnchecked(nodes: seq<Node>, cs: seq<Connection>, roots: seq<Node>): (r: seq<Resource>)
    requires forall n :: n in roots ==> n in nodes
    requires FromIds(cs) <= NodeIds(nodes)
    ensures |r| == |roots| && forall k :: 0 <= k < |r| ==> r[k].id == roots[k].id
  {
    if |roots| == 0 then []
    else
      assert roots[0].id in NodeIds(nodes);
      [BuildHierarchyUnchecked(nodes, cs, roots[0].id, {}).value] + RootResourcesUnchecked(nodes, cs, roots[1..])
  }

  /** `generateConfig()` of page.jsx. */
  function GenerateConfigUnchecked(nodes: seq<Node>, cs: seq<Connection>): (d: Document)
    requires FromIds(cs) <= NodeIds(nodes)
    ensures d.version == Version && |d.resources| == |Roots(nodes, cs)|
  {
    Document(Version, RootResourcesUnchecked(nodes, cs, Roots(nodes, cs)))
  }

  lemma {:induction false} HierarchiesAgree(nodes: seq<Node>, cs: seq<Connection>, nodeId: string, visited: set<string>)
    requires NonEmptyIds(nodes) && FromIds(cs) <= NodeIds(nodes) && nodeId in NodeIds(nodes)
    ensures BuildHierarchyUnchecked(nodes, cs, nodeId, visited) == BuildHierarchy(nodes, cs, nodeId, visited)
    decreases Unseen(cs, nodeId, visited), 0
  {
    if nodeId !in visited {
      ChildrenBudget(cs, nodeId, visited);
      ChildrenAgree(nodes, cs, ChildConnections(cs, nodeId), visited + {nodeId});
    }
  }

  lemma {:induction false} ChildrenAgree(nodes: seq<Node>, cs: seq<Connection>, pending: seq<Connection>, visited: set<string>)
    requires NonEmptyIds(nodes) && FromIds(cs) <= NodeIds(nodes)
    requires forall c :: c in pending ==> c in cs
    ensures BuildChildrenUnchecked(nodes, cs, pending, visited) == BuildChildren(nodes, cs, pending, visited)
    decreases |FromIds(cs) - visited|, |pending|
  {
    if |pending| > 0 {
      ChildBudget(cs, pending[0], visited);
      assert pending[0].fromNode in FromIds(cs);
      HierarchiesAgree(nodes, cs, pending[0].fromNode, visited);
      ChildrenAgree(nodes, cs, pending[1..], visited);
    }
  }

  lemma {:induction false} RootsAgree(nodes: seq<Node>, cs: seq<Connection>, roots: seq<Node>)
    requires NonEmptyIds(nodes) && FromIds(cs) <= NodeIds(nodes)
    requires forall n :: n in roots ==> n in nodes
    ensures RootResourcesUnchecked(nodes, cs, roots) == RootResources(nodes, cs, roots)
  {
    if |roots| > 0 {
      assert roots[0].id in NodeIds(nodes);
      HierarchiesAgree(nodes, cs, roots[0].id, {});
      RootsAgree(nodes, cs, roots[1..]);
    }
  }

  /** On a store whose ids are non-empty and whose child ends all exist, the
      unguarded export equals the guarded one. */
  lemma ExportsAgree(nodes: seq<Node>, cs: seq<Connection>)
    requires NonEmptyIds(nodes) && FromIds(cs) <= NodeIds(nodes)
    ensures GenerateConfigUnchecked(nodes, cs) == GenerateConfig(nodes, cs)
  {
    RootsAgree(nodes, cs, Roots(nodes, cs));
  }
}

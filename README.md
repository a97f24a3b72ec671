# Infrastructure designer: a Dafny model of its canvas core

The infrastructure designer is a browser canvas. On it a user places
infrastructure resources as nodes and joins a child node to a parent node with
a connection. The result is exported as a JSON forest of resources. This
project models the logic under the canvas:

- `src/app/canvasUtils.ts` — the pure helpers:
  - the screen/model coordinate transforms;
  - the anchor points of a node's two connection bars;
  - the cycle guard `wouldCreateCycle`;
  - the export `generateConfig` / `buildHierarchy`.
- `src/app/page.tsx` — the store. Its handlers add, update and delete nodes
  and create and replace connections.
- `src/app/page.jsx` — the earlier single-file controller. It handles:
  - panning and zooming;
  - adding, dragging, selecting, renaming and deleting nodes;
  - drawing a connection from a child bar to a parent bar, refused with an
    error message when it would close a cycle;
  - its own unguarded copies of the cycle guard and of the export.

Modules, one per file:

| file | module | models |
|---|---|---|
| shapes.dfy | `Shapes` | the `Node`, `Connection` and `Point` records; lookup by id |
| geometry.dfy | `Geometry` | transforms and connection anchors |
| cycle.dfy | `CycleCheck` | both cycle guards; walks and reachability; acyclicity |
| hierarchy.dfy | `Hierarchy` | both exports; which nodes are roots; what the forest contains |
| edits.dfy | `Edits` | the list edits both handler sets share: merge-update, filter-delete, re-anchoring after a move |
| store.dfy | `Store` | class `GraphStore`, the handlers of `page.tsx` |
| designer.dfy | `Designer` | class `Designer`, the controller of `page.jsx` |

A connection is the edge from `fromNode` (the child) to `toNode` (the
parent). The cycle guard searches backwards from the prospective child
through the connections whose parent end is the current id. The central
results are these:

- **The guard answers reachability.** `wouldCreateCycle(a, b)` is true exactly
  when `a` and `b` are non-empty and `b` is reached from `a` by backward moves
  (`CycleCheck.WouldCreateCycleIff`). The unguarded copy in `page.jsx` agrees
  with it when both ids and every connection end are non-empty
  (`CycleCheck.UnguardedAgrees`).
- **The guard keeps the graph acyclic.** Adding a connection to an acyclic
  graph keeps it acyclic if and only if the guard says no
  (`CycleCheck.AddKeepsAcyclic`).
- **The controller keeps its invariant.** Every handler of `Designer`
  preserves `Valid()`:
  - the zoom stays within [0.1, 2];
  - node ids are unique and non-empty;
  - every connection joins two existing nodes;
  - every connection caches the current anchors of its two nodes;
  - the connections form no cycle.
- **The export is a forest.**
  - Its top-level entries are exactly the nodes with a non-empty id that are
    nobody's child (`Hierarchy.ExportedRoots`).
  - Below each entry hang the subtrees of its child connections, in
    connection order, with nulls dropped (`Hierarchy.BuildChildren`,
    `Hierarchy.HierarchyChildren`, `Hierarchy.ChildIsSubtree`).
  - Every node appears in the export when three things hold: the connections
    form no cycle, every connection joins existing nodes, and every id is
    non-empty (`Hierarchy.ExportCoversEveryNode`).

## Model

| member | source | states |
|---|---|---|
| Shapes.Find | src/app/page.tsx:51-52 | `nodes.find` by id: none exactly when no node carries the id; otherwise a node of the list carrying it |
| Shapes.FindFirst | src/app/page.tsx:51-52 | when the id is present, `Find` returns the first node carrying it: every node before it carries another id |
| Shapes.FindUnique | src/app/page.tsx:51-52 | with unique ids, looking up a node's id returns that very node |
| Shapes.FindAppend | src/app/page.tsx:41 | appending a node does not change the lookup of an id already present |
| Shapes.NatToString | src/app/page.tsx:32 | `toString()` of a count: a non-empty string of digits whose decimal value is the count, with no leading zero unless the count is zero |
| Geometry.TransformCoordinates | src/app/canvasUtils.ts:11-19 | null exactly when the transform, its zoom or its pan is missing; otherwise the point scaled by the zoom and shifted by the pan |
| Geometry.InverseTransformCoordinates | src/app/canvasUtils.ts:21-29 | null in the same cases; otherwise the point the transform maps onto the input |
| Geometry.InverseAfterTransform | src/app/canvasUtils.ts:11-29 | the inverse undoes the transform when the zoom is non-zero |
| Geometry.TransformAfterInverse | src/app/canvasUtils.ts:11-29 | the transform undoes the inverse when the zoom is non-zero |
| Geometry.ConnectionPoint | src/app/canvasUtils.ts:31-41 | a missing node gives the origin; otherwise the point is half a node width right of the node, at its top for the parent bar and one node height lower for the child bar |
| Geometry.Anchor | src/app/page.jsx:301-308 | the file's own unguarded anchor agrees with the shared anchor of a present node |
| CycleCheck.WouldCreateCycle | src/app/canvasUtils.ts:43-61 | a true answer needs two non-empty ids; two equal non-empty ids answer true; a true answer for distinct ids needs the first id unvisited and the parent end of some connection |
| CycleCheck.WouldCreateCycleUnguarded | src/app/page.jsx:352-362 | equal ids answer true, the empty id included; a true answer for distinct ids needs the first id unvisited and the parent end of some connection |
| CycleCheck.CycleImpliesWalk | src/app/canvasUtils.ts:43-61 | soundness: a positive answer is backed by a walk of non-empty ids from the first id to the second |
| CycleCheck.WalkImpliesCycle | src/app/canvasUtils.ts:43-61 | completeness: every repetition-free walk that avoids the visited ids is found |
| CycleCheck.ShortestWalk | src/app/canvasUtils.ts:53-55 | any walk can be cut down to one without repetitions, so the visited set loses nothing |
| CycleCheck.WouldCreateCycleIff | src/app/canvasUtils.ts:43-61 | the guard is true exactly when both ids are non-empty and the second is reached from the first |
| CycleCheck.UnguardedAgrees | src/app/page.jsx:352-362 | the unguarded copy answers as the guarded one whenever both ids and all connection ends are non-empty |
| CycleCheck.GuardsDiffer | src/app/page.jsx:352-353 | on two empty ids only the unguarded copy answers true |
| CycleCheck.AddKeepsAcyclic | src/app/page.jsx:327-343 | on an acyclic graph with named ends, adding a connection keeps the graph acyclic if and only if the guard answers false |
| CycleCheck.SubsetKeepsAcyclic | src/app/page.jsx:414-416 | dropping connections never creates a cycle |
| CycleCheck.SameEndsKeepAcyclic | src/app/page.jsx:264-281 | rewriting cached points while keeping every connection's ends never creates a cycle |
| CycleCheck.EmptyAcyclic | src/app/page.jsx:143 | the empty connection list is acyclic |
| CycleCheck.SelfLoopIsCycle | src/app/page.tsx:50-66 | a connection from a node to itself is a cycle |
| CycleCheck.NoParentReachesNothing | src/app/canvasUtils.ts:56-60 | from an id that is no connection's parent end the guard finds nothing but the id itself |
| CycleCheck.NoChildIsUnreached | src/app/canvasUtils.ts:56-60 | an id that is no connection's child end is reached from no other id |
| CycleCheck.DiamondClosesCycle | src/app/canvasUtils.ts:43-61 | on B->A, C->A, D->B, D->C, adding A->D is refused, since D->B->A exists |
| CycleCheck.DiamondNoFalseCycle | src/app/canvasUtils.ts:43-61 | on the same diamond, D->A is let through, since D is no connection's parent end; the query A->E for an id no connection reaches answers false, although it explores D twice, once through B and once through C |
| Hierarchy.ChildConnections | src/app/canvasUtils.ts:75 | the result holds exactly the connections whose parent end is the id, as a subsequence of the list |
| Hierarchy.ChildConnectionsCounts | src/app/canvasUtils.ts:75 | every copy of a connection into the id is kept and no copy of another; with the subsequence clause this fixes the result |
| Hierarchy.BuildHierarchy | src/app/canvasUtils.ts:68-87 | null exactly for an empty, already visited or missing id; otherwise an entry for that id whose subtree is well built (no id repeats on a path, fields copied from the node, `children` never present and empty) |
| Hierarchy.BuildChildren | src/app/canvasUtils.ts:76-78 | the ids of the subtrees are exactly `ChildIds`: the child ends of the pending connections, in connection order, without those that are empty, already visited or carried by no node; each subtree is well built below the visited ids |
| Hierarchy.ChildIdsMembers | src/app/canvasUtils.ts:69-78 | an id is among `ChildIds` exactly when it is non-empty, unvisited, carried by a node and the child end of a pending connection |
| Hierarchy.HierarchyChildren | src/app/canvasUtils.ts:75-85 | an entry has no `children` key exactly when no child id survives the filter; otherwise its children's ids are exactly those child ids, in connection order |
| Hierarchy.ChildIsSubtree | src/app/canvasUtils.ts:76-78 | each child entry is the subtree `buildHierarchy` builds for its own id below the visited ids |
| Hierarchy.ChildUnderParent | src/app/canvasUtils.ts:75-78 | a connection into a node from another existing, named and unvisited node puts that child's subtree among the parent's children |
| Hierarchy.Roots | src/app/canvasUtils.ts:89-90 | the result holds exactly the nodes whose id is no connection's child end, as a subsequence of the node list |
| Hierarchy.RootsCounts | src/app/canvasUtils.ts:89-90 | every copy of such a node record is kept and no copy of another |
| Hierarchy.RootResources | src/app/canvasUtils.ts:94 | at most one entry per root; each entry is well built and is the subtree `buildHierarchy` builds for its id from an empty visited set |
| Hierarchy.GenerateConfig | src/app/canvasUtils.ts:92-95 | version "1.0"; each entry is well built and is the subtree built for its id from an empty visited set |
| Hierarchy.RootResourcesIds | src/app/canvasUtils.ts:94 | the entries are, in order, the roots with an empty id left out |
| Hierarchy.ExportedRoots | src/app/canvasUtils.ts:89-95 | the export lists exactly the non-empty ids of nodes that are nobody's child |
| Hierarchy.NoConnectionsAllRoots | src/app/canvasUtils.ts:89-90 | without connections every node is a root |
| Hierarchy.ExportWithoutConnections | src/app/canvasUtils.ts:63-96 | without connections and with unique ids, the export is every named node, in order, without a `children` key |
| Hierarchy.DescendOccurs | src/app/canvasUtils.ts:75-78 | every id on a repetition-free walk down from a node appears in that node's subtree |
| Hierarchy.ClimbToRoot | src/app/canvasUtils.ts:89-90 | on an acyclic graph over existing nodes, climbing to parents reaches a root |
| Hierarchy.ExportCoversEveryNode | src/app/canvasUtils.ts:63-96 | on an acyclic graph whose connections join existing nodes, every node appears somewhere in the export |
| Hierarchy.FanInUnderBothParents | src/app/canvasUtils.ts:75-95 | a node that is the child end of connections into two different root parents appears among the children of two distinct export entries, one for each parent |
| Hierarchy.RootEntryWithChild | src/app/canvasUtils.ts:75-95 | the export entry of a root parent lists the child end of every connection into it |
| Hierarchy.FanInDuplicates | src/app/canvasUtils.ts:76-78 | on c->p1, c->p2 the export is exactly p1 and p2, each with c as its only child |
| Hierarchy.BuildHierarchyUnchecked | src/app/page.jsx:366-383 | null exactly for a visited id; otherwise an entry for that id |
| Hierarchy.BuildChildrenUnchecked | src/app/page.jsx:372-374 | at most one subtree per pending connection, nulls dropped |
| Hierarchy.RootResourcesUnchecked | src/app/page.jsx:391 | one entry per root, in root order, each carrying that root's id: the top-level nulls are not filtered |
| Hierarchy.GenerateConfigUnchecked | src/app/page.jsx:365-393 | version "1.0" and one entry per root, nulls kept |
| Hierarchy.HierarchiesAgree | src/app/page.jsx:366-383 | on existing nodes with non-empty ids the unchecked subtree equals the checked one |
| Hierarchy.ChildrenAgree | src/app/page.jsx:372-374 | under the same conditions the unchecked children equal the checked ones |
| Hierarchy.RootsAgree | src/app/page.jsx:391 | under the same conditions the unfiltered top-level entries equal the filtered ones |
| Hierarchy.ExportsAgree | src/app/page.jsx:365-393 | when ids are non-empty and every child end exists, both exports are equal |
| Edits.Merge | src/app/page.tsx:46 | an update without an id keeps the node's id |
| Edits.MergeIdempotent | src/app/page.tsx:44-48 | applying an update twice equals applying it once, and the empty update changes nothing |
| Edits.MovedAndRenamed | src/app/page.jsx:254-261 | a move changes only the position; a rename only the name |
| Edits.UpdateWhere | src/app/page.tsx:44-48 | same length; nodes with another id are unchanged; nodes with the id are merged with the update |
| Edits.UpdateKeepsIdSet | src/app/page.tsx:44-48 | an update without an id keeps the set of ids |
| Edits.FindAfterUpdate | src/app/page.tsx:44-48 | after such an update, looking up the id gives the merged node and other lookups are unchanged |
| Edits.UpdateKeepsIds | src/app/page.tsx:44-48 | such an update keeps ids unique and non-empty |
| Edits.AppendKeepsGraph | src/app/page.tsx:41 | appending a node with a new id adds exactly that id and keeps uniqueness, integrity and fresh cached points |
| Edits.UpdateKeepsPointsFresh | src/app/page.jsx:612-617 | an update touching neither id nor position keeps integrity and every cached anchor |
| Edits.RemoveNode | src/app/page.tsx:73 | the result holds exactly the nodes with another id, as a subsequence of the list |
| Edits.RemoveNodeCounts | src/app/page.tsx:73 | every copy of a node record with another id is kept and no copy of the others |
| Edits.RemoveNodeIds | src/app/page.tsx:73 | the ids afterwards are the ids before less the deleted one |
| Edits.RemoveKeepsUnique | src/app/page.tsx:73 | deletion keeps ids unique |
| Edits.FindAfterRemove | src/app/page.tsx:73 | deletion does not change the lookup of another id |
| Edits.RemoveTouching | src/app/page.tsx:74-76 | the result holds exactly the connections touching the deleted id at neither end, as a subsequence of the list |
| Edits.RemoveTouchingCounts | src/app/page.tsx:74-76 | every copy of such a connection is kept and no copy of the others |
| Edits.DeleteKeepsGraph | src/app/page.tsx:72-80 | the cascade leaves no connection naming the deleted id and keeps integrity and acyclicity |
| Edits.DeleteKeepsPointsFresh | src/app/page.jsx:412-416 | the cascade keeps every remaining cached anchor fresh |
| Edits.OrphanBecomesRoot | src/app/canvasUtils.ts:89-90 | a node whose only parent was deleted is no child end afterwards, so it becomes a root |
| Edits.Reanchor | src/app/page.jsx:265-278 | keeps a connection's id, ends and kind; each end takes the anchor of its node, at the new position if that end is the moved node |
| Edits.ReanchorAll | src/app/page.jsx:264-281 | same length and ends; connections not touching the moved node are unchanged; the others are re-anchored |
| Edits.FindAfterMove | src/app/page.jsx:254-261 | after a move, looking up the moved id gives the node at its new position; other lookups are unchanged |
| Edits.ReanchorKeepsEnds | src/app/page.jsx:264-281 | re-anchoring keeps the sets of child and parent ends, and acyclicity |
| Edits.MoveKeepsPointsFresh | src/app/page.jsx:246-283 | moving a node and re-anchoring its connections keeps integrity and leaves every cached point equal to its node's anchor |
| Store.ViewportCenter | src/app/page.tsx:23-27 | the transform maps the new node's position onto the middle of the canvas |
| Store.NumberedName | src/app/page.tsx:32 | the catalog name, a dash, then digits without a leading zero whose decimal value is the count plus one |
| Store.GraphStore.constructor | src/app/page.tsx:11-16 | empty lists, no selection, zoom 1, no pan; `Valid()` |
| Store.GraphStore.AddNode | src/app/page.tsx:20-42 | without a canvas nothing changes; otherwise one node is appended, with the fresh id, numbered name and empty properties, drawn at the centre; with a fresh non-empty id `Valid()` is kept |
| Store.GraphStore.UpdateNode | src/app/page.tsx:44-48 | merges the update into every node with the id; the selection is left as it was; an update without an id keeps `Valid()` |
| Store.GraphStore.CreateConnection | src/app/page.tsx:50-66 | nothing changes unless both ends exist; otherwise appends a connection anchored at the child's child bar and the parent's parent bar; keeps `Valid()`; keeps acyclicity when the guard says no; a self-loop makes the graph cyclic |
| Store.GraphStore.ReplaceConnections | src/app/page.tsx:68-70 | the connection list becomes the given one and nothing else changes |
| Store.GraphStore.DeleteNode | src/app/page.tsx:72-80 | removes the node and every connection touching it; the id set loses exactly that id; the selection is cleared exactly when it held that node; keeps `Valid()` and acyclicity |
| Store.GraphStore.SelectNode | src/app/page.tsx:114 | the selection becomes the given node |
| Store.GraphStore.SetZoom | src/app/page.tsx:119 | the zoom becomes the given one and nothing else changes |
| Store.GraphStore.SetPan | src/app/page.tsx:120 | the pan becomes the given one and nothing else changes |
| Designer.ToScreen | src/app/page.jsx:214-217 | agrees with the shared transform under the controller's zoom and pan |
| Designer.ToModel | src/app/page.jsx:219-222 | agrees with the shared inverse transform, and `ToScreen` of the result is the input |
| Designer.WheelFactor | src/app/page.jsx:208 | scrolling down scales by a factor below 1, scrolling up by a factor above 1 |
| Designer.WheelZoom | src/app/page.jsx:205-211 | stays in [0.1, 2]; exact when the scaled zoom is in range; exactly 2 when it would pass 2 and exactly 0.1 when it would fall below 0.1; scrolling down never zooms in, scrolling up never zooms out |
| Designer.ZoomedIn | src/app/page.jsx:592 | at most 2, never below an in-range zoom, exactly 20% more when that fits and exactly 2 when it does not |
| Designer.ZoomedOut | src/app/page.jsx:593 | at least 0.1, never above an in-range zoom, exactly 20% less when that fits and exactly 0.1 when it does not |
| Designer.CenterAsWritten | src/app/page.jsx:226-230 | the position as written is drawn at the canvas centre less the pan |
| Designer.CenterAsWrittenMisses | src/app/page.jsx:226-230 | under any non-zero pan the node as written misses the canvas centre; the corrected position hits it |
| Designer.CenterAsWrittenExample | src/app/page.jsx:226-230 | an 800 x 400 canvas panned by (100, 0) at zoom 1: as written (200, 200), centre (300, 200) |
| Designer.DragOffsetAsWritten | src/app/page.jsx:287-293 | the offset as written is the model point drawn at the pointer's node-relative position |
| Designer.DragOffset | src/app/page.jsx:287-293 | the corrected offset times the zoom is the pointer's offset inside the node box |
| Designer.DragTargetUnderPointer | src/app/page.jsx:248-258 | `DragTarget` places the dragged node so that its grab point, the new position plus the offset, is drawn under the pointer |
| Designer.GrabThenDrag | src/app/page.jsx:246-294 | grab then move without moving the pointer: as written the node jumps by pan / zoom; with the corrected offset it stays put |
| Designer.GrabThenDragExample | src/app/page.jsx:246-294 | pan (10, 0), zoom 1, node at the origin grabbed at (20, 20): as written it lands at (10, 0), corrected at (0, 0) |
| Designer.Designer.constructor | src/app/page.jsx:142-155 | every piece of state at its initial value; `Valid()` |
| Designer.Designer.CanvasMouseDown | src/app/page.jsx:173-178 | a press on the canvas itself starts panning and stores the pointer less the pan; any other press changes nothing |
| Designer.Designer.CanvasMouseMove | src/app/page.jsx:180-199 | while panning, the pan becomes the pointer less the drag start; while drawing, the dashed line's loose end moves to the pointer in model space under the pan before the move; nothing else changes |
| Designer.Designer.CanvasMouseUp | src/app/page.jsx:201-203 | panning ends and nothing else changes |
| Designer.Designer.PanGesture | src/app/page.jsx:173-199 | a press on the canvas followed by a move shifts the pan by exactly the pointer's travel |
| Designer.Designer.Wheel | src/app/page.jsx:205-211 | only with ctrl or meta does the zoom change, to `WheelZoom`; `Valid()` is kept |
| Designer.Designer.ZoomIn | src/app/page.jsx:592 | the zoom becomes `ZoomedIn` and does not decrease |
| Designer.Designer.ZoomOut | src/app/page.jsx:593 | the zoom becomes `ZoomedOut` and does not increase |
| Designer.Designer.ResetView | src/app/page.jsx:132 | zoom 1 and no pan |
| Designer.Designer.AddNode | src/app/page.jsx:225-244 | appends one node with the fresh id, numbered name and empty properties, drawn at the canvas centre (the corrected placement); keeps `Valid()` |
| Designer.Designer.NodeMouseDown | src/app/page.jsx:285-294 | starts dragging the node, with the corrected grab offset |
| Designer.Designer.NodeDrag | src/app/page.jsx:246-283 | while that node is dragged: only it moves, to the pointer less the grab offset, and only the connections touching it are re-anchored; otherwise nothing changes; `Valid()` is kept, including fresh anchors and acyclicity |
| Designer.Designer.NodeMouseUp | src/app/page.jsx:296-298 | dragging ends |
| Designer.Designer.SelectNode | src/app/page.jsx:543-546 | the clicked node's copy becomes the selection |
| Designer.Designer.RenameSelected | src/app/page.jsx:612-621 | renames every node with the selected id, and the selected copy, and nothing else; keeps `Valid()` |
| Designer.Designer.DeleteNode | src/app/page.jsx:412-420 | removes the node and every connection touching it; the selection is cleared exactly when it held that node; keeps `Valid()` |
| Designer.Designer.StartConnection | src/app/page.jsx:310-322 | a gesture starts at the pressed anchor, and the dashed line starts and ends there |
| Designer.Designer.EndConnection | src/app/page.jsx:324-349 | the gesture always ends; the connections and the error become what `Release` gives; the nodes do not change; `Valid()` is kept |
| Designer.Release | src/app/page.jsx:324-345 | only a completed child-to-parent gesture between two nodes does anything. It appends the anchored connection when the guard lets it through, and otherwise leaves the list and sets the cycle message. The graph stays whole |
| Designer.Designer.DismissError | src/app/page.jsx:331 | the timer clears the error and nothing else |
| Designer.NewConnection | src/app/page.jsx:333-342 | the new connection runs from the gesture's origin to the target, cached at their anchors, with kind "parent-child" |
| Designer.CycleGuardIsReachability | src/app/page.jsx:329 | on existing nodes the unguarded guard answers exactly whether the target already reaches the origin |
| Designer.ConnectKeepsGraph | src/app/page.jsx:332-343 | a connection that the guard lets through keeps ids, integrity, fresh anchors and acyclicity |
| Designer.MoveNode | src/app/page.jsx:246-283 | a move keeps the graph whole; only the moved node changes, and only the anchors of its connections |
| Designer.DragKeepsGraph | src/app/page.jsx:246-283 | the pure form of the same: `UpdateWhere` and `ReanchorAll` keep the graph whole and touch only what they should |

## Left out

- Rendering, the DOM and the mouse events are not modelled. The canvas size, canvas origin, pointer position and the node-relative grab point are parameters.
- `Date.now()` ids are parameters (`freshId`, `freshConnId`). `Designer.Designer.AddNode` requires the id to be fresh and non-empty; `Store.GraphStore.AddNode` only promises `Valid()` under that condition.
- The three-second `setTimeout` that clears the error is the separate handler `Designer.Designer.DismissError`. Timing is not modelled.
- The JSON download in both export handlers is left out, because it is I/O. Only the document `generateConfig` returns is modelled.
- The catalog (`INFRA_TYPES`) and the search filter over it are left out, because they are static data and a display filter. A catalog entry is passed in as `CatalogEntry(name, category)`.
- Numbers are exact reals, not IEEE doubles. Rounding in the transforms and zoom steps is not modelled.
- Property values are text (`map<string, string>`); the core never reads them.
- Designer.Designer.EndConnection: requires the gesture's origin and target to exist when the gesture can complete. The source dereferences `nodes.find(...)` unchecked and fails when the origin was deleted mid-gesture.
- Store.GraphStore.AddNode: requires a non-zero zoom when a canvas is present, because the source divides by the zoom. The store itself never bounds the zoom.
- Store.ViewportCenter: requires a non-zero zoom, for the same reason.
- Geometry.InverseTransformCoordinates: requires a non-zero zoom. The source accepts a zoom of 0 and yields Infinity or NaN coordinates, which exact reals cannot represent. In the controller the zoom never leaves [0.1, 2].
- Hierarchy.BuildHierarchyUnchecked: requires the id to name an existing node and every child end to exist. The source reads `node.id` of a missing node and fails.
- Hierarchy.GenerateConfigUnchecked: requires every child end to exist, for the same reason.
- Designer.GrabThenDrag: ignores the canvas border. The source measures the pointer from the node box's screen rectangle; the lemma takes that box to be where `ToScreen` draws the node.
- Stale React closures between handlers in one event are not modelled. Each handler runs to completion on the current state. `CanvasMouseMove` is the exception: it keeps the source's use of the pan from before the move.

Behaviours of the code that a reader might not expect, which the model keeps as written:

- On the diamond B->A, C->A, D->B, D->C, the guard refuses A->D. This is correct, because D->B->A already exists. `CycleCheck.DiamondClosesCycle` proves it.
- A node with two parents is emitted under both, so it appears twice in the export (`Hierarchy.FanInUnderBothParents`, `Hierarchy.FanInDuplicates`).
- The comment at `src/app/page.jsx:385` calls the roots "nodes with no children". The filter below it keeps the nodes that are no connection's `fromNode`, which is the child end, so the roots are the nodes without a parent (`Hierarchy.Roots`).
- The store in `page.tsx` creates connections without any cycle or self-loop check (`Store.GraphStore.CreateConnection`). Only the controller in `page.jsx` guards them.
- `handleUpdateNode` in `page.tsx` does not refresh the selected copy of the node (`Store.GraphStore.UpdateNode`).

## Findings

| source | as written | input that shows it | evidently intended | confidence | as-written member | corrected member |
|---|---|---|---|---|---|---|
| src/app/page.jsx:226-230 | the pan is subtracted from the canvas centre before the inverse transform, which subtracts it again | canvas 800 x 400, pan (100, 0), zoom 1: the node is placed at (200, 200) and drawn at (300, 200) | the node is drawn at the centre of the visible canvas, as `page.tsx:24-27` computes it: model point (300, 200) | not executed | Designer.CenterAsWritten, Designer.CenterAsWrittenExample | Store.ViewportCenter, Designer.Designer.AddNode |
| src/app/page.jsx:287-293 | the grab offset is the node-relative pointer position sent through the full inverse transform, pan included | pan (10, 0), zoom 1, node at (0, 0) grabbed at canvas point (20, 20): the first move without moving the pointer puts the node at (10, 0) | the grab offset is scaled by the zoom only, so the node stays under the pointer: (0, 0) | not executed | Designer.DragOffsetAsWritten, Designer.GrabThenDragExample | Designer.DragOffset, Designer.GrabThenDrag |

/** The cycle guard (src/app/canvasUtils.ts:43-61 and its unguarded twin in
    src/app/page.jsx:352-362), with its characterisation as reachability and
    the theorem that it is exactly what keeps the connection graph acyclic.

    A connection `c` is the edge c.fromNode -> c.toNode (child to parent). The
    guard walks it backwards: from node `n` to `c.fromNode` for every `c` with
    `c.toNode == n`; such a backward move is a `Step`. */
module CycleCheck {
  import opened Shapes

  /** Every id the search can move to, plus where it stands, minus what it saw. */
  function Unseen(cs: seq<Connection>, at: string, visited: set<string>): nat {
    |(FromIds(cs) + {at}) - visited|
  }

  lemma UnseenShrinks(cs: seq<Connection>, at: string, visited: set<string>, next: string)
    requires at !in visited && next in FromIds(cs)
    ensures Unseen(cs, next, visited + {at}) < Unseen(cs, at, visited)
  {
    var small := (FromIds(cs) + {next}) - (visited + {at});
    var big := (FromIds(cs) + {at}) - visited;
    var grown := small + {at};
    assert grown <= big;
    assert at !in small;
    assert |grown| == |small| + 1;
    assert big == grown + (big - grown);
    assert grown * (big - grown) == {};
  }

  /** `wouldCreateCycle(fromId, toId, connections, visited)` of canvasUtils.ts:
      empty ids give false, equal ids give true, a revisited id gives false,
      otherwise some connection into `fromId` leads on with its own copy of
      the visited set extended by `fromId`. */
  function WouldCreateCycle(fromId: string, toId: string, cs: seq<Connection>, visited: set<string>): (r: bool)
    ensures r ==> fromId != "" && toId != ""
    ensures fromId != "" && fromId == toId ==> r
    ensures r && fromId != toId ==> fromId !in visited && fromId in ToIds(cs)
    decreases Unseen(cs, fromId, visited)
  {
    if fromId == "" || toId == "" then false
    else if fromId == toId then true
    else if fromId in visited then false
    else
      exists i | 0 <= i < |cs| && cs[i].toNode == fromId ::
        (assert cs[i] in cs; UnseenShrinks(cs, fromId, visited, cs[i].fromNode);
         WouldCreateCycle(cs[i].fromNode, toId, cs, visited + {fromId}))
  }

  /** The same search as written in page.jsx: no guard against empty ids. */
  function WouldCreateCycleUnguarded(fromId: string, toId: string, cs: seq<Connection>, visited: set<string>): (r: bool)
    ensures fromId == toId ==> r
    ensures r && fromId != toId ==> fromId !in visited && fromId in ToIds(cs)
    decreases Unseen(cs, fromId, visited)
  {
    if fromId == toId then true
    else if fromId in visited then false
    else
      exists i | 0 <= i < |cs| && cs[i].toNode == fromId ::
        (assert cs[i] in cs; UnseenShrinks(cs, fromId, visited, cs[i].fromNode);
         WouldCreateCycleUnguarded(cs[i].fromNode, toId, cs, visited + {fromId}))
  }

  // ---------------------------------------------------------------------------
  // Walks

  /** One backward move: some connection has parent `n` and child `m`. */
  ghost predicate Step(cs: seq<Connection>, n: string, m: string) {
    exists c :: c in cs && c.toNode == n && c.fromNode == m
  }

  ghost predicate IsWalk(cs: seq<Connection>, p: seq<string>) {
    |p| >= 1 && forall i :: 0 <= i < |p| - 1 ==> Step(cs, p[i], p[i + 1])
  }

  ghost predicate WalkFrom(cs: seq<Connection>, p: seq<string>, a: string, b: string) {
    IsWalk(cs, p) && p[0] == a && p[|p| - 1] == b
  }

  ghost predicate NoEmpty(p: seq<string>) {
    forall i :: 0 <= i < |p| ==> p[i] != ""
  }

  ghost predicate Distinct(p: seq<string>) {
    forall i, j :: 0 <= i < j < |p| ==> p[i] != p[j]
  }

  /** `b` is reached from `a` by backward moves through non-empty ids only
      (zero moves when a == b). */
  ghost predicate Reaches(cs: seq<Connection>, a: string, b: string) {
    exists p :: WalkFrom(cs, p, a, b) && NoEmpty(p)
  }

  /** A walk of one move or more that returns to its start. */
  ghost predicate ClosedWalk(cs: seq<Connection>, p: seq<string>) {
    IsWalk(cs, p) && |p| >= 2 && p[0] == p[|p| - 1]
  }

  /** The graph has no directed cycle. */
  ghost predicate Acyclic(cs: seq<Connection>) {
    forall p :: !ClosedWalk(cs, p)
  }

  /** No connection end is the empty id. */
  predicate NamedEnds(cs: seq<Connection>) {
    forall c :: c in cs ==> c.fromNode != "" && c.toNode != ""
  }

  lemma WalkSlice(cs: seq<Connection>, p: seq<string>, i: int, j: int)
    requires IsWalk(cs, p) && 0 <= i < j <= |p|
    ensures IsWalk(cs, p[i..j])
  {
    var q := p[i..j];
    forall k | 0 <= k < |q| - 1 ensures Step(cs, q[k], q[k + 1]) {
      assert q[k] == p[i + k] && q[k + 1] == p[i + k + 1];
    }
  }

  lemma WalkConcat(cs: seq<Connection>, p: seq<string>, q: seq<string>)
    requires IsWalk(cs, p) && IsWalk(cs, q) && p[|p| - 1] == q[0]
    ensures IsWalk(cs, p + q[1..]) && |p + q[1..]| == |p| + |q| - 1
  {
    var r := p + q[1..];
    forall k | 0 <= k < |r| - 1 ensures Step(cs, r[k], r[k + 1]) {
      if k < |p| - 1 {
        assert r[k] == p[k] && r[k + 1] == p[k + 1];
      } else {
        var m := k - |p| + 1;
        assert r[k] == q[m] && r[k + 1] == q[m + 1];
      }
    }
  }

  /** A walk whose moves never leave `b` uses no connection into `b`, so it
      survives dropping the last connection when that one points into `b`. */
  lemma WalkWithoutLast(cs: seq<Connection>, c: Connection, p: seq<string>)
    requires IsWalk(cs + [c], p)
    requires forall k :: 0 <= k < |p| - 1 ==> p[k] != c.toNode
    ensures IsWalk(cs, p)
  {
    forall k | 0 <= k < |p| - 1 ensures Step(cs, p[k], p[k + 1]) {
      assert Step(cs + [c], p[k], p[k + 1]);
      var d :| d in cs + [c] && d.toNode == p[k] && d.fromNode == p[k + 1];
      assert d != c;
      assert d in cs;
    }
  }

  lemma WalkGrows(cs: seq<Connection>, more: seq<Connection>, p: seq<string>)
    requires IsWalk(cs, p)
    ensures IsWalk(cs + more, p)
  {
    forall k | 0 <= k < |p| - 1 ensures Step(cs + more, p[k], p[k + 1]) {
      assert Step(cs, p[k], p[k + 1]);
      var d :| d in cs && d.toNode == p[k] && d.fromNode == p[k + 1];
      assert d in cs + more;
    }
  }

  /** Any walk can be shortened to one without repeated ids. */
  lemma {:induction false} ShortestWalk(cs: seq<Connection>, p: seq<string>, a: string, b: string)
    returns (q: seq<string>)
    requires WalkFrom(cs, p, a, b) && NoEmpty(p)
    ensures WalkFrom(cs, q, a, b) && NoEmpty(q) && Distinct(q)
    decreases |p|
  {
    if Distinct(p) {
      q := p;
    } else {
      var i, j :| 0 <= i < j < |p| && p[i] == p[j];
      var shorter := p[..i + 1] + p[j + 1..];
      if j + 1 < |p| {
        WalkSlice(cs, p, 0, i + 1);
        WalkSlice(cs, p, j, |p|);
        assert p[j..][1..] == p[j + 1..];
        WalkConcat(cs, p[..i + 1], p[j..]);
        assert shorter == p[..i + 1] + p[j..][1..];
      } else {
        WalkSlice(cs, p, 0, i + 1);
        assert shorter == p[..i + 1];
      }
      assert shorter[0] == a;
      assert shorter[|shorter| - 1] == b;
      q := ShortestWalk(cs, shorter, a, b);
    }
  }

  // ---------------------------------------------------------------------------
  // Characterisation of the guard

  /** Soundness: a positive answer is backed by a walk from `fromId` to `toId`. */
  lemma {:induction false} CycleImpliesWalk(a: string, b: string, cs: seq<Connection>, visited: set<string>)
    returns (p: seq<string>)
    requires WouldCreateCycle(a, b, cs, visited)
    ensures a != "" && b != "" && WalkFrom(cs, p, a, b) && NoEmpty(p)
    decreases Unseen(cs, a, visited)
  {
    if a == b {
      p := [a];
    } else {
      var i :| 0 <= i < |cs| && cs[i].toNode == a && WouldCreateCycle(cs[i].fromNode, b, cs, visited + {a});
      assert cs[i] in cs;
      UnseenShrinks(cs, a, visited, cs[i].fromNode);
      var rest := CycleImpliesWalk(cs[i].fromNode, b, cs, visited + {a});
      assert Step(cs, a, rest[0]);
      p := [a] + rest;
      forall k | 0 <= k < |p| - 1 ensures Step(cs, p[k], p[k + 1]) {
        if k > 0 { assert p[k] == rest[k - 1] && p[k + 1] == rest[k]; }
      }
    }
  }

  /** Completeness: a repetition-free walk that avoids the visited ids (except
      possibly at its end) is found. */
  lemma {:induction false} WalkImpliesCycle(p: seq<string>, cs: seq<Connection>, visited: set<string>)
    requires IsWalk(cs, p) && NoEmpty(p) && Distinct(p)
    requires forall k :: 0 <= k < |p| - 1 ==> p[k] !in visited
    ensures WouldCreateCycle(p[0], p[|p| - 1], cs, visited)
    decreases |p|
  {
    var a, b := p[0], p[|p| - 1];
    if |p| > 1 {
      assert a != b;
      var c :| c in cs && c.toNode == a && c.fromNode == p[1];
      var i :| 0 <= i < |cs| && cs[i] == c;
      var rest := p[1..];
      WalkSlice(cs, p, 1, |p|);
      forall k | 0 <= k < |rest| - 1 ensures rest[k] !in visited + {a} {
        assert rest[k] == p[k + 1];
      }
      WalkImpliesCycle(rest, cs, visited + {a});
      assert WouldCreateCycle(cs[i].fromNode, b, cs, visited + {a});
    }
  }

  /** The guard answers true exactly when `toId` is reached from `fromId`
      (so `fromId == toId` is true and empty ids are false). */
  lemma WouldCreateCycleIff(a: string, b: string, cs: seq<Connection>)
    ensures WouldCreateCycle(a, b, cs, {}) <==> a != "" && b != "" && Reaches(cs, a, b)
  {
    if WouldCreateCycle(a, b, cs, {}) {
      var p := CycleImpliesWalk(a, b, cs, {});
    }
    if a != "" && b != "" && Reaches(cs, a, b) {
      var p :| WalkFrom(cs, p, a, b) && NoEmpty(p);
      var q := ShortestWalk(cs, p, a, b);
      WalkImpliesCycle(q, cs, {});
    }
  }

  /** Without the empty-id guards the search answers the same on named ids. */
  lemma {:induction false} UnguardedAgrees(a: string, b: string, cs: seq<Connection>, visited: set<string>)
    requires NamedEnds(cs) && a != "" && b != ""
    ensures WouldCreateCycleUnguarded(a, b, cs, visited) == WouldCreateCycle(a, b, cs, visited)
    decreases Unseen(cs, a, visited)
  {
    if a != b && a !in visited {
      forall i | 0 <= i < |cs| && cs[i].toNode == a
        ensures WouldCreateCycleUnguarded(cs[i].fromNode, b, cs, visited + {a})
             == WouldCreateCycle(cs[i].fromNode, b, cs, visited + {a})
      {
        assert cs[i] in cs;
        UnseenShrinks(cs, a, visited, cs[i].fromNode);
        UnguardedAgrees(cs[i].fromNode, b, cs, visited + {a});
      }
    }
  }

  /** The guards do matter on empty ids: two empty ids are a "cycle" only
      for the unguarded search. */
  lemma GuardsDiffer()
    ensures WouldCreateCycleUnguarded("", "", [], {})
    ensures !WouldCreateCycle("", "", [], {})
  {
  }

  // ---------------------------------------------------------------------------
  // Acyclicity

  /** First index before the end of `p` where `b` stands. */
  ghost function FirstAt(p: seq<string>, b: string): (k: nat)
    requires exists k :: 0 <= k < |p| - 1 && p[k] == b
    ensures k < |p| - 1 && p[k] == b
    ensures forall j :: 0 <= j < k ==> p[j] != b
  {
    if p[0] == b then 0
    else
      var k :| 0 <= k < |p| - 1 && p[k] == b;
      assert 0 <= k - 1 < |p[1..]| - 1 && p[1..][k - 1] == b;
      1 + FirstAt(p[1..], b)
  }

  /** Last index before the end of `p` where `b` stands. */
  ghost function LastAt(p: seq<string>, b: string): (k: nat)
    requires exists k :: 0 <= k < |p| - 1 && p[k] == b
    ensures k < |p| - 1 && p[k] == b
    ensures forall j :: k < j < |p| - 1 ==> p[j] != b
    decreases |p|
  {
    if p[|p| - 2] == b then |p| - 2
    else
      var k :| 0 <= k < |p| - 1 && p[k] == b;
      var q := p[..|p| - 1];
      assert 0 <= k < |q| - 1 && q[k] == b;
      LastAt(q, b)
  }

  /** Every id on a walk of one move or more is the end of some connection. */
  lemma WalkIdsNamed(cs: seq<Connection>, p: seq<string>)
    requires IsWalk(cs, p) && |p| >= 2 && NamedEnds(cs)
    ensures NoEmpty(p)
  {
    forall k | 0 <= k < |p| ensures p[k] != "" {
      var j := if k < |p| - 1 then k else k - 1;
      assert Step(cs, p[j], p[j + 1]);
      var d :| d in cs && d.toNode == p[j] && d.fromNode == p[j + 1];
    }
  }

  /** Appending the edge a -> b to an acyclic graph keeps it acyclic exactly
      when the guard answers false. */
  lemma AddKeepsAcyclic(cs: seq<Connection>, c: Connection)
    requires Acyclic(cs) && NamedEnds(cs) && c.fromNode != "" && c.toNode != ""
    ensures Acyclic(cs + [c]) <==> !WouldCreateCycle(c.fromNode, c.toNode, cs, {})
  {
    var a, b := c.fromNode, c.toNode;
    var cs' := cs + [c];
    assert NamedEnds(cs');
    WouldCreateCycleIff(a, b, cs);
    if WouldCreateCycle(a, b, cs, {}) {
      // a walk a ..> b, closed by the new move b -> a
      var p :| WalkFrom(cs, p, a, b) && NoEmpty(p);
      WalkGrows(cs, [c], p);
      assert Step(cs', b, a) by { assert c in cs'; }
      assert IsWalk(cs', [b, a]);
      WalkConcat(cs', p, [b, a]);
      assert (p + [b, a][1..])[0] == a;
      assert ClosedWalk(cs', p + [b, a][1..]);
    } else {
      forall p ensures !ClosedWalk(cs', p) {
        if ClosedWalk(cs', p) {
          ClosedWalkBroken(cs, c, p);
        }
      }
    }
  }

  /** The part of a walk of the extended graph up to the first stop at `b`
      is a walk of the old graph. */
  lemma OldPrefix(cs: seq<Connection>, c: Connection, p: seq<string>, j: nat)
    requires IsWalk(cs + [c], p) && j < |p| && p[j] == c.toNode
    requires forall t :: 0 <= t < j ==> p[t] != c.toNode
    ensures WalkFrom(cs, p[..j + 1], p[0], c.toNode)
  {
    WalkSlice(cs + [c], p, 0, j + 1);
    var pre := p[..j + 1];
    forall t | 0 <= t < |pre| - 1 ensures pre[t] != c.toNode { assert pre[t] == p[t]; }
    WalkWithoutLast(cs, c, pre);
  }

  /** The part of a walk of the extended graph after its last stop at `b`
      is a walk of the old graph. */
  lemma OldSuffix(cs: seq<Connection>, c: Connection, p: seq<string>, k: nat)
    requires IsWalk(cs + [c], p) && k < |p| - 1
    requires forall t :: k < t < |p| - 1 ==> p[t] != c.toNode
    ensures WalkFrom(cs, p[k + 1..], p[k + 1], p[|p| - 1])
  {
    WalkSlice(cs + [c], p, k + 1, |p|);
    var post := p[k + 1..];
    forall t | 0 <= t < |post| - 1 ensures post[t] != c.toNode { assert post[t] == p[k + 1 + t]; }
    WalkWithoutLast(cs, c, post);
  }

  /** A closed walk in the extended graph either is a closed walk of the old
      graph or yields a walk a ..> b in the old graph. */
  lemma ClosedWalkBroken(cs: seq<Connection>, c: Connection, p: seq<string>)
    requires Acyclic(cs) && NamedEnds(cs) && c.fromNode != "" && c.toNode != ""
    requires IsWalk(cs + [c], p) && |p| >= 2 && p[0] == p[|p| - 1]
    ensures Reaches(cs, c.fromNode, c.toNode)
  {
    var b := c.toNode;
    if forall k :: 0 <= k < |p| - 1 ==> p[k] != b {
      WalkWithoutLast(cs, c, p);
      NotClosed(cs, p);
      assert false;
    }
    var j := FirstAt(p, b);
    var k := LastAt(p, b);
    OldPrefix(cs, c, p, j);
    OldSuffix(cs, c, p, k);
    var pre, post := p[..j + 1], p[k + 1..];
    WalkConcat(cs, post, pre);
    var joined := post + pre[1..];
    assert WalkFrom(cs, joined, p[k + 1], b);
    if p[k + 1] == c.fromNode {
      WalkReaches(cs, joined, c.fromNode, b);
    } else {
      MoveFromBIsOld(cs, c, p, k);
      LoopThroughB(cs, joined, b);
    }
  }

  /** In a graph without cycles no walk of one move or more returns to its start. */
  lemma NotClosed(cs: seq<Connection>, p: seq<string>)
    requires Acyclic(cs) && IsWalk(cs, p) && |p| >= 2
    ensures p[0] != p[|p| - 1]
  {
    assert !ClosedWalk(cs, p);
  }

  /** A walk between non-empty ids of a graph with named ends witnesses `Reaches`. */
  lemma WalkReaches(cs: seq<Connection>, p: seq<string>, a: string, b: string)
    requires NamedEnds(cs) && WalkFrom(cs, p, a, b) && a != ""
    ensures Reaches(cs, a, b)
  {
    if |p| >= 2 { WalkIdsNamed(cs, p); }
  }

  /** A move out of `b` followed by a walk back to `b` is a cycle. */
  lemma LoopThroughB(cs: seq<Connection>, q: seq<string>, b: string)
    requires IsWalk(cs, q) && q[|q| - 1] == b && Step(cs, b, q[0])
    ensures !Acyclic(cs)
  {
    assert IsWalk(cs, [b, q[0]]);
    WalkConcat(cs, [b, q[0]], q);
    var loop := [b, q[0]] + q[1..];
    assert loop[0] == b && loop[|loop| - 1] == b && |loop| >= 2;
    assert ClosedWalk(cs, loop);
  }

  /** A move out of `b` that does not land on `a` is not the new edge. */
  lemma MoveFromBIsOld(cs: seq<Connection>, c: Connection, p: seq<string>, k: nat)
    requires IsWalk(cs + [c], p) && k < |p| - 1 && p[k] == c.toNode && p[k + 1] != c.fromNode
    ensures Step(cs, p[k], p[k + 1])
  {
    assert Step(cs + [c], p[k], p[k + 1]);
    var d :| d in cs + [c] && d.toNode == p[k] && d.fromNode == p[k + 1];
    assert d in cs;
  }

  /** Dropping connections never creates a cycle. */
  lemma SubsetKeepsAcyclic(cs: seq<Connection>, sub: seq<Connection>)
    requires Acyclic(cs) && forall d :: d in sub ==> d in cs
    ensures Acyclic(sub)
  {
    forall p | ClosedWalk(sub, p) ensures false {
      forall k | 0 <= k < |p| - 1 ensures Step(cs, p[k], p[k + 1]) {
        assert Step(sub, p[k], p[k + 1]);
        var d :| d in sub && d.toNode == p[k] && d.fromNode == p[k + 1];
      }
      assert ClosedWalk(cs, p);
    }
  }

  /** Without connections there is no move to make, so no cycle. */
  lemma EmptyAcyclic()
    ensures Acyclic([])
  {
    forall p: seq<string> ensures !ClosedWalk([], p) {
      if |p| >= 2 {
        assert !Step([], p[0], p[1]);
      }
    }
  }

  /** A connection from a node to itself is a cycle. */
  lemma SelfLoopIsCycle(cs: seq<Connection>, c: Connection)
    requires c in cs && c.fromNode == c.toNode
    ensures !Acyclic(cs)
  {
    var p := [c.toNode, c.fromNode];
    assert Step(cs, p[0], p[1]);
    assert ClosedWalk(cs, p);
  }

  /** Rewriting the cached points of connections, ends untouched, never creates a cycle. */
  lemma SameEndsKeepAcyclic(cs: seq<Connection>, cs': seq<Connection>)
    requires Acyclic(cs) && |cs'| == |cs|
    requires forall i :: 0 <= i < |cs| ==> cs'[i].fromNode == cs[i].fromNode && cs'[i].toNode == cs[i].toNode
    ensures Acyclic(cs')
  {
    forall p | ClosedWalk(cs', p) ensures false {
      forall k | 0 <= k < |p| - 1 ensures Step(cs, p[k], p[k + 1]) {
        assert Step(cs', p[k], p[k + 1]);
        var d :| d in cs' && d.toNode == p[k] && d.fromNode == p[k + 1];
        var i :| 0 <= i < |cs'| && cs'[i] == d;
        assert cs[i] in cs;
      }
      assert ClosedWalk(cs, p);
    }
  }

  // ---------------------------------------------------------------------------
  // The diamond: B -> A, C -> A, D -> B, D -> C

  function Edge(child: string, parent: string): Connection {
    Connection(child + "->" + parent, child, parent, Point(0.0, 0.0), Point(0.0, 0.0), ParentChild)
  }

  function Diamond(): seq<Connection> {
    [Edge("B", "A"), Edge("C", "A"), Edge("D", "B"), Edge("D", "C")]
  }

  /** Nothing is reached from an id that is nobody's parent, except itself. */
  lemma NoParentReachesNothing(cs: seq<Connection>, a: string, b: string)
    requires a != b && a !in ToIds(cs)
    ensures !WouldCreateCycle(a, b, cs, {})
  {
    WouldCreateCycleIff(a, b, cs);
    ReachingIsParent(cs, a, b);
  }

  /** Only a parent end of some connection reaches another id. */
  lemma ReachingIsParent(cs: seq<Connection>, a: string, b: string)
    ensures Reaches(cs, a, b) ==> a == b || a in ToIds(cs)
  {
    if Reaches(cs, a, b) {
      var p :| WalkFrom(cs, p, a, b) && NoEmpty(p);
      if |p| >= 2 {
        assert Step(cs, p[0], p[1]);
        var d :| d in cs && d.toNode == p[0] && d.fromNode == p[1];
      }
    }
  }

  /** An id that is nobody's child is reached from nowhere else. */
  lemma NoChildIsUnreached(cs: seq<Connection>, a: string, b: string)
    requires a != b && b !in FromIds(cs)
    ensures !WouldCreateCycle(a, b, cs, {})
  {
    WouldCreateCycleIff(a, b, cs);
    ReachedIsChild(cs, a, b);
  }

  /** Only a child end of some connection is reached from another id. */
  lemma ReachedIsChild(cs: seq<Connection>, a: string, b: string)
    ensures Reaches(cs, a, b) ==> a == b || b in FromIds(cs)
  {
    if Reaches(cs, a, b) {
      var p :| WalkFrom(cs, p, a, b) && NoEmpty(p);
      if |p| >= 2 { WalkEndsAtChild(cs, p); }
    }
  }

  /** A walk of one move or more ends at the child end of some connection. */
  lemma WalkEndsAtChild(cs: seq<Connection>, p: seq<string>)
    requires IsWalk(cs, p) && |p| >= 2
    ensures p[|p| - 1] in FromIds(cs)
  {
    assert Step(cs, p[|p| - 2], p[|p| - 1]);
  }

  /** On the diamond, asking to add A -> D is (rightly) a cycle: D -> B -> A exists. */
  lemma DiamondClosesCycle()
    ensures WouldCreateCycle("A", "D", Diamond(), {})
  {
    var cs := Diamond();
    assert Step(cs, "A", "B") by { assert cs[0] in cs; }
    assert Step(cs, "B", "D") by { assert cs[2] in cs; }
    var p := ["A", "B", "D"];
    assert IsWalk(cs, p);
    WalkImpliesCycle(p, cs, {});
  }

  /** On the diamond, D -> A adds a second route but no cycle, and the search
      for an id nobody reaches answers false although it explores D twice. */
  lemma DiamondNoFalseCycle()
    ensures !WouldCreateCycle("D", "A", Diamond(), {})
    ensures !WouldCreateCycle("A", "E", Diamond(), {})
  {
    assert "D" !in ToIds(Diamond());
    NoParentReachesNothing(Diamond(), "D", "A");
    assert "E" !in FromIds(Diamond());
    NoChildIsUnreached(Diamond(), "A", "E");
  }
}

/** Record shapes shared by the canvas: points, nodes, connections, and the
    small helpers over node and connection lists that every other module uses. */
module Shapes {

  datatype Option<+T> = None | Some(value: T)

  /** A point in model space (or screen space, where a caller says so). */
  datatype Point = Point(x: real, y: real)

  /** The two anchor bars of a node. */
  datatype Role = Parent | Child

  /** `config` of a node: its catalog type and category and the open property
      mapping (values are kept as text; the core never interprets them). */
  datatype NodeConfig = NodeConfig(resourceType: string, category: string, properties: map<string, string>)

  datatype Node = Node(id: string, resourceType: string, name: string, position: Point, config: NodeConfig)

  /** A directed edge: `fromNode` is the child end, `toNode` the parent end. */
  datatype Connection = Connection(
    id: string,
    fromNode: string,
    toNode: string,
    fromPoint: Point,
    toPoint: Point,
    kind: string)

  const ParentChild: string := "parent-child"

  /** The catalog entry a new node is created from: only `name` and `category` are read. */
  datatype CatalogEntry = CatalogEntry(name: string, category: string)

  function NodeIds(nodes: seq<Node>): set<string> {
    set n | n in nodes :: n.id
  }

  /** Every id that occurs as the child end of some connection. */
  function FromIds(cs: seq<Connection>): set<string> {
    set c | c in cs :: c.fromNode
  }

  /** Every id that occurs as the parent end of some connection. */
  function ToIds(cs: seq<Connection>): set<string> {
    set c | c in cs :: c.toNode
  }

  predicate UniqueIds(nodes: seq<Node>) {
    forall i, j :: 0 <= i < j < |nodes| ==> nodes[i].id != nodes[j].id
  }

  predicate NonEmptyIds(nodes: seq<Node>) {
    forall n :: n in nodes ==> n.id != ""
  }

  /** Referential integrity: both ends of every connection name an existing node. */
  predicate Integrity(nodes: seq<Node>, cs: seq<Connection>) {
    forall c :: c in cs ==> c.fromNode in NodeIds(nodes) && c.toNode in NodeIds(nodes)
  }

  /** `nodes.find(n => n.id === id)`: the first node carrying `id`, if any. */
  function Find(nodes: seq<Node>, id: string): (r: Option<Node>)
    ensures r.None? <==> id !in NodeIds(nodes)
    ensures r.Some? ==> r.value in nodes && r.value.id == id
  {
    if |nodes| == 0 then None
    else if nodes[0].id == id then Some(nodes[0])
    else
      var r := Find(nodes[1..], id);
      assert NodeIds(nodes) == {nodes[0].id} + NodeIds(nodes[1..]) by {
        assert nodes == [nodes[0]] + nodes[1..];
      }
      r
  }

  /** `Find` returns the first node carrying the id: every node before it
      carries another id. */
  lemma {:induction false} FindFirst(nodes: seq<Node>, id: string) returns (i: nat)
    requires id in NodeIds(nodes)
    ensures i < |nodes| && Find(nodes, id) == Some(nodes[i])
    ensures forall j :: 0 <= j < i ==> nodes[j].id != id
  {
    if nodes[0].id == id {
      i := 0;
    } else {
      IdsCons(nodes);
      var k := FindFirst(nodes[1..], id);
      i := k + 1;
      forall j | 0 <= j < i ensures nodes[j].id != id {
        if j > 0 { assert nodes[j] == nodes[1..][j - 1]; }
      }
    }
  }

  /** With unique ids, `Find` returns the very node carrying the id. */
  lemma {:induction false} FindUnique(nodes: seq<Node>, i: nat)
    requires UniqueIds(nodes) && i < |nodes|
    ensures Find(nodes, nodes[i].id) == Some(nodes[i])
  {
    if i > 0 {
      assert nodes[0].id != nodes[i].id;
      FindUnique(nodes[1..], i - 1);
    }
  }

  /** Appending a node does not change the lookup of an id already present. */
  lemma {:induction false} FindAppend(nodes: seq<Node>, n: Node, x: string)
    requires x in NodeIds(nodes)
    ensures Find(nodes + [n], x) == Find(nodes, x)
  {
    if nodes[0].id != x {
      IdsCons(nodes);
      assert (nodes + [n])[1..] == nodes[1..] + [n];
      FindAppend(nodes[1..], n, x);
    }
  }

  /** The ids of a non-empty list: its head's id and the ids of its tail. */
  lemma IdsCons(nodes: seq<Node>)
    requires |nodes| > 0
    ensures NodeIds(nodes) == {nodes[0].id} + NodeIds(nodes[1..])
  {
    assert nodes == [nodes[0]] + nodes[1..];
  }

  /** Ids are unique in a non-empty list exactly when the head's id is not in
      the tail and the tail's ids are unique. */
  lemma UniqueCons(nodes: seq<Node>)
    requires |nodes| > 0
    ensures UniqueIds(nodes) <==> nodes[0].id !in NodeIds(nodes[1..]) && UniqueIds(nodes[1..])
  {
    var t := nodes[1..];
    if UniqueIds(nodes) {
      forall n | n in t ensures n.id != nodes[0].id {
        var j :| 0 <= j < |t| && t[j] == n;
        assert nodes[j + 1] == n;
      }
      forall i, j | 0 <= i < j < |t| ensures t[i].id != t[j].id {
        assert t[i] == nodes[i + 1] && t[j] == nodes[j + 1];
      }
    }
    if nodes[0].id !in NodeIds(t) && UniqueIds(t) {
      forall i, j | 0 <= i < j < |nodes| ensures nodes[i].id != nodes[j].id {
        if i == 0 {
          assert nodes[j] == t[j - 1];
        } else {
          assert nodes[i] == t[i - 1] && nodes[j] == t[j - 1];
        }
      }
    }
  }

  /** `a` is `b` with some elements left out, the rest kept in order. */
  predicate Subsequence<T(==)>(a: seq<T>, b: seq<T>)
    decreases |b|
  {
    if |a| == 0 then true
    else if |b| == 0 then false
    else if a[0] == b[0] then Subsequence(a[1..], b[1..])
    else Subsequence(a, b[1..])
  }

  /** `n.toString()` for a natural number, in decimal: digits that spell
      `n`, with no leading zero unless `n` is zero. */
  function NatToString(n: nat): (s: string)
    ensures |s| > 0
    ensures forall k :: 0 <= k < |s| ==> '0' <= s[k] <= '9'
    ensures DecimalValue(s) == n
    ensures s[0] == '0' ==> s == "0"
  {
    if n < 10 then [DigitChar(n)]
    else
      var s := NatToString(n / 10) + [DigitChar(n % 10)];
      assert s[..|s| - 1] == NatToString(n / 10);
      s
  }

  function DigitChar(d: nat): (c: char)
    requires d < 10
    ensures '0' <= c <= '9' && DigitValue(c) == d
  {
    ('0' as int + d) as char
  }

  function DigitValue(c: char): int {
    c as int - '0' as int
  }

  /** The number a string of decimal digits spells, most significant first. */
  function DecimalValue(s: string): int {
    if |s| == 0 then 0 else DecimalValue(s[..|s| - 1]) * 10 + DigitValue(s[|s| - 1])
  }
}

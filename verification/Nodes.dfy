/** The `cJSON` node, and the ghost trees that say what hangs below one. */
module Nodes {
  import opened Bytes
  import opened Memory

  // `type & 255`; the reference bit is a field of its own.
  datatype Kind = KindFalse | KindTrue | KindNull | KindNumber | KindString | KindArray | KindObject

  class Node {
    var next: Node?
    var prev: Node?
    var child: Node?
    var kind: Kind
    var isReference: bool
    var valuestring: array?<Byte>
    var valueint: int
    var valuedouble: real
    var name: array?<Byte>

    // `cJSON_New_Item`: everything zero, and zero is the type `false`.
    constructor ()
      ensures next == null && prev == null && child == null && kind == KindFalse && !isReference
      ensures valuestring == null && valueint == 0 && valuedouble == 0.0 && name == null
    {
      next, prev, child, kind, isReference := null, null, null, KindFalse, false;
      valuestring, valueint, valuedouble, name := null, 0, 0.0, null;
    }
  }

  method NewItem(mem: Heap) returns (n: Node)
    modifies mem
    ensures fresh(n) && mem.live == old(mem.live) + {n}
    ensures n.next == null && n.prev == null && n.child == null && n.kind == KindFalse && !n.isReference
    ensures n.valuestring == null && n.valueint == 0 && n.valuedouble == 0.0 && n.name == null
  {
    n := new Node();
    mem.Own(n);
  }

  // A string field: the block it points at and the text in there.
  datatype Str = Absent | Present(block: array<Byte>, text: Text)

  // A node, what its fields are to be, and its children in order. A reference
  // node owns neither the children nor the string it points at, so an owning
  // tree has none for it.
  datatype Tree = Tree(
    node: Node, kind: Kind, isReference: bool, value: Str, valueint: int, valuedouble: real, name: Str, kids: seq<Tree>)

  // ----- What a tree consists of -----

  function BlockOf(s: Str): set<array<Byte>> {
    match s
    case Absent => {}
    case Present(b, _) => {b}
  }

  function NodesOf(t: Tree): set<Node> {
    {t.node} + NodesOfAll(t.kids)
  }

  function NodesOfAll(ts: seq<Tree>): set<Node> {
    if ts == [] then {} else NodesOf(ts[0]) + NodesOfAll(ts[1..])
  }

  function BlocksOf(t: Tree): set<array<Byte>> {
    BlockOf(t.value) + BlockOf(t.name) + BlocksOfAll(t.kids)
  }

  function BlocksOfAll(ts: seq<Tree>): set<array<Byte>> {
    if ts == [] then {} else BlocksOf(ts[0]) + BlocksOfAll(ts[1..])
  }

  predicate Apart(s: seq<Tree>, t: seq<Tree>) {
    NodesOfAll(s) !! NodesOfAll(t) && BlocksOfAll(s) !! BlocksOfAll(t)
  }

  // No node and no block occurs twice.
  predicate Separate(t: Tree) {
    && t.node !in NodesOfAll(t.kids)
    && BlockOf(t.value) !! BlockOf(t.name)
    && BlockOf(t.value) + BlockOf(t.name) !! BlocksOfAll(t.kids)
    && SeparateAll(t.kids)
  }

  predicate SeparateAll(ts: seq<Tree>) {
    ts == [] ||
    (&& Separate(ts[0]) && SeparateAll(ts[1..])
     && NodesOf(ts[0]) !! NodesOfAll(ts[1..]) && BlocksOf(ts[0]) !! BlocksOfAll(ts[1..]))
  }

  lemma NodesOfOne(t: Tree)
    ensures NodesOfAll([t]) == NodesOf(t) && BlocksOfAll([t]) == BlocksOf(t)
  {
  }

  lemma {:induction false} NodesOfJoin(a: seq<Tree>, b: seq<Tree>)
    ensures NodesOfAll(a + b) == NodesOfAll(a) + NodesOfAll(b)
    ensures BlocksOfAll(a + b) == BlocksOfAll(a) + BlocksOfAll(b)
  {
    if a == [] {
      assert a + b == b;
    } else {
      NodesOfJoin(a[1..], b);
      assert (a + b)[1..] == a[1..] + b;
    }
  }

  lemma {:induction false} SeparateJoin(a: seq<Tree>, b: seq<Tree>)
    ensures SeparateAll(a + b) <==> SeparateAll(a) && SeparateAll(b) && Apart(a, b)
  {
    if a == [] {
      assert a + b == b;
    } else {
      SeparateJoin(a[1..], b);
      NodesOfJoin(a[1..], b);
      assert (a + b)[1..] == a[1..] + b;
    }
  }

  // ----- The heap agrees with a tree -----

  ghost predicate StrIs(p: array?<Byte>, s: Str)
    reads BlockOf(s)
  {
    match s
    case Absent => p == null
    case Present(b, text) => p == b && Holds(b, text)
  }

  function First(ts: seq<Tree>, end: Node?): Node? {
    if ts == [] then end else ts[0].node
  }

  function Last(ts: seq<Tree>, before: Node?): Node? {
    if ts == [] then before else ts[|ts| - 1].node
  }

  ghost predicate ScalarsAre(t: Tree)
    reads t.node`kind, t.node`isReference, t.node`valueint, t.node`valuedouble, t.node`name, BlockOf(t.name)
  {
    && t.node.kind == t.kind && t.node.isReference == t.isReference
    && t.node.valueint == t.valueint && t.node.valuedouble == t.valuedouble
    && StrIs(t.node.name, t.name)
  }

  // `t` is what `t.node` owns.
  ghost predicate Linked(t: Tree)
    reads NodesOf(t), BlocksOf(t)
    decreases t, 0
  {
    && ScalarsAre(t)
    && (if t.isReference then t.kids == [] && t.value == Absent
        else StrIs(t.node.valuestring, t.value) && t.node.child == First(t.kids, null) && Segment(t.kids, null, null))
  }

  // `ts` are linked one after the other, behind `before` and in front of `end`.
  ghost predicate Segment(ts: seq<Tree>, before: Node?, end: Node?)
    reads NodesOfAll(ts), BlocksOfAll(ts)
    decreases ts, 0
  {
    ts == [] ||
    (&& Linked(ts[0]) && ts[0].node.prev == before && ts[0].node.next == First(ts[1..], end)
     && Segment(ts[1..], ts[0].node, end))
  }

  lemma {:induction false} SegmentJoin(a: seq<Tree>, b: seq<Tree>, before: Node?, end: Node?)
    ensures Segment(a + b, before, end) <==> Segment(a, before, First(b, end)) && Segment(b, Last(a, before), end)
  {
    if a == [] {
      assert a + b == b;
    } else {
      SegmentJoin(a[1..], b, a[0].node, end);
      assert (a + b)[1..] == a[1..] + b;
      assert Last(a, before) == Last(a[1..], a[0].node);
    }
  }

  // `t` is what a reader finds below `t.node`, through reference nodes too.
  ghost predicate View(t: Tree)
    reads NodesOf(t), BlocksOf(t)
    decreases t, 0
  {
    && ScalarsAre(t) && StrIs(t.node.valuestring, t.value)
    && t.node.child == First(t.kids, null) && ViewAll(t.kids)
  }

  ghost predicate ViewAll(ts: seq<Tree>)
    reads NodesOfAll(ts), BlocksOfAll(ts)
    decreases ts, 0
  {
    ts == [] || (View(ts[0]) && ts[0].node.next == First(ts[1..], null) && ViewAll(ts[1..]))
  }

  predicate NoReferences(t: Tree) {
    !t.isReference && NoReferencesAll(t.kids)
  }

  predicate NoReferencesAll(ts: seq<Tree>) {
    ts == [] || (NoReferences(ts[0]) && NoReferencesAll(ts[1..]))
  }

  // Without reference nodes, what a node owns is what a reader finds.
  lemma {:induction false} OwnerIsReader(t: Tree)
    requires NoReferences(t) && Linked(t)
    ensures View(t)
    decreases t, 0
  {
    OwnersAreReaders(t.kids, null);
  }

  lemma {:induction false} OwnersAreReaders(ts: seq<Tree>, before: Node?)
    requires NoReferencesAll(ts) && Segment(ts, before, null)
    ensures ViewAll(ts)
    decreases ts, 0
  {
    if ts == [] {
    } else {
      OwnerIsReader(ts[0]);
      OwnersAreReaders(ts[1..], ts[0].node);
    }
  }
}

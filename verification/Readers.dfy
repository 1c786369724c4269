/** What a reader finds in a list after an item was appended to it, when the
    list may hold reference nodes that lead into other trees. */
module Readers {
  import opened Bytes
  import opened Nodes
  import opened ChildLists

  // A chain of siblings as a reader finds it, in front of `end`.
  ghost predicate ChainTo(ts: seq<Tree>, end: Node?)
    reads NodesOfAll(ts), BlocksOfAll(ts)
  {
    ts == [] || (View(ts[0]) && ts[0].node.next == First(ts[1..], end) && ChainTo(ts[1..], end))
  }

  lemma {:induction false} ChainToTheEnd(ts: seq<Tree>)
    ensures ChainTo(ts, null) <==> ViewAll(ts)
  {
    if ts == [] {
    } else {
      ChainToTheEnd(ts[1..]);
    }
  }

  lemma {:induction false} ChainJoin(a: seq<Tree>, b: seq<Tree>, end: Node?)
    ensures ChainTo(a + b, end) <==> ChainTo(a, First(b, end)) && ChainTo(b, end)
  {
    if a == [] {
      assert a + b == b;
    } else {
      ChainJoin(a[1..], b, end);
      assert (a + b)[1..] == a[1..] + b;
    }
  }

  // Owner and reader walk along the same siblings.
  lemma {:induction false} SameChain(ts: seq<Tree>, vs: seq<Tree>, before: Node?)
    requires Segment(ts, before, null) && ViewAll(vs) && First(ts, null) == First(vs, null)
    ensures |ts| == |vs| && LastNode(ts) == LastNode(vs)
  {
    if ts == [] {
      assert vs == [];
    } else {
      assert vs != [] && ts[0].node == vs[0].node;
      SameChain(ts[1..], vs[1..], ts[0].node);
      assert ts[1..] == [] || LastNode(ts) == LastNode(ts[1..]);
      assert vs[1..] == [] || LastNode(vs) == LastNode(vs[1..]);
    }
  }

  // No path from a child leads back to the parent or to the last child, whose
  // links an append sets.
  predicate EndsOnce(v: Tree) {
    v.node !in NodesOfAll(v.kids) && (v.kids != [] ==> LastOnce(v.kids[..|v.kids| - 1], v.kids[|v.kids| - 1]))
  }

  predicate LastOnce(front: seq<Tree>, l: Tree) {
    l.node !in NodesOfAll(front) && l.node !in NodesOfAll(l.kids)
  }

  // The nodes that an append to `v` changes.
  function Touched(v: Tree, item: Node): set<Node> {
    {v.node, item} + LastNode(v.kids)
  }

  ghost predicate TextIn(s: Str)
    reads BlockOf(s)
  {
    match s
    case Absent => true
    case Present(b, text) => Holds(b, text)
  }

  ghost predicate TextsIn(t: Tree)
    reads BlockOf(t.name), BlockOf(t.value)
  {
    TextIn(t.name) && TextIn(t.value)
  }

  // What a reader finds below the parent `v`, its last child `l` and the new
  // item `w`, and in the strings of these three.
  ghost predicate Below(v: Tree, front: seq<Tree>, l: Tree, w: Tree, nodes: set<Node>, blocks: set<array<Byte>>)
    reads nodes, blocks
  {
    && NodesOfAll(front) + NodesOfAll(l.kids) + NodesOfAll(w.kids) <= nodes
    && BlocksOf(v) + BlocksOfAll(front) + BlocksOf(l) + BlocksOf(w) <= blocks
    && TextsIn(v) && TextsIn(l) && TextsIn(w)
    && ChainTo(front, l.node) && ViewAll(l.kids) && ViewAll(w.kids)
  }

  function PointerTo(s: Str): array?<Byte> {
    match s
    case Absent => null
    case Present(b, _) => b
  }

  // The fields of a node that an append leaves alone.
  ghost predicate FieldsAre(t: Tree)
    reads t.node`kind, t.node`isReference, t.node`valueint, t.node`valuedouble, t.node`name, t.node`valuestring
  {
    && t.node.kind == t.kind && t.node.isReference == t.isReference
    && t.node.valueint == t.valueint && t.node.valuedouble == t.valuedouble
    && t.node.name == PointerTo(t.name) && t.node.valuestring == PointerTo(t.value)
  }

  // Appending changes links and nothing else.
  method AppendBeside(parent: Node, item: Node, ghost t: Tree, ghost x: Tree, ghost v: Tree, ghost front: seq<Tree>,
      ghost l: Tree, ghost w: Tree, ghost nodes: set<Node>, ghost blocks: set<array<Byte>>)
    requires parent == t.node && !t.isReference && Linked(t) && Separate(t)
    requires item == x.node && item.next == null && item.prev == null && Linked(x) && Separate(x)
    requires NodesOf(t) !! NodesOf(x) && BlocksOf(t) !! BlocksOf(x)
    requires {parent, item} + LastNode(t.kids) !! nodes
    modifies parent`child, item`prev, LastNode(t.kids)`next
    ensures Linked(Grown(t, x)) && Separate(Grown(t, x))
    ensures Below(v, front, l, w, nodes, blocks) <==> old(Below(v, front, l, w, nodes, blocks))
  {
    AddItemToArray(parent, item, t, x);
  }

  lemma ViewParts(t: Tree)
    ensures View(t) <==> FieldsAre(t) && TextsIn(t) && t.node.child == First(t.kids, null) && ViewAll(t.kids)
  {
  }

  // All children but the last, and the last one; `w` stands in for a missing one.
  function Front(v: Tree): seq<Tree> {
    if v.kids == [] then [] else v.kids[..|v.kids| - 1]
  }

  function LastKid(v: Tree, w: Tree): Tree {
    if v.kids == [] then w else v.kids[|v.kids| - 1]
  }

  lemma TakenApart(v: Tree, w: Tree) returns (nodes: set<Node>, blocks: set<array<Byte>>)
    requires View(v) && View(w)
    ensures var front, l := Front(v), LastKid(v, w);
            && nodes == NodesOfAll(front) + NodesOfAll(l.kids) + NodesOfAll(w.kids)
            && Below(v, front, l, w, nodes, blocks)
            && FieldsAre(v) && FieldsAre(l) && FieldsAre(w)
            && w.node.child == First(w.kids, null) && l.node.child == First(l.kids, null)
  {
    var front, l := Front(v), LastKid(v, w);
    nodes := NodesOfAll(front) + NodesOfAll(l.kids) + NodesOfAll(w.kids);
    blocks := BlocksOf(v) + BlocksOfAll(front) + BlocksOf(l) + BlocksOf(w);
    ViewParts(v);
    ViewParts(w);
    ViewParts(l);
    if v.kids != [] {
      assert v.kids == front + [l];
      ChainToTheEnd(v.kids);
      ChainJoin(front, [l], null);
    }
  }

  lemma PutTogether(v: Tree, w: Tree, nodes: set<Node>, blocks: set<array<Byte>>)
    requires v.node.child == First(v.kids + [w], null) && w.node.child == First(w.kids, null) && w.node.next == null
    requires v.kids != [] ==>
               var l := LastKid(v, w);
               l.node.next == w.node && l.node.child == First(l.kids, null)
    ensures var l := LastKid(v, w);
            Below(v, Front(v), l, w, nodes, blocks) && FieldsAre(v) && FieldsAre(l) && FieldsAre(w)
            ==> View(Grown(v, w))
  {
    var front, l := Front(v), LastKid(v, w);
    ViewParts(w);
    ViewParts(l);
    if v.kids == [] {
      assert v.kids + [w] == [w];
    } else {
      assert v.kids == front + [l];
      ChainJoin(front, [l], w.node);
      ChainJoin(v.kids, [w], null);
      ChainToTheEnd(v.kids + [w]);
    }
    ViewParts(Grown(v, w));
  }

  lemma TouchedApart(v: Tree, w: Tree, item: Node)
    requires EndsOnce(v) && item !in NodesOf(v) && NodesOfAll(w.kids) !! Touched(v, item)
    ensures Touched(v, item) !! NodesOfAll(Front(v)) + NodesOfAll(LastKid(v, w).kids) + NodesOfAll(w.kids)
    ensures w.node != v.node ==> LastKid(v, w).node != v.node
  {
    if v.kids != [] {
      LastInside(v.kids);
      assert v.kids == Front(v) + [LastKid(v, w)];
      NodesOfJoin(Front(v), [LastKid(v, w)]);
    }
  }

  // The nodes that an append to `t` changes are none of those below.
  lemma ReadyToAppend(t: Tree, v: Tree, w: Tree) returns (nodes: set<Node>, blocks: set<array<Byte>>)
    requires Linked(t) && !t.isReference && t.node == v.node && View(v) && View(w)
    requires EndsOnce(v) && w.node !in NodesOf(v) && NodesOfAll(w.kids) !! Touched(v, w.node)
    ensures {t.node, w.node} + LastNode(t.kids) !! nodes && LastKid(v, w).node != t.node
    ensures (t.kids == [] <==> v.kids == []) && (v.kids != [] ==> t.kids[|t.kids| - 1].node == LastKid(v, w).node)
    ensures var l := LastKid(v, w);
            && Below(v, Front(v), l, w, nodes, blocks) && FieldsAre(v) && FieldsAre(l) && FieldsAre(w)
            && w.node.child == First(w.kids, null) && l.node.child == First(l.kids, null)
  {
    SameChain(t.kids, v.kids, null);
    nodes, blocks := TakenApart(v, w);
    TouchedApart(v, w, w.node);
    assert v.kids != [] ==> t.kids[|t.kids| - 1].node in LastNode(t.kids);
  }

  // How the links are after an append.
  lemma LinksAfter(t: Tree, x: Tree)
    requires Linked(Grown(t, x)) && !t.isReference
    ensures t.node.child == First(t.kids + [x], null) && x.node.next == null
    ensures t.kids != [] ==> t.kids[|t.kids| - 1].node.next == x.node
  {
    var ts := t.kids + [x];
    Walk(ts, null, null, |t.kids|);
    if t.kids != [] {
      Walk(ts, null, null, |t.kids| - 1);
    }
  }

  // The same in terms of the fields.
  method AppendKeeping(parent: Node, item: Node, ghost t: Tree, ghost x: Tree, ghost v: Tree, ghost front: seq<Tree>,
      ghost l: Tree, ghost w: Tree, ghost nodes: set<Node>, ghost blocks: set<array<Byte>>)
    requires parent == t.node && !t.isReference && Linked(t) && Separate(t)
    requires item == x.node && item.next == null && item.prev == null && Linked(x) && Separate(x)
    requires NodesOf(t) !! NodesOf(x) && BlocksOf(t) !! BlocksOf(x)
    requires {parent, item} + LastNode(t.kids) !! nodes
    modifies parent`child, item`prev, LastNode(t.kids)`next
    ensures Linked(Grown(t, x)) && Separate(Grown(t, x))
    ensures Below(v, front, l, w, nodes, blocks) <==> old(Below(v, front, l, w, nodes, blocks))
    ensures (FieldsAre(v) <==> old(FieldsAre(v))) && (FieldsAre(l) <==> old(FieldsAre(l)))
  {
    AppendBeside(parent, item, t, x, v, front, l, w, nodes, blocks);
  }

  // And with the links that were set.
  method AppendLinked(parent: Node, item: Node, ghost t: Tree, ghost x: Tree, ghost v: Tree, ghost front: seq<Tree>,
      ghost l: Tree, ghost w: Tree, ghost nodes: set<Node>, ghost blocks: set<array<Byte>>)
    requires parent == t.node && !t.isReference && Linked(t) && Separate(t)
    requires item == x.node && item.next == null && item.prev == null && Linked(x) && Separate(x)
    requires NodesOf(t) !! NodesOf(x) && BlocksOf(t) !! BlocksOf(x)
    requires {parent, item} + LastNode(t.kids) !! nodes && w.node != parent && l.node != parent
    modifies parent`child, item`prev, LastNode(t.kids)`next
    ensures Linked(Grown(t, x)) && Separate(Grown(t, x))
    ensures Below(v, front, l, w, nodes, blocks) <==> old(Below(v, front, l, w, nodes, blocks))
    ensures (FieldsAre(v) <==> old(FieldsAre(v))) && (FieldsAre(l) <==> old(FieldsAre(l)))
    ensures FieldsAre(w) <==> old(FieldsAre(w))
    ensures w.node.child == old(w.node.child) && l.node.child == old(l.node.child)
    ensures parent.child == First(t.kids + [x], null) && item.next == null
    ensures t.kids != [] ==> t.kids[|t.kids| - 1].node.next == item
  {
    AppendKeeping(parent, item, t, x, v, front, l, w, nodes, blocks);
    LinksAfter(t, x);
  }

  // All that a reader found before an append is found after it, and the new
  // item behind it.
  method AppendSeen(parent: Node, item: Node, ghost t: Tree, ghost x: Tree, ghost v: Tree, ghost w: Tree)
    requires parent == t.node && !t.isReference && Linked(t) && Separate(t)
    requires item == x.node && item.next == null && item.prev == null && Linked(x) && Separate(x)
    requires NodesOf(t) !! NodesOf(x) && BlocksOf(t) !! BlocksOf(x)
    requires parent == v.node && View(v) && EndsOnce(v) && item !in NodesOf(v)
    requires item == w.node && View(w) && NodesOfAll(w.kids) !! Touched(v, item)
    modifies parent`child, item`prev, LastNode(t.kids)`next
    ensures Linked(Grown(t, x)) && Separate(Grown(t, x)) && View(Grown(v, w))
  {
    ghost var nodes, blocks := ReadyToAppend(t, v, w);
    AppendLinked(parent, item, t, x, v, Front(v), LastKid(v, w), w, nodes, blocks);
    PutTogether(v, w, nodes, blocks);
  }
}

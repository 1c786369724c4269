/** The doubly linked children of an array or object node, operated on as a
    sequence: append, detach, replace, lookup. */
module ChildLists {
  import opened Memory
  import opened Nodes
  import opened Deletion

  // `n->next = to;` which leaves what `n` owns as it is.
  method SetNext(n: Node, to: Node?, ghost t: Tree)
    requires n == t.node && Linked(t) && Separate(t)
    modifies n`next
    ensures n.next == to && Linked(t)
  {
    n.next := to;
    assert ScalarsAre(t);
  }

  method SetPrev(n: Node, to: Node?, ghost t: Tree)
    requires n == t.node && Linked(t) && Separate(t)
    modifies n`prev
    ensures n.prev == to && Linked(t)
  {
    n.prev := to;
    assert ScalarsAre(t);
  }

  // A nonempty chain taken apart at its last link, and put together there.
  lemma LastLink(ts: seq<Tree>, before: Node?, end: Node?)
    requires ts != []
    ensures var a, l := ts[..|ts| - 1], ts[|ts| - 1];
            Segment(ts, before, end) <==>
              Segment(a, before, l.node) && Linked(l) && l.node.prev == Last(a, before) && l.node.next == end
  {
    var a, l := ts[..|ts| - 1], ts[|ts| - 1];
    assert ts == a + [l];
    SegmentJoin(a, [l], before, end);
  }

  lemma LastInside(ts: seq<Tree>)
    requires ts != []
    ensures ts[|ts| - 1].node in NodesOfAll(ts)
  {
    var a, l := ts[..|ts| - 1], ts[|ts| - 1];
    assert ts == a + [l];
    NodesOfJoin(a, [l]);
    NodesOfOne(l);
  }

  // `n->next = to;` on the last node of a chain.
  method RelinkEnd(n: Node, to: Node?, ghost a: seq<Tree>, ghost before: Node?, ghost end: Node?)
    requires a != [] && n == Last(a, null) && Segment(a, before, end) && SeparateAll(a)
    modifies n`next
    ensures n.next == to && Segment(a, before, to)
  {
    ghost var i, l := a[..|a| - 1], a[|a| - 1];
    assert a == i + [l];
    SeparateJoin(i, [l]);
    NodesOfOne(l);
    LastLink(a, before, end);
    assert allocated(NodesOfAll(i)) && allocated(BlocksOfAll(i));
    SetNext(n, to, l);
    LastLink(a, before, to);
  }

  // `n->prev = to;` on the first node of a chain.
  method RelinkStart(n: Node, to: Node?, ghost b: seq<Tree>, ghost before: Node?, ghost end: Node?)
    requires b != [] && n == b[0].node && Segment(b, before, end) && SeparateAll(b)
    modifies n`prev
    ensures n.prev == to && Segment(b, to, end)
  {
    assert allocated(NodesOfAll(b[1..])) && allocated(BlocksOfAll(b[1..]));
    SetPrev(n, to, b[0]);
  }

  // `suffix_object`: `prev` is the last of `ts`, and `item` comes behind it.
  method SuffixObject(prev: Node, item: Node, ghost ts: seq<Tree>, ghost x: Tree)
    requires ts != [] && prev == Last(ts, null) && item == x.node && item.next == null
    requires Segment(ts, null, null) && Linked(x) && SeparateAll(ts + [x])
    modifies prev`next, item`prev
    ensures Segment(ts + [x], null, null)
  {
    SeparateJoin(ts, [x]);
    NodesOfOne(x);
    LastInside(ts);
    assert allocated(NodesOf(x)) && allocated(BlocksOf(x));
    assert allocated(NodesOfAll(ts)) && allocated(BlocksOfAll(ts));
    RelinkEnd(prev, item, ts, null, null);
    SetPrev(item, prev, x);
    LinkOne(x, prev);
    SegmentJoin(ts, [x], null, null);
  }

  lemma LinkOne(x: Tree, before: Node?)
    ensures Segment([x], before, x.node.next) <==> Linked(x) && x.node.prev == before
  {
  }

  // Walking the `next` links of a chain visits its nodes in order.
  lemma Walk(ts: seq<Tree>, before: Node?, end: Node?, k: nat)
    requires Segment(ts, before, end) && k < |ts|
    ensures Segment(ts[k..], Last(ts[..k], before), end) && Linked(ts[k])
    ensures ts[k].node.next == First(ts[k + 1..], end) && ts[k].node.prev == Last(ts[..k], before)
  {
    assert ts == ts[..k] + ts[k..];
    SegmentJoin(ts[..k], ts[k..], before, end);
    assert ts[k..][1..] == ts[k + 1..];
  }

  method LastChild(first: Node, ghost ts: seq<Tree>) returns (c: Node)
    requires ts != [] && first == ts[0].node && Segment(ts, null, null)
    ensures c == ts[|ts| - 1].node
  {
    c := first;
    ghost var k := 0;
    Walk(ts, null, null, 0);
    while c.next != null
      invariant k < |ts| && c == ts[k].node && Segment(ts, null, null) && c.next == First(ts[k + 1..], null)
      decreases |ts| - k
    {
      c := c.next;
      k := k + 1;
      Walk(ts, null, null, k);
    }
  }

  function Grown(t: Tree, x: Tree): Tree {
    t.(kids := t.kids + [x])
  }

  lemma GrownSeparate(t: Tree, x: Tree)
    requires Separate(t) && Separate(x) && NodesOf(t) !! NodesOf(x) && BlocksOf(t) !! BlocksOf(x)
    ensures Separate(Grown(t, x)) && SeparateAll(t.kids + [x])
    ensures NodesOf(Grown(t, x)) == NodesOf(t) + NodesOf(x) && BlocksOf(Grown(t, x)) == BlocksOf(t) + BlocksOf(x)
  {
    NodesOfJoin(t.kids, [x]);
    NodesOfOne(x);
    SeparateJoin(t.kids, [x]);
  }

  // What makes a node with more children than before a linked tree again.
  lemma Adopts(t: Tree, kids: seq<Tree>)
    requires ScalarsAre(t) && !t.isReference && StrIs(t.node.valuestring, t.value)
    requires t.node.child == First(kids, null) && Segment(kids, null, null)
    ensures Linked(t.(kids := kids))
  {
  }

  function If<T>(b: bool, s: set<T>): set<T> {
    if b then s else {}
  }

  // The node whose `next` an append sets.
  function LastNode(ts: seq<Tree>): set<Node> {
    if ts == [] then {} else {ts[|ts| - 1].node}
  }

  // `cJSON_AddItemToArray`: the children become `kids + [x]`.
  method AddItemToArray(parent: Node, item: Node?, ghost t: Tree, ghost x: Tree)
    requires parent == t.node && !t.isReference && Linked(t) && Separate(t)
    requires item != null ==> item == x.node && item.next == null && item.prev == null && Linked(x) && Separate(x)
    requires item != null ==> NodesOf(t) !! NodesOf(x) && BlocksOf(t) !! BlocksOf(x)
    modifies If(item != null, {parent})`child, If(item != null, {item})`prev, If(item != null, LastNode(t.kids))`next
    ensures item != null ==> Linked(Grown(t, x)) && Separate(Grown(t, x))
  {
    if item == null {
      return;
    }
    GrownSeparate(t, x);
    if parent.child == null {
      parent.child := item;
      LinkOne(x, null);
      assert [] + [x] == [x];
    } else {
      AppendToChain(parent.child, item, t, x);
    }
    Adopts(t, t.kids + [x]);
  }

  method AppendToChain(first: Node, item: Node, ghost t: Tree, ghost x: Tree)
    requires t.kids != [] && first == t.kids[0].node && Segment(t.kids, null, null) && t.node !in NodesOfAll(t.kids)
    requires item == x.node && item.next == null && Linked(x) && SeparateAll(t.kids + [x]) && t.node != item
    modifies LastNode(t.kids)`next, item`prev
    ensures Segment(t.kids + [x], null, null)
  {
    assert allocated(NodesOf(x)) && allocated(BlocksOf(x));
    assert allocated(NodesOfAll(t.kids)) && allocated(BlocksOfAll(t.kids));
    var c := LastChild(first, t.kids);
    LastInside(t.kids);
    SuffixObject(c, item, t.kids, x);
  }

  // ----- Detaching -----

  // The neighbours of `x` come to point at each other.
  method Bypass(c: Node, ghost a: seq<Tree>, ghost x: Tree, ghost b: seq<Tree>)
    requires c == x.node && Linked(x) && c.prev == Last(a, null) && c.next == First(b, null)
    requires Segment(a, null, c) && Segment(b, c, null)
    requires SeparateAll(a) && SeparateAll(b) && Separate(x) && Apart(a, b)
    requires NodesOf(x) !! NodesOfAll(a) && NodesOf(x) !! NodesOfAll(b)
    modifies NodesOfAll(a)`next, NodesOfAll(b)`prev
    ensures Segment(a + b, null, null)
  {
    assert allocated(NodesOfAll(a)) && allocated(BlocksOfAll(a));
    assert allocated(NodesOfAll(b)) && allocated(BlocksOfAll(b));
    if c.prev != null {
      LastInside(a);
      RelinkEnd(c.prev, c.next, a, null, c);
    }
    if c.next != null {
      assert b[0].node in NodesOfAll(b);
      RelinkStart(c.next, c.prev, b, c, null);
    }
    SegmentJoin(a, b, null, null);
  }

  // The sequence without its `k`-th element, and with another one in its place.
  function Without(ts: seq<Tree>, k: nat): (r: seq<Tree>)
    requires k < |ts|
    ensures |r| == |ts| - 1 && forall i | 0 <= i < |r| :: r[i] == if i < k then ts[i] else ts[i + 1]
  {
    ts[..k] + ts[k + 1..]
  }

  function With(ts: seq<Tree>, k: nat, x: Tree): (r: seq<Tree>)
    requires k < |ts|
    ensures |r| == |ts| && r[k] == x && forall i | 0 <= i < |r| && i != k :: r[i] == ts[i]
  {
    ts[..k] + [x] + ts[k + 1..]
  }

  // A negative position counts as the first.
  function Position(which: int): nat {
    if which < 0 then 0 else which
  }

  lemma SplitAt(ts: seq<Tree>, k: nat)
    requires k < |ts| && SeparateAll(ts)
    ensures var a, x, b := ts[..k], ts[k], ts[k + 1..];
            && SeparateAll(a) && Separate(x) && SeparateAll(b) && Apart(a, b)
            && NodesOf(x) !! NodesOfAll(a) && BlocksOf(x) !! BlocksOfAll(a)
            && NodesOf(x) !! NodesOfAll(b) && BlocksOf(x) !! BlocksOfAll(b)
            && SeparateAll(a + b)
            && NodesOfAll(ts) == NodesOfAll(a) + NodesOf(x) + NodesOfAll(b)
            && BlocksOfAll(ts) == BlocksOfAll(a) + BlocksOf(x) + BlocksOfAll(b)
            && NodesOfAll(a + b) == NodesOfAll(a) + NodesOfAll(b)
            && BlocksOfAll(a + b) == BlocksOfAll(a) + BlocksOfAll(b)
  {
    AllButOne(ts, k);
    ThreeParts(ts[..k], ts[k], ts[k + 1..]);
  }

  lemma AllButOne(ts: seq<Tree>, k: nat)
    requires k < |ts|
    ensures ts == ts[..k] + ([ts[k]] + ts[k + 1..])
  {
  }

  lemma ThreeParts(a: seq<Tree>, x: Tree, b: seq<Tree>)
    ensures NodesOfAll(a + ([x] + b)) == NodesOfAll(a) + NodesOf(x) + NodesOfAll(b)
    ensures BlocksOfAll(a + ([x] + b)) == BlocksOfAll(a) + BlocksOf(x) + BlocksOfAll(b)
    ensures NodesOfAll(a + b) == NodesOfAll(a) + NodesOfAll(b)
    ensures BlocksOfAll(a + b) == BlocksOfAll(a) + BlocksOfAll(b)
    ensures SeparateAll(a + ([x] + b)) ==>
              && SeparateAll(a) && Separate(x) && SeparateAll(b) && Apart(a, b) && SeparateAll(a + b)
              && NodesOf(x) !! NodesOfAll(a) && BlocksOf(x) !! BlocksOfAll(a)
              && NodesOf(x) !! NodesOfAll(b) && BlocksOf(x) !! BlocksOfAll(b)
  {
    assert ([x] + b)[1..] == b;
    SeparateJoin(a, [x] + b);
    NodesOfJoin(a, [x] + b);
    SeparateJoin(a, b);
    NodesOfJoin(a, b);
  }

  lemma SegmentSplitAt(ts: seq<Tree>, k: nat)
    requires k < |ts| && Segment(ts, null, null)
    ensures var a, x, b := ts[..k], ts[k], ts[k + 1..];
            && Segment(a, null, x.node) && Linked(x) && Segment(b, x.node, null)
            && x.node.prev == Last(a, null) && x.node.next == First(b, null)
            && (x.node == First(ts, null) <==> a == [] || a[0].node == x.node)
  {
    Walk(ts, null, null, k);
    assert ts == ts[..k] + ts[k..];
    SegmentJoin(ts[..k], ts[k..], null, null);
    assert ts[k..][1..] == ts[k + 1..];
  }

  // Walks to a position, or off the end of the chain.
  method Locate(first: Node?, which: int, ghost ts: seq<Tree>) returns (c: Node?)
    requires first == First(ts, null) && Segment(ts, null, null)
    ensures c == if Position(which) < |ts| then ts[Position(which)].node else null
  {
    c := first;
    var i := which;
    ghost var k := 0;
    if ts != [] {
      Walk(ts, null, null, 0);
    }
    while c != null && i > 0
      invariant k <= |ts| && c == First(ts[k..], null) && Segment(ts, null, null)
      invariant Position(i) + k == Position(which) || (c == null && k == |ts| <= Position(which))
      decreases |ts| - k
    {
      Walk(ts, null, null, k);
      c, i, k := c.next, i - 1, k + 1;
    }
  }

  // `cJSON_DetachItemFromArray`: element `k` is taken out of the children, and
  // comes back whole and unlinked.
  method DetachItemFromArray(parent: Node, which: int, ghost t: Tree) returns (c: Node?)
    requires parent == t.node && !t.isReference && Linked(t) && Separate(t)
    modifies parent`child, NodesOfAll(t.kids)
    ensures Position(which) >= |t.kids| ==> c == null && Linked(t)
    ensures var k := Position(which);
            k < |t.kids| ==>
              && c == t.kids[k].node && c.next == null && c.prev == null && Linked(t.kids[k])
              && Linked(t.(kids := Without(t.kids, k))) && Separate(t.(kids := Without(t.kids, k)))
  {
    assert allocated(NodesOf(t)) && allocated(BlocksOf(t));
    c := Locate(parent.child, which, t.kids);
    if c != null {
      DetachAt(parent, c, t, Position(which));
    }
  }

  method DetachAt(parent: Node, c: Node, ghost t: Tree, ghost k: nat)
    requires parent == t.node && !t.isReference && Linked(t) && Separate(t) && k < |t.kids| && c == t.kids[k].node
    modifies parent`child, NodesOfAll(t.kids)
    ensures c.next == null && c.prev == null && Linked(t.kids[k])
    ensures Linked(t.(kids := Without(t.kids, k))) && Separate(t.(kids := Without(t.kids, k)))
  {
    SplitAt(t.kids, k);
    KidsDetach(parent, c, t, k);
    Adopts(t, Without(t.kids, k));
  }

  method KidsDetach(parent: Node, c: Node, ghost t: Tree, ghost k: nat)
    requires parent == t.node && parent.child == First(t.kids, null) && Segment(t.kids, null, null)
    requires Separate(t) && k < |t.kids| && c == t.kids[k].node
    modifies parent`child, NodesOfAll(t.kids)
    ensures Segment(Without(t.kids, k), null, null) && parent.child == First(Without(t.kids, k), null)
    ensures Linked(t.kids[k]) && c.next == null && c.prev == null
  {
    SplitAt(t.kids, k);
    SegmentSplitAt(t.kids, k);
    Detach(parent, c, t.kids[..k], t.kids[k], t.kids[k + 1..]);
  }

  method Detach(parent: Node, c: Node, ghost a: seq<Tree>, ghost x: Tree, ghost b: seq<Tree>)
    requires c == x.node && Linked(x) && c.prev == Last(a, null) && c.next == First(b, null)
    requires Segment(a, null, c) && Segment(b, c, null) && parent.child == First(a, c)
    requires SeparateAll(a) && SeparateAll(b) && Separate(x) && Apart(a, b)
    requires NodesOf(x) !! NodesOfAll(a) && NodesOf(x) !! NodesOfAll(b)
    requires parent !in NodesOfAll(a) && parent !in NodesOf(x) && parent !in NodesOfAll(b)
    modifies parent`child, c`next, c`prev, NodesOfAll(a)`next, NodesOfAll(b)`prev
    ensures Segment(a + b, null, null) && parent.child == First(a + b, null)
    ensures Linked(x) && c.next == null && c.prev == null
  {
    assert allocated(NodesOf(x)) && allocated(BlocksOf(x));
    Unlink(parent, c, a, x, b);
    NodesOfJoin(a, b);
    Release(c, x, a + b);
  }

  // The neighbours and the parent no longer point at `c`.
  method Unlink(parent: Node, c: Node, ghost a: seq<Tree>, ghost x: Tree, ghost b: seq<Tree>)
    requires c == x.node && Linked(x) && c.prev == Last(a, null) && c.next == First(b, null)
    requires Segment(a, null, c) && Segment(b, c, null) && parent.child == First(a, c)
    requires SeparateAll(a) && SeparateAll(b) && Separate(x) && Apart(a, b)
    requires NodesOf(x) !! NodesOfAll(a) && NodesOf(x) !! NodesOfAll(b) && parent != c
    requires parent !in NodesOfAll(a) && parent !in NodesOfAll(b)
    modifies parent`child, NodesOfAll(a)`next, NodesOfAll(b)`prev
    ensures Segment(a + b, null, null) && parent.child == First(a + b, null)
  {
    Bypass(c, a, x, b);
    if c == parent.child {
      HeadIsFirst(a, x, b);
      assert allocated(NodesOfAll(b)) && allocated(BlocksOfAll(b));
      parent.child := c.next;
    }
    NodesOfJoin(a, b);
  }

  lemma HeadIsFirst(a: seq<Tree>, x: Tree, b: seq<Tree>)
    requires First(a, x.node) == x.node && NodesOf(x) !! NodesOfAll(a)
    ensures a == [] && a + b == b
  {
    HeadInside(a, b);
  }

  lemma HeadInside(a: seq<Tree>, b: seq<Tree>)
    ensures a != [] ==> a[0].node in NodesOfAll(a)
    ensures a == [] ==> a + b == b
  {
  }

  // `c->prev = c->next = 0;`
  method Release(c: Node, ghost x: Tree, ghost others: seq<Tree>)
    requires c == x.node && Linked(x) && Separate(x)
    requires Segment(others, null, null) && c !in NodesOfAll(others)
    modifies c`next, c`prev
    ensures c.next == null && c.prev == null && Linked(x) && Segment(others, null, null)
  {
    assert allocated(NodesOfAll(others)) && allocated(BlocksOfAll(others));
    SetPrev(c, null, x);
    SetNext(c, null, x);
  }

  // ----- Replacing -----

  // `cJSON_ReplaceItemInArray`: element `k` gives its place to `x` and is
  // deleted with all it owns; off the end nothing happens at all.
  method ReplaceItemInArray(mem: Heap, parent: Node, which: int, newitem: Node, ghost t: Tree, ghost x: Tree)
    requires parent == t.node && !t.isReference && Linked(t) && Separate(t) && Owned(t) <= mem.live
    requires newitem == x.node && Linked(x) && Separate(x)
    requires NodesOf(t) !! NodesOf(x) && BlocksOf(t) !! BlocksOf(x)
    modifies mem, parent`child, newitem`next, newitem`prev, NodesOfAll(t.kids), BlocksOfAll(t.kids)
    ensures Position(which) >= |t.kids| ==> Linked(t) && Linked(x) && mem.live == old(mem.live)
    ensures var k := Position(which);
            k < |t.kids| ==>
              && Linked(t.(kids := With(t.kids, k, x))) && Separate(t.(kids := With(t.kids, k, x)))
              && mem.live == old(mem.live) - Owned(t.kids[k])
  {
    assert allocated(NodesOf(t)) && allocated(BlocksOf(t));
    assert allocated(NodesOf(x)) && allocated(BlocksOf(x));
    var c := Locate(parent.child, which, t.kids);
    if c != null {
      ReplaceAt(mem, parent, c, newitem, t, Position(which), x);
    }
  }

  lemma OwnedKid(t: Tree, k: nat)
    requires k < |t.kids| && SeparateAll(t.kids)
    ensures Owned(t.kids[k]) <= Owned(t) && OwnedAll([t.kids[k]]) == Owned(t.kids[k])
  {
    SplitAt(t.kids, k);
    NodesOfOne(t.kids[k]);
  }

  method ReplaceAt(mem: Heap, parent: Node, c: Node, newitem: Node, ghost t: Tree, ghost k: nat, ghost x: Tree)
    requires parent == t.node && !t.isReference && Linked(t) && Separate(t) && Owned(t) <= mem.live
    requires newitem == x.node && Linked(x) && Separate(x)
    requires NodesOf(t) !! NodesOf(x) && BlocksOf(t) !! BlocksOf(x)
    requires k < |t.kids| && c == t.kids[k].node
    modifies mem, parent`child, newitem`next, newitem`prev, NodesOfAll(t.kids), BlocksOfAll(t.kids)
    ensures Linked(t.(kids := With(t.kids, k, x))) && Separate(t.(kids := With(t.kids, k, x)))
    ensures mem.live == old(mem.live) - Owned(t.kids[k])
  {
    PutAt(parent, c, newitem, t, k, x);
    OwnedKid(t, k);
    OldApart(t, k, x);
    DeleteDetached(mem, c, t.kids[k], t.(kids := With(t.kids, k, x)));
  }

  // What is replaced shares nothing with what is left.
  lemma OldApart(t: Tree, k: nat, x: Tree)
    requires Separate(t) && k < |t.kids| && NodesOf(t) !! NodesOf(x) && BlocksOf(t) !! BlocksOf(x)
    ensures NodesOf(t.kids[k]) !! NodesOf(t.(kids := With(t.kids, k, x)))
    ensures BlocksOf(t.kids[k]) !! BlocksOf(t.(kids := With(t.kids, k, x)))
    ensures NodesOf(t.kids[k]) <= NodesOfAll(t.kids) && BlocksOf(t.kids[k]) <= BlocksOfAll(t.kids)
  {
    SplitAt(t.kids, k);
    NodesOfThree(t.kids[..k], x, t.kids[k + 1..]);
  }

  // Deleting a detached node leaves the rest of the world linked.
  method DeleteDetached(mem: Heap, c: Node, ghost o: Tree, ghost rest: Tree)
    requires c == o.node && c.next == null && c.prev == null && Linked(o) && Separate(o) && Owned(o) <= mem.live
    requires Linked(rest) && NodesOf(o) !! NodesOf(rest) && BlocksOf(o) !! BlocksOf(rest)
    modifies mem, Owned(o)
    ensures Linked(rest) && mem.live == old(mem.live) - Owned(o)
  {
    assert allocated(NodesOf(rest)) && allocated(BlocksOf(rest));
    NodesOfOne(o);
    LinkOne(o, null);
    Delete(mem, c, [o], null);
  }

  lemma WithSeparate(t: Tree, k: nat, x: Tree)
    requires Separate(t) && k < |t.kids| && Separate(x)
    requires NodesOf(t) !! NodesOf(x) && BlocksOf(t) !! BlocksOf(x)
    ensures Separate(t.(kids := With(t.kids, k, x)))
  {
    var a, b := t.kids[..k], t.kids[k + 1..];
    SplitAt(t.kids, k);
    SeparateJoin(a, [x]);
    SeparateJoin(a + [x], b);
    NodesOfJoin(a, [x]);
    NodesOfJoin(a + [x], b);
    NodesOfOne(x);
  }

  method PutAt(parent: Node, c: Node, newitem: Node, ghost t: Tree, ghost k: nat, ghost x: Tree)
    requires parent == t.node && !t.isReference && Linked(t) && Separate(t)
    requires newitem == x.node && Linked(x) && Separate(x)
    requires NodesOf(t) !! NodesOf(x) && BlocksOf(t) !! BlocksOf(x)
    requires k < |t.kids| && c == t.kids[k].node
    modifies parent`child, newitem`next, newitem`prev, NodesOfAll(t.kids)
    ensures Linked(t.(kids := With(t.kids, k, x))) && Separate(t.(kids := With(t.kids, k, x)))
    ensures Separate(t.kids[k]) && Linked(t.kids[k]) && c.next == null && c.prev == null
  {
    WithSeparate(t, k, x);
    KidsSwap(parent, c, newitem, t, k, x);
    Adopts(t, With(t.kids, k, x));
  }

  method KidsSwap(parent: Node, c: Node, newitem: Node, ghost t: Tree, ghost k: nat, ghost x: Tree)
    requires parent == t.node && parent.child == First(t.kids, null) && Segment(t.kids, null, null)
    requires Separate(t) && newitem == x.node && Linked(x) && Separate(x) && NodesOf(t) !! NodesOf(x)
    requires k < |t.kids| && c == t.kids[k].node
    modifies parent`child, newitem`next, newitem`prev, NodesOfAll(t.kids)
    ensures Segment(With(t.kids, k, x), null, null) && parent.child == First(With(t.kids, k, x), null)
    ensures Separate(t.kids[k]) && Linked(t.kids[k]) && c.next == null && c.prev == null
  {
    ghost var a, o, b := t.kids[..k], t.kids[k], t.kids[k + 1..];
    SplitAt(t.kids, k);
    SegmentSplitAt(t.kids, k);
    NodesOfThree(a, x, b);
    TakePlace(parent, c, newitem, a, o, b, x, With(t.kids, k, x));
  }

  method TakePlace(parent: Node, c: Node, newitem: Node,
      ghost a: seq<Tree>, ghost o: Tree, ghost b: seq<Tree>, ghost x: Tree, ghost w: seq<Tree>)
    requires c == o.node && Linked(o) && Separate(o) && c.prev == Last(a, null) && c.next == First(b, null)
    requires Segment(a, null, c) && Segment(b, c, null) && parent.child == First(a, c)
    requires newitem == x.node && Linked(x) && Separate(x)
    requires SeparateAll(a) && SeparateAll(b) && Apart(a, b)
    requires NodesOf(x) !! NodesOfAll(a) && NodesOf(x) !! NodesOfAll(b)
    requires w == a + [x] + b && NodesOfAll(w) == NodesOfAll(a) + NodesOf(x) + NodesOfAll(b)
    requires NodesOf(o) !! NodesOfAll(w) && parent !in NodesOfAll(w) && parent !in NodesOf(o)
    modifies parent`child, newitem`next, newitem`prev, c`next, c`prev, NodesOfAll(a)`next, NodesOfAll(b)`prev
    ensures Segment(w, null, null) && parent.child == First(w, null)
    ensures Linked(o) && c.next == null && c.prev == null
  {
    SpliceBeside(parent, c, newitem, a, o, b, x, w);
    Release(c, o, w);
  }

  // The surgery leaves what is replaced as it was.
  method SpliceBeside(parent: Node, c: Node, newitem: Node,
      ghost a: seq<Tree>, ghost o: Tree, ghost b: seq<Tree>, ghost x: Tree, ghost w: seq<Tree>)
    requires c == o.node && c.prev == Last(a, null) && c.next == First(b, null)
    requires Segment(a, null, c) && Segment(b, c, null) && parent.child == First(a, c)
    requires newitem == x.node && Linked(x) && Separate(x)
    requires SeparateAll(a) && SeparateAll(b) && Apart(a, b)
    requires NodesOf(x) !! NodesOfAll(a) && NodesOf(x) !! NodesOfAll(b)
    requires w == a + [x] + b && NodesOfAll(w) == NodesOfAll(a) + NodesOf(x) + NodesOfAll(b)
    requires NodesOf(o) !! NodesOfAll(w) && parent !in NodesOfAll(w) && parent !in NodesOf(o)
    modifies parent`child, newitem`next, newitem`prev, NodesOfAll(a)`next, NodesOfAll(b)`prev
    ensures Segment(w, null, null) && parent.child == First(w, null)
    ensures Linked(o) <==> old(Linked(o))
  {
    assert allocated(NodesOf(o)) && allocated(BlocksOf(o));
    Splice(parent, c, newitem, a, b, x);
  }

  lemma NodesOfThree(a: seq<Tree>, x: Tree, b: seq<Tree>)
    ensures NodesOfAll(a + [x] + b) == NodesOfAll(a) + NodesOf(x) + NodesOfAll(b)
    ensures BlocksOfAll(a + [x] + b) == BlocksOfAll(a) + BlocksOf(x) + BlocksOfAll(b)
  {
    NodesOfJoin(a, [x]);
    NodesOfJoin(a + [x], b);
    NodesOfOne(x);
  }

  // The pointer surgery of the replacement, in the order of the source.
  method Splice(parent: Node, c: Node, newitem: Node, ghost a: seq<Tree>, ghost b: seq<Tree>, ghost x: Tree)
    requires c.prev == Last(a, null) && c.next == First(b, null)
    requires Segment(a, null, c) && Segment(b, c, null) && parent.child == First(a, c)
    requires newitem == x.node && Linked(x) && Separate(x)
    requires SeparateAll(a) && SeparateAll(b) && Apart(a, b) && c !in NodesOfAll(a) && c !in NodesOf(x)
    requires NodesOf(x) !! NodesOfAll(a) && NodesOf(x) !! NodesOfAll(b)
    requires parent !in NodesOfAll(a) && parent !in NodesOfAll(b) && parent !in NodesOf(x)
    modifies parent`child, newitem`next, newitem`prev, NodesOfAll(a)`next, NodesOfAll(b)`prev
    ensures Segment(a + [x] + b, null, null) && parent.child == First(a + [x] + b, null)
  {
    Aim(newitem, c.next, c.prev, x, a, c, b, c);
    AttachNext(newitem, a, x, b, c);
    AttachPrev(parent, c, newitem, a, x, b);
    JoinThree(a, x, b);
  }

  // `newitem->next = ..; newitem->prev = ..;`
  method Aim(newitem: Node, next: Node?, prev: Node?, ghost x: Tree,
             ghost a: seq<Tree>, ghost aEnd: Node?, ghost b: seq<Tree>, ghost bBefore: Node?)
    requires newitem == x.node && Linked(x) && Separate(x)
    requires Segment(a, null, aEnd) && Segment(b, bBefore, null)
    requires newitem !in NodesOfAll(a) && newitem !in NodesOfAll(b)
    modifies newitem`next, newitem`prev
    ensures newitem.next == next && newitem.prev == prev && Linked(x)
    ensures Segment(a, null, aEnd) && Segment(b, bBefore, null)
  {
    assert allocated(NodesOfAll(a)) && allocated(BlocksOfAll(a));
    assert allocated(NodesOfAll(b)) && allocated(BlocksOfAll(b));
    SetNext(newitem, next, x);
    SetPrev(newitem, prev, x);
  }

  method AttachNext(newitem: Node, ghost a: seq<Tree>, ghost x: Tree, ghost b: seq<Tree>, ghost c: Node)
    requires newitem == x.node && newitem.next == First(b, null) && Linked(x)
    requires Segment(a, null, c) && Segment(b, c, null) && SeparateAll(b)
    requires NodesOf(x) !! NodesOfAll(b) && NodesOfAll(a) !! NodesOfAll(b)
    modifies NodesOfAll(b)`prev
    ensures Linked(x) && Segment(a, null, c) && Segment(b, newitem, null)
  {
    assert allocated(NodesOf(x)) && allocated(BlocksOf(x));
    assert allocated(NodesOfAll(a)) && allocated(BlocksOfAll(a));
    if newitem.next != null {
      HeadInside(b, []);
      RelinkStart(newitem.next, newitem, b, c, null);
    }
  }

  method AttachPrev(parent: Node, c: Node, newitem: Node, ghost a: seq<Tree>, ghost x: Tree, ghost b: seq<Tree>)
    requires newitem == x.node && newitem.prev == Last(a, null) && Linked(x)
    requires Segment(a, null, c) && Segment(b, newitem, null) && SeparateAll(a) && parent.child == First(a, c)
    requires NodesOf(x) !! NodesOfAll(a) && NodesOfAll(b) !! NodesOfAll(a) && c !in NodesOfAll(a)
    requires parent !in NodesOfAll(a) && parent !in NodesOf(x) && parent !in NodesOfAll(b)
    modifies parent`child, NodesOfAll(a)`next
    ensures Linked(x) && Segment(a, null, newitem) && Segment(b, newitem, null) && parent.child == First(a, newitem)
  {
    assert allocated(NodesOf(x)) && allocated(BlocksOf(x));
    assert allocated(NodesOfAll(b)) && allocated(BlocksOfAll(b));
    HeadInside(a, []);
    if c == parent.child {
      parent.child := newitem;
    } else {
      LastInside(a);
      RelinkEnd(newitem.prev, newitem, a, null, c);
    }
  }

  lemma JoinThree(a: seq<Tree>, x: Tree, b: seq<Tree>)
    requires Segment(a, null, x.node) && Linked(x) && Segment(b, x.node, null)
    requires x.node.prev == Last(a, null) && x.node.next == First(b, null)
    ensures Segment(a + [x] + b, null, null) && First(a + [x] + b, null) == First(a, x.node)
  {
    LinkOne(x, Last(a, null));
    SegmentJoin(a, [x], null, First(b, null));
    SegmentJoin(a + [x], b, null, null);
  }
}

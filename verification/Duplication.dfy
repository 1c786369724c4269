/** `cJSON_Duplicate`: a copy in new memory, and the reference nodes that
    `cJSON_Duplicate` turns into owners. */
module Duplication {
  import opened Bytes
  import opened Memory
  import opened CStrings
  import opened Nodes
  import opened NodeMeaning
  import opened Deletion
  import opened ChildLists

  predicate SameText(a: Str, b: Str) {
    match (a, b)
    case (Absent, Absent) => true
    case (Present(_, s), Present(_, t)) => s == t
    case _ => false
  }

  // The scalar fields agree and the reference flag is gone.
  predicate CopyOfFields(d: Tree, t: Tree) {
    && d.kind == t.kind && !d.isReference && d.valueint == t.valueint && d.valuedouble == t.valuedouble
    && SameText(d.value, t.value) && SameText(d.name, t.name)
  }

  // Structural equality all the way down, references resolved into owners.
  predicate CopyOf(d: Tree, t: Tree) {
    CopyOfFields(d, t) && CopyOfAll(d.kids, t.kids)
  }

  predicate CopyOfAll(ds: seq<Tree>, ts: seq<Tree>) {
    |ds| == |ts| && (ts == [] || (CopyOf(ds[0], ts[0]) && CopyOfAll(ds[1..], ts[1..])))
  }

  lemma {:induction false} CopyOfMore(ds: seq<Tree>, ts: seq<Tree>, d: Tree, t: Tree)
    requires CopyOfAll(ds, ts) && CopyOf(d, t)
    ensures CopyOfAll(ds + [d], ts + [t])
  {
    if ts == [] {
    } else {
      CopyOfMore(ds[1..], ts[1..], d, t);
      assert (ds + [d])[1..] == ds[1..] + [d] && (ts + [t])[1..] == ts[1..] + [t];
    }
  }

  // A copy holds no reference node, so a reader finds exactly what it owns.
  lemma {:induction false} CopyOwnsItsParts(d: Tree, t: Tree)
    requires CopyOf(d, t)
    ensures NoReferences(d)
    decreases t, 0
  {
    CopiesOwnTheirParts(d.kids, t.kids);
  }

  lemma {:induction false} CopiesOwnTheirParts(ds: seq<Tree>, ts: seq<Tree>)
    requires CopyOfAll(ds, ts)
    ensures NoReferencesAll(ds)
    decreases ts, 0
  {
    if ts == [] {
    } else {
      CopyOwnsItsParts(ds[0], ts[0]);
      CopiesOwnTheirParts(ds[1..], ts[1..]);
    }
  }

  // And it stands for the same value.
  lemma {:induction false} CopyMeansTheSame(d: Tree, t: Tree)
    requires CopyOf(d, t)
    ensures Meaning(d) == Meaning(t)
    decreases t, 0
  {
    CopiesMeanTheSame(d.kids, t.kids);
  }

  lemma {:induction false} CopiesMeanTheSame(ds: seq<Tree>, ts: seq<Tree>)
    requires CopyOfAll(ds, ts)
    ensures Items(ds) == Items(ts) && Members(ds) == Members(ts)
    decreases ts, 0
  {
    if ts == [] {
    } else {
      CopyMeansTheSame(ds[0], ts[0]);
      CopiesMeanTheSame(ds[1..], ts[1..]);
    }
  }

  method DupString(mem: Heap, p: array?<Byte>, ghost s: Str) returns (q: array?<Byte>, ghost r: Str)
    requires StrIs(p, s) && BlockOf(s) <= mem.live
    modifies mem
    ensures StrIs(q, r) && SameText(r, s) && fresh(BlockOf(r)) && mem.live == old(mem.live) + BlockOf(r)
  {
    if p == null {
      q, r := null, Absent;
    } else {
      q := StrDup(mem, p, s.text);
      r := Present(q, s.text);
    }
  }

  method DupStrings(mem: Heap, p: array?<Byte>, q: array?<Byte>, ghost s: Str, ghost u: Str)
    returns (p2: array?<Byte>, q2: array?<Byte>, ghost s2: Str, ghost u2: Str)
    requires StrIs(p, s) && StrIs(q, u) && BlockOf(s) + BlockOf(u) <= mem.live
    modifies mem
    ensures StrIs(p2, s2) && SameText(s2, s) && StrIs(q2, u2) && SameText(u2, u) && BlockOf(s2) !! BlockOf(u2)
    ensures fresh(BlockOf(s2) + BlockOf(u2)) && mem.live == old(mem.live) + (BlockOf(s2) + BlockOf(u2))
  {
    assert allocated(BlockOf(u));
    p2, s2 := DupString(mem, p, s);
    q2, u2 := DupString(mem, q, u);
  }

  // A new node with the numbers of `item`, and not yet its strings.
  method NewLike(mem: Heap, item: Node, ghost t: Tree) returns (n: Node)
    requires View(t) && item == t.node
    modifies mem
    ensures fresh(n) && mem.live == old(mem.live) + {n}
    ensures n.next == null && n.prev == null && n.child == null && n.kind == t.kind && !n.isReference
    ensures n.valueint == t.valueint && n.valuedouble == t.valuedouble
    ensures StrIs(item.valuestring, t.value) && StrIs(item.name, t.name)
  {
    assert allocated(BlocksOf(t));
    n := NewItem(mem);
    n.kind, n.valueint, n.valuedouble := item.kind, item.valueint, item.valuedouble;
  }

  // The node itself and its two strings, without children.
  method DupFields(mem: Heap, item: Node, ghost t: Tree) returns (n: Node, ghost d: Tree)
    requires View(t) && item == t.node && Owned(t) <= mem.live
    modifies mem
    ensures n == d.node && d.kids == [] && CopyOfFields(d, t) && Linked(d) && Separate(d)
    ensures fresh(Owned(d)) && mem.live == old(mem.live) + Owned(d)
    ensures n.next == null && n.prev == null
  {
    n := NewLike(mem, item, t);
    ghost var v, m;
    n.valuestring, n.name, v, m := DupStrings(mem, item.valuestring, item.name, t.value, t.name);
    d := Tree(n, t.kind, false, v, t.valueint, t.valuedouble, m, []);
  }

  // The next copied child goes behind the last one, or becomes the first; the
  // originals in `rest` are not touched.
  method AppendKid(parent: Node, last: Node?, item: Node, ghost t: Tree, ghost x: Tree, ghost rest: seq<Tree>)
    requires parent == t.node && !t.isReference && Linked(t) && Separate(t) && last == Last(t.kids, null)
    requires item == x.node && item.next == null && item.prev == null && Linked(x) && Separate(x)
    requires NodesOf(t) !! NodesOf(x) && BlocksOf(t) !! BlocksOf(x)
    requires ViewAll(rest) && NodesOf(t) !! NodesOfAll(rest) && item !in NodesOfAll(rest)
    modifies parent`child, NodesOfAll(t.kids)`next, item`prev
    ensures Linked(Grown(t, x)) && Separate(Grown(t, x)) && ViewAll(rest)
  {
    GrownSeparate(t, x);
    AppendLink(parent, last, item, t.kids, x, rest);
    Adopts(t, t.kids + [x]);
  }

  method AppendLink(parent: Node, last: Node?, item: Node, ghost ts: seq<Tree>, ghost x: Tree, ghost rest: seq<Tree>)
    requires parent.child == First(ts, null) && Segment(ts, null, null) && last == Last(ts, null)
    requires item == x.node && item.next == null && item.prev == null && Linked(x) && SeparateAll(ts + [x])
    requires parent !in NodesOfAll(ts) && parent !in NodesOf(x)
    requires ViewAll(rest) && NodesOfAll(ts) !! NodesOfAll(rest)
    requires item !in NodesOfAll(rest) && parent !in NodesOfAll(rest)
    modifies parent`child, NodesOfAll(ts)`next, item`prev
    ensures parent.child == First(ts + [x], null) && Segment(ts + [x], null, null) && ViewAll(rest)
  {
    assert allocated(NodesOfAll(rest)) && allocated(BlocksOfAll(rest));
    if last != null {
      LastInside(ts);
      SuffixObject(last, item, ts, x);
    } else {
      parent.child := item;
      LinkOne(x, null);
      assert [] + [x] == [x];
    }
  }

  // The node and, if `recurse`, its children: all of it new, nothing old
  // touched, and exactly these blocks newly allocated.
  method DuplicateNode(mem: Heap, item: Node, recurse: bool, ghost t: Tree) returns (newitem: Node, ghost d: Tree)
    requires View(t) && item == t.node && Owned(t) <= mem.live
    modifies mem
    ensures newitem == d.node && newitem.next == null && newitem.prev == null
    ensures Linked(d) && Separate(d) && fresh(Owned(d))
    ensures mem.live == old(mem.live) + Owned(d)
    ensures if recurse then CopyOf(d, t) else CopyOfFields(d, t) && d.kids == []
    decreases t, 2
  {
    assert allocated(NodesOf(t)) && allocated(BlocksOf(t));
    newitem, d := DupFields(mem, item, t);
    if recurse {
      d := DupChildren(mem, newitem, item.child, d, t);
    }
  }

  function NodeAt(ts: seq<Tree>, k: nat): Node? {
    if k < |ts| then ts[k].node else null
  }

  method DupChildren(mem: Heap, newitem: Node, first: Node?, ghost d0: Tree, ghost t: Tree) returns (ghost d: Tree)
    requires newitem == d0.node && d0.kids == [] && !d0.isReference && Linked(d0) && Separate(d0)
    requires first == First(t.kids, null) && ViewAll(t.kids) && NodesOf(d0) !! NodesOfAll(t.kids)
    requires OwnedAll(t.kids) <= mem.live
    modifies mem, newitem`child
    ensures d == d0.(kids := d.kids) && CopyOfAll(d.kids, t.kids) && Linked(d) && Separate(d)
    ensures fresh(OwnedAll(d.kids))
    ensures mem.live == old(mem.live) + OwnedAll(d.kids)
    decreases t, 1
  {
    d := d0;
    var cptr, nptr: Node? := first, null;
    ghost var k, base := 0, mem.live;
    while cptr != null
      invariant k <= |t.kids| && cptr == NodeAt(t.kids, k) && ViewAll(t.kids)
      invariant d == d0.(kids := d.kids) && CopyOfAll(d.kids, t.kids[..k]) && nptr == Last(d.kids, null)
      invariant newitem.child == First(d.kids, null) && Segment(d.kids, null, null)
      invariant Separate(d) && NodesOf(d) !! NodesOfAll(t.kids)
      invariant fresh(OwnedAll(d.kids)) && mem.live == base + OwnedAll(d.kids)
      decreases |t.kids| - k
    {
      nptr, d := NextCopy(mem, newitem, cptr, nptr, d, t, k, base);
      cptr, k := cptr.next, k + 1;
    }
    Adopts(d0, d.kids);
    assert t.kids[..k] == t.kids;
  }

  // Child `k` is copied behind the copies of those before it.
  method NextCopy(mem: Heap, newitem: Node, cptr: Node, nptr: Node?, ghost d: Tree, ghost t: Tree, ghost k: nat,
      ghost base: set<object>)
    returns (newchild: Node, ghost u: Tree)
    requires newitem == d.node && newitem.child == First(d.kids, null) && Segment(d.kids, null, null)
    requires Separate(d) && nptr == Last(d.kids, null)
    requires k < |t.kids| && CopyOfAll(d.kids, t.kids[..k]) && cptr == t.kids[k].node
    requires ViewAll(t.kids) && NodesOf(d) !! NodesOfAll(t.kids) && OwnedAll(t.kids) <= base
    requires mem.live == base + OwnedAll(d.kids)
    modifies mem, newitem`child, NodesOfAll(d.kids)`next
    ensures u == d.(kids := u.kids) && newchild == Last(u.kids, null) && Separate(u)
    ensures newitem.child == First(u.kids, null) && Segment(u.kids, null, null)
    ensures fresh(OwnedAll(u.kids) - OwnedAll(d.kids)) && mem.live == base + OwnedAll(u.kids)
    ensures CopyOfAll(u.kids, t.kids[..k + 1]) && NodesOf(u) !! NodesOfAll(t.kids)
    ensures ViewAll(t.kids) && cptr.next == NodeAt(t.kids, k + 1)
    decreases t, 0, 2
  {
    ghost var x;
    newchild, x := DupChild(mem, newitem, cptr, nptr, d, t, k);
    NextAt(t.kids, k);
    CopiedOneMore(d.kids, x, t.kids, k);
    u := Grown(d, x);
  }

  lemma NextAt(ts: seq<Tree>, k: nat)
    requires k < |ts|
    ensures ViewAll(ts) ==> ts[k].node.next == NodeAt(ts, k + 1)
  {
    if ViewAll(ts) {
      KidAt(ts, k);
    }
  }

  lemma CopiedOneMore(ds: seq<Tree>, x: Tree, ts: seq<Tree>, k: nat)
    requires k < |ts|
    ensures CopyOfAll(ds, ts[..k]) && CopyOf(x, ts[k]) ==> CopyOfAll(ds + [x], ts[..k + 1])
    ensures OwnedAll(ds + [x]) == OwnedAll(ds) + Owned(x)
  {
    NodesOfJoin(ds, [x]);
    NodesOfOne(x);
    if CopyOfAll(ds, ts[..k]) && CopyOf(x, ts[k]) {
      CopyOfMore(ds, ts[..k], x, ts[k]);
    }
    assert ts[..k + 1] == ts[..k] + [ts[k]];
  }

  // Copying a child leaves the copies so far and the originals alone.
  method CopyBeside(mem: Heap, cptr: Node, ghost d: Tree, ghost t: Tree, ghost k: nat)
    returns (newchild: Node, ghost x: Tree)
    requires k < |t.kids| && cptr == t.kids[k].node && ViewAll(t.kids) && OwnedAll(t.kids) <= mem.live
    modifies mem
    ensures newchild == x.node && newchild.next == null && newchild.prev == null && CopyOf(x, t.kids[k])
    ensures Linked(x) && Separate(x) && fresh(Owned(x)) && mem.live == old(mem.live) + Owned(x)
    ensures NodesOf(x) !! NodesOf(d) + NodesOfAll(t.kids) && BlocksOf(x) !! BlocksOf(d)
    ensures (Segment(d.kids, null, null) <==> old(Segment(d.kids, null, null)))
    ensures (ViewAll(t.kids) <==> old(ViewAll(t.kids)))
    decreases t, 0, 0
  {
    assert allocated(NodesOf(d)) && allocated(BlocksOf(d));
    assert allocated(NodesOfAll(t.kids)) && allocated(BlocksOfAll(t.kids));
    KidAt(t.kids, k);
    newchild, x := DuplicateNode(mem, cptr, true, t.kids[k]);
  }

  // One turn of the loop over the children of `t`.
  method DupChild(mem: Heap, newitem: Node, cptr: Node, nptr: Node?, ghost d: Tree, ghost t: Tree, ghost k: nat)
    returns (newchild: Node, ghost x: Tree)
    requires newitem == d.node && newitem.child == First(d.kids, null) && Segment(d.kids, null, null)
    requires Separate(d) && nptr == Last(d.kids, null)
    requires k < |t.kids| && cptr == t.kids[k].node && OwnedAll(t.kids) <= mem.live
    requires ViewAll(t.kids) && NodesOf(d) !! NodesOfAll(t.kids)
    modifies mem, newitem`child, NodesOfAll(d.kids)`next
    ensures newchild == x.node && CopyOf(x, t.kids[k]) && fresh(Owned(x))
    ensures newitem.child == First(d.kids + [x], null) && Segment(d.kids + [x], null, null)
    ensures Separate(Grown(d, x)) && mem.live == old(mem.live) + Owned(x)
    ensures NodesOf(Grown(d, x)) !! NodesOfAll(t.kids) && ViewAll(t.kids)
    decreases t, 0, 1
  {
    newchild, x := CopyBeside(mem, cptr, d, t, k);
    GrownSeparate(d, x);
    AppendLink(newitem, nptr, newchild, d.kids, x, t.kids);
  }

  // `cJSON_Duplicate`
  method Duplicate(mem: Heap, item: Node?, recurse: bool, ghost t: Tree) returns (newitem: Node?, ghost d: Tree)
    requires item != null ==> View(t) && item == t.node && Owned(t) <= mem.live
    modifies mem
    ensures item == null ==> newitem == null && mem.live == old(mem.live)
    ensures item != null ==>
              && newitem == d.node && d.node.next == null && d.node.prev == null
              && Linked(d) && Separate(d) && fresh(Owned(d)) && mem.live == old(mem.live) + Owned(d)
              && if recurse then CopyOf(d, t) else CopyOfFields(d, t) && d.kids == []
  {
    newitem, d := null, t;
    if item != null {
      newitem, d := DuplicateNode(mem, item, recurse, t);
    }
  }

  // Deleting a deep copy gives back exactly what making it took, and leaves
  // the original as it was, reference nodes included.
  method DuplicateAndDelete(mem: Heap, item: Node, ghost t: Tree)
    requires View(t) && item == t.node && Owned(t) <= mem.live
    modifies mem
    ensures mem.live == old(mem.live) && View(t)
  {
    assert allocated(NodesOf(t)) && allocated(BlocksOf(t));
    var copy;
    ghost var d;
    copy, d := Duplicate(mem, item, true, t);
    NodesOfOne(d);
    LinkOne(d, null);
    Delete(mem, copy, [d], null);
  }
}

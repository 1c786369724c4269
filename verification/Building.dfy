/** Reference nodes, named members and the array builders. */
module Building {
  import opened Bytes
  import opened Memory
  import opened CStrings
  import opened JsonValues
  import opened Nodes
  import opened NodeMeaning
  import opened Deletion
  import opened ChildLists
  import opened Duplication
  import opened Names
  import opened Readers

  // What a reference to `t` owns, and what a reader finds in it.
  function OwnedReference(ref: Node, t: Tree): Tree {
    Tree(ref, t.kind, true, Absent, t.valueint, t.valuedouble, Absent, [])
  }

  function SeenReference(ref: Node, t: Tree): Tree {
    t.(node := ref, isReference := true, name := Absent)
  }

  // A new node. What a reader finds elsewhere stays.
  method NewBeside(mem: Heap, ghost t: Tree) returns (n: Node)
    modifies mem
    ensures fresh(n) && n !in NodesOf(t) && mem.live == old(mem.live) + {n} && n.next == null && n.prev == null
    ensures n.name == null && (View(t) <==> old(View(t)))
  {
    assert allocated(NodesOf(t)) && allocated(BlocksOf(t));
    n := NewItem(mem);
  }

  // The node becomes a reference to `item`.
  method ReferTo(ref: Node, item: Node, ghost t: Tree)
    requires View(t) && item == t.node && ref !in NodesOf(t) && ref.name == null
    modifies ref`child, ref`kind, ref`isReference, ref`valuestring, ref`valueint, ref`valuedouble
    ensures Linked(OwnedReference(ref, t)) && View(SeenReference(ref, t)) && View(t)
  {
    assert allocated(NodesOfAll(t.kids)) && allocated(BlocksOfAll(t.kids));
    ref.child, ref.kind, ref.isReference := item.child, item.kind, true;
    ref.valuestring, ref.valueint, ref.valuedouble := item.valuestring, item.valueint, item.valuedouble;
  }

  // `create_reference`: the node points at the children and the string of
  // `item`, but deleting it frees the node alone.
  method CreateReference(mem: Heap, item: Node, ghost t: Tree) returns (ref: Node)
    requires View(t) && item == t.node
    modifies mem
    ensures fresh(ref) && ref.next == null && ref.prev == null && mem.live == old(mem.live) + {ref}
    ensures Linked(OwnedReference(ref, t)) && Separate(OwnedReference(ref, t)) && Owned(OwnedReference(ref, t)) == {ref}
    ensures View(SeenReference(ref, t)) && View(t)
    ensures ref.child == item.child && ref.kind == item.kind && ref.isReference && ref.name == null
    ensures ref.valuestring == item.valuestring && ref.valueint == item.valueint && ref.valuedouble == item.valuedouble
  {
    ref := NewBeside(mem, t);
    ReferTo(ref, item, t);
  }

  // No path from the item leads to the nodes an append changes. The item itself
  // may be part of the list.
  predicate Clear(t: Tree, x: Tree) {
    NodesOfAll(x.kids) !! {t.node} + LastNode(t.kids)
  }

  lemma KidsApart(t: Tree, x: Tree, v: Tree, ref: Node)
    requires Linked(t) && !t.isReference && View(v) && t.node == v.node && Clear(t, x)
    requires ref !in NodesOfAll(x.kids)
    ensures NodesOfAll(x.kids) !! Touched(v, ref)
  {
    SameChain(t.kids, v.kids, null);
    if t.kids != [] {
      LastInside(t.kids);
    }
  }

  // `cJSON_AddItemReferenceToArray`: the list owns one node more, and a reader
  // of the list finds the value of the item behind what was there.
  method AddItemReferenceToArray(mem: Heap, parent: Node, item: Node, ghost t: Tree, ghost x: Tree, ghost v: Tree)
    returns (ref: Node)
    requires parent == t.node && !t.isReference && Linked(t) && Separate(t)
    requires View(x) && item == x.node && Clear(t, x)
    requires parent == v.node && View(v) && EndsOnce(v)
    modifies mem, parent`child, LastNode(t.kids)`next
    ensures fresh(ref) && mem.live == old(mem.live) + {ref}
    ensures Linked(Grown(t, OwnedReference(ref, x))) && Separate(Grown(t, OwnedReference(ref, x)))
    ensures View(Grown(v, SeenReference(ref, x)))
    ensures Items(Grown(v, SeenReference(ref, x)).kids) == Items(v.kids) + [Meaning(x)]
  {
    ref := ReferenceBeside(mem, item, t, x, v);
    AttachReference(parent, ref, t, x, v, OwnedReference(ref, x), SeenReference(ref, x));
  }

  // The reference, named or not, goes behind the last child.
  method AttachReference(parent: Node, ref: Node,
      ghost t: Tree, ghost x: Tree, ghost v: Tree, ghost y: Tree, ghost w: Tree)
    requires parent == t.node && !t.isReference && Linked(t) && Separate(t)
    requires parent == v.node && View(v) && EndsOnce(v)
    requires y == OwnedReference(ref, x).(name := y.name) && w == SeenReference(ref, x).(name := y.name)
    requires Linked(y) && View(w) && ref.next == null && ref.prev == null && BlocksOf(t) !! BlockOf(y.name)
    requires Clear(t, x) && ref !in NodesOf(t) + NodesOf(v) + NodesOf(x)
    modifies parent`child, LastNode(t.kids)`next, ref`prev
    ensures Linked(Grown(t, y)) && Separate(Grown(t, y)) && View(Grown(v, w))
    ensures Items(Grown(v, w).kids) == Items(v.kids) + [Meaning(x)]
    ensures Members(Grown(v, w).kids) == Members(v.kids) + [Member(TextOf(y.name), Meaning(x))]
  {
    KidsApart(t, x, v, ref);
    AppendSeen(parent, ref, t, y, v, w);
    ReferenceRead(v, ref, x, w);
  }

  // What a reader of the list finds in the reference is the item.
  lemma ReferenceRead(v: Tree, ref: Node, x: Tree, w: Tree)
    requires w == SeenReference(ref, x).(name := w.name)
    ensures Items(Grown(v, w).kids) == Items(v.kids) + [Meaning(x)]
    ensures Members(Grown(v, w).kids) == Members(v.kids) + [Member(TextOf(w.name), Meaning(x))]
  {
    ItemsAppend(v.kids, w);
  }

  // Making the reference leaves everything else as it is.
  method ReferenceBeside(mem: Heap, item: Node, ghost t: Tree, ghost x: Tree, ghost v: Tree) returns (ref: Node)
    requires View(x) && item == x.node
    modifies mem
    ensures fresh(ref) && ref.next == null && ref.prev == null && mem.live == old(mem.live) + {ref}
    ensures Linked(OwnedReference(ref, x)) && View(SeenReference(ref, x))
    ensures (Linked(t) <==> old(Linked(t))) && (View(v) <==> old(View(v)))
    ensures ref !in NodesOf(t) + NodesOf(v) + NodesOf(x)
  {
    assert allocated(NodesOf(t)) && allocated(BlocksOf(t));
    assert allocated(NodesOf(v)) && allocated(BlocksOf(v)) && allocated(NodesOf(x));
    ref := CreateReference(mem, item, x);
  }

  // ----- Names -----

  // All of `Linked` but the name.
  ghost predicate LinkedUnnamed(t: Tree)
    reads t.node`kind, t.node`isReference, t.node`valueint, t.node`valuedouble, t.node`valuestring, t.node`child
    reads BlockOf(t.value), NodesOfAll(t.kids), BlocksOfAll(t.kids)
  {
    && t.node.kind == t.kind && t.node.isReference == t.isReference
    && t.node.valueint == t.valueint && t.node.valuedouble == t.valuedouble
    && (if t.isReference then t.kids == [] && t.value == Absent
        else StrIs(t.node.valuestring, t.value) && t.node.child == First(t.kids, null) && Segment(t.kids, null, null))
  }

  lemma NameApart(t: Tree)
    ensures Linked(t) <==> LinkedUnnamed(t) && StrIs(t.node.name, t.name)
  {
  }

  // The block of a name can still be read, once the item's old name is freed,
  // exactly if it is not that old name.
  lemma KeyOutlivesOldName(live: set<object>, x: Tree, key: array<Byte>)
    requires key in live
    ensures key in live - BlockOf(x.name) <==> (x.name.Present? ==> key != x.name.block)
  {
  }

  // `if (item->string) cJSON_free(item->string);`
  method DropName(mem: Heap, item: Node, ghost x: Tree)
    requires item == x.node && Linked(x) && Separate(x) && Owned(x) <= mem.live
    modifies mem, BlockOf(x.name)
    ensures mem.live == old(mem.live) - BlockOf(x.name) && LinkedUnnamed(x)
  {
    NameApart(x);
    assert allocated(NodesOfAll(x.kids)) && allocated(BlocksOfAll(x.kids));
    if item.name != null {
      mem.Free(item.name);
    }
  }

  // `cJSON_AddItemToObject(object, item->string, item)` gets this far: the
  // pointer it was given, and is about to copy from, is no longer live.
  method DropOwnName(mem: Heap, item: Node, key: array<Byte>, ghost x: Tree)
    requires item == x.node && Linked(x) && Separate(x) && Owned(x) <= mem.live && key == item.name
    modifies mem, BlockOf(x.name)
    ensures key !in mem.live
  {
    DropName(mem, item, x);
  }

  // The old name is freed before the new one is copied, so that the two must
  // not be the same block.
  method Rename(mem: Heap, key: array<Byte>, item: Node, ghost text: Text, ghost x: Tree) returns (ghost y: Tree)
    requires key in mem.live && Holds(key, text) && (x.name.Present? ==> key != x.name.block)
    requires item == x.node && Linked(x) && Separate(x) && Owned(x) <= mem.live
    modifies mem, item`name, BlockOf(x.name)
    ensures y == x.(name := y.name) && y.name.Present? && y.name.text == text && fresh(y.name.block)
    ensures Linked(y) && Separate(y)
    ensures mem.live == old(mem.live) - BlockOf(x.name) + {y.name.block}
  {
    DropName(mem, item, x);
    KeyOutlivesOldName(old(mem.live), x, key);
    var copy := CopyName(mem, key, text, x);
    y := x.(name := Present(copy, text));
    SetName(item, copy, y);
  }

  method CopyName(mem: Heap, key: array<Byte>, ghost text: Text, ghost x: Tree) returns (copy: array<Byte>)
    requires key in mem.live && Holds(key, text)
    modifies mem
    ensures fresh(copy) && Holds(copy, text) && mem.live == old(mem.live) + {copy} && copy !in BlocksOf(x)
    ensures LinkedUnnamed(x) <==> old(LinkedUnnamed(x))
  {
    assert allocated(NodesOfAll(x.kids)) && allocated(BlocksOf(x));
    copy := StrDup(mem, key, text);
  }

  method SetName(item: Node, copy: array<Byte>, ghost y: Tree)
    requires item == y.node && LinkedUnnamed(y) && Separate(y)
    requires y.name.Present? && y.name.block == copy && Holds(copy, y.name.text)
    modifies item`name
    ensures Linked(y)
  {
    item.name := copy;
    NameApart(y);
  }

  // `cJSON_AddItemToObject`: the old name is freed and a copy of the new one
  // takes its place before the item is appended.
  method AddItemToObject(mem: Heap, parent: Node, key: array<Byte>, item: Node?,
      ghost text: Text, ghost t: Tree, ghost x: Tree)
    returns (ghost y: Tree)
    requires parent == t.node && !t.isReference && Linked(t) && Separate(t) && key in mem.live && Holds(key, text)
    requires item != null ==>
               && item == x.node && item.next == null && item.prev == null && Linked(x) && Separate(x)
               && NodesOf(t) !! NodesOf(x) && BlocksOf(t) !! BlocksOf(x) && Owned(x) <= mem.live
               && (x.name.Present? ==> key != x.name.block)
    modifies mem, If(item != null, {parent})`child, If(item != null, LastNode(t.kids))`next
    modifies If(item != null, {item})`prev, If(item != null, {item})`name, If(item != null, BlockOf(x.name))
    ensures item == null ==> mem.live == old(mem.live)
    ensures item != null ==>
              && y == x.(name := y.name) && y.name.Present? && y.name.text == text && fresh(y.name.block)
              && Linked(Grown(t, y)) && Separate(Grown(t, y))
              && mem.live == old(mem.live) - BlockOf(x.name) + {y.name.block}
  {
    y := x;
    if item != null {
      y := RenameBeside(mem, key, item, text, t, x);
      AddItemToArray(parent, item, t, y);
    }
  }

  // Renaming an item leaves the tree it is going to alone.
  method RenameBeside(mem: Heap, key: array<Byte>, item: Node, ghost text: Text, ghost t: Tree, ghost x: Tree)
    returns (ghost y: Tree)
    requires key in mem.live && Holds(key, text) && (x.name.Present? ==> key != x.name.block)
    requires item == x.node && Linked(x) && Separate(x) && Owned(x) <= mem.live
    requires NodesOf(t) !! NodesOf(x) && BlocksOf(t) !! BlocksOf(x)
    modifies mem, item`name, BlockOf(x.name)
    ensures y == x.(name := y.name) && y.name.Present? && y.name.text == text && fresh(y.name.block)
    ensures Linked(y) && Separate(y) && BlocksOf(t) !! BlocksOf(y)
    ensures mem.live == old(mem.live) - BlockOf(x.name) + {y.name.block}
    ensures Linked(t) <==> old(Linked(t))
  {
    assert allocated(NodesOf(t)) && allocated(BlocksOf(t));
    y := Rename(mem, key, item, text, x);
  }

  // `cJSON_AddItemReferenceToObject` goes the same way with a new reference,
  // whose name it owns; a reader finds the item's value under that name.
  method AddItemReferenceToObject(mem: Heap, parent: Node, key: array<Byte>, item: Node, ghost text: Text,
      ghost t: Tree, ghost x: Tree, ghost v: Tree)
    returns (ref: Node, ghost y: Tree, ghost w: Tree)
    requires parent == t.node && !t.isReference && Linked(t) && Separate(t) && key in mem.live && Holds(key, text)
    requires View(x) && item == x.node && Clear(t, x)
    requires parent == v.node && View(v) && EndsOnce(v)
    modifies mem, parent`child, LastNode(t.kids)`next
    ensures y == OwnedReference(ref, x).(name := y.name) && w == SeenReference(ref, x).(name := y.name)
    ensures y.name.Present? && y.name.text == text
    ensures fresh(Owned(y)) && mem.live == old(mem.live) + Owned(y)
    ensures Linked(Grown(t, y)) && Separate(Grown(t, y)) && View(Grown(v, w))
    ensures Members(Grown(v, w).kids) == Members(v.kids) + [Member(text, Meaning(x))]
  {
    assert allocated(BlocksOf(t));
    ref, y, w := NamedReference(mem, key, item, text, t, x, v);
    AttachReference(parent, ref, t, x, v, y, w);
  }

  method NamedReference(mem: Heap, key: array<Byte>, item: Node,
      ghost text: Text, ghost t: Tree, ghost x: Tree, ghost v: Tree)
    returns (ref: Node, ghost y: Tree, ghost w: Tree)
    requires key in mem.live && Holds(key, text) && View(x) && item == x.node
    modifies mem
    ensures y == OwnedReference(ref, x).(name := y.name) && w == SeenReference(ref, x).(name := y.name)
    ensures y.name.Present? && y.name.text == text && ref.next == null && ref.prev == null && Linked(y) && View(w)
    ensures fresh(Owned(y)) && mem.live == old(mem.live) + Owned(y) && ref !in NodesOf(t) + NodesOf(v) + NodesOf(x)
    ensures (Linked(t) <==> old(Linked(t))) && (View(v) <==> old(View(v)))
  {
    ref := ReferenceBeside(mem, item, t, x, v);
    y, w := NameReference(mem, key, ref, text, t, x, v);
    OwnedParts(y);
  }

  // The reference has no name yet, so that nothing is freed.
  method NameReference(mem: Heap, key: array<Byte>, ref: Node,
      ghost text: Text, ghost t: Tree, ghost x: Tree, ghost v: Tree)
    returns (ghost y: Tree, ghost w: Tree)
    requires key in mem.live && Holds(key, text) && ref !in NodesOf(t) + NodesOf(v) + NodesOf(x)
    requires Linked(OwnedReference(ref, x)) && View(SeenReference(ref, x)) && ref in mem.live
    modifies mem, ref`name
    ensures y == OwnedReference(ref, x).(name := y.name) && w == SeenReference(ref, x).(name := y.name)
    ensures y.name.Present? && y.name.text == text && fresh(y.name.block) && Linked(y) && View(w)
    ensures mem.live == old(mem.live) + {y.name.block}
    ensures (Linked(t) <==> old(Linked(t))) && (View(v) <==> old(View(v)))
  {
    ViewParts(SeenReference(ref, x));
    y := RenameAlone(mem, key, ref, text, t, x, v);
    w := SeenReference(ref, x).(name := y.name);
    ViewParts(w);
  }

  method RenameAlone(mem: Heap, key: array<Byte>, ref: Node,
      ghost text: Text, ghost t: Tree, ghost x: Tree, ghost v: Tree)
    returns (ghost y: Tree)
    requires key in mem.live && Holds(key, text) && ref !in NodesOf(t) + NodesOf(v) + NodesOf(x)
    requires Linked(OwnedReference(ref, x)) && ref in mem.live
    modifies mem, ref`name
    ensures y == OwnedReference(ref, x).(name := y.name) && y.name.Present? && y.name.text == text
    ensures fresh(y.name.block) && Linked(y) && mem.live == old(mem.live) + {y.name.block}
    ensures (Linked(t) <==> old(Linked(t))) && (View(v) <==> old(View(v)))
    ensures (ViewAll(x.kids) <==> old(ViewAll(x.kids))) && (TextIn(x.value) <==> old(TextIn(x.value)))
  {
    assert allocated(NodesOf(t)) && allocated(BlocksOf(t)) && allocated(NodesOf(v)) && allocated(BlocksOf(v));
    assert allocated(NodesOf(x)) && allocated(BlocksOf(x));
    y := Rename(mem, key, ref, text, OwnedReference(ref, x));
  }

  // `cJSON_ReplaceItemInObject`: the member that lookup finds makes way for the
  // new item, which gets a copy of the name.
  method ReplaceItemInObject(mem: Heap, parent: Node, key: array<Byte>, newitem: Node, ghost text: Text,
      ghost t: Tree, ghost x: Tree)
    returns (ghost y: Tree)
    requires parent == t.node && !t.isReference && Linked(t) && Separate(t) && Owned(t) <= mem.live
    requires key in mem.live && Holds(key, text) && Owned(x) <= mem.live
    requires newitem == x.node && Linked(x) && Separate(x) && NodesOf(t) !! NodesOf(x) && BlocksOf(t) !! BlocksOf(x)
    modifies mem, parent`child, newitem`next, newitem`prev, newitem`name, NodesOfAll(t.kids), BlocksOfAll(t.kids)
    ensures var k := FirstMatch(t.kids, Present(key, text));
            if k == |t.kids| then
              y == x && Linked(t) && Linked(x) && mem.live == old(mem.live)
            else
              && y == x.(name := y.name) && y.name.Present? && y.name.text == text && fresh(y.name.block)
              && Linked(t.(kids := With(t.kids, k, y))) && Separate(t.(kids := With(t.kids, k, y)))
              && mem.live == old(mem.live) + {y.name.block} - Owned(t.kids[k])
  {
    assert allocated(NodesOf(t)) && allocated(BlocksOf(t));
    assert allocated(NodesOf(x)) && allocated(BlocksOf(x));
    y := x;
    OwnedNames(t.kids, null);
    var c, i := FindName(mem, parent.child, key, t.kids, Present(key, text));
    if c != null {
      y := NameCopied(mem, key, newitem, text, t, x);
      ReplaceItemInArray(mem, parent, i, newitem, t, y);
    }
  }

  // `newitem->string = cJSON_strdup(string);`
  method NameCopied(mem: Heap, key: array<Byte>, newitem: Node, ghost text: Text, ghost t: Tree, ghost x: Tree)
    returns (ghost y: Tree)
    requires key in mem.live && Holds(key, text)
    requires newitem == x.node && Linked(x) && Separate(x) && newitem !in NodesOf(t)
    modifies mem, newitem`name
    ensures y == x.(name := y.name) && y.name.Present? && y.name.text == text && fresh(y.name.block)
    ensures Linked(y) && Separate(y) && mem.live == old(mem.live) + {y.name.block}
    ensures Linked(t) <==> old(Linked(t))
  {
    assert allocated(NodesOf(t)) && allocated(BlocksOf(t));
    NameApart(x);
    var copy := CopyName(mem, key, text, x);
    y := x.(name := Present(copy, text));
    SetName(newitem, copy, y);
  }

  // A replacement gives back all it no longer uses exactly if the new item came
  // without a name: a name it had stays allocated with nobody to free it.
  lemma ReplacementLeaks(live: set<object>, t: Tree, x: Tree, k: nat, y: Tree)
    requires k < |t.kids| && Separate(t) && Separate(x) && NodesOf(t) !! NodesOf(x) && BlocksOf(t) !! BlocksOf(x)
    requires Owned(t) + Owned(x) <= live && y == x.(name := y.name) && y.name.Present? && y.name.block !in live
    ensures live + {y.name.block} - Owned(t.kids[k])
         == live - Owned(t) - Owned(x) + Owned(t.(kids := With(t.kids, k, y)))
        <==> x.name == Absent
  {
    ReplacedParts(t, x, k, y);
    ReplacedApart(t, k);
    LeakedSet(live, RestParts(t, k), Owned(t.kids[k]), UnnamedParts(x), BlockOf(x.name), {y.name.block});
  }

  // All that an item owns but its name.
  function UnnamedParts(x: Tree): set<object> {
    var b: set<object> := BlockOf(x.value);
    {x.node} + b + OwnedAll(x.kids)
  }

  // What a list owns beside its `k`-th child.
  function RestParts(t: Tree, k: nat): set<object>
    requires k < |t.kids|
  {
    var b: set<object> := BlockOf(t.value) + BlockOf(t.name);
    {t.node} + b + OwnedAll(t.kids[..k]) + OwnedAll(t.kids[k + 1..])
  }

  lemma OwnedThree(a: seq<Tree>, x: Tree, b: seq<Tree>)
    ensures OwnedAll(a + [x] + b) == OwnedAll(a) + Owned(x) + OwnedAll(b)
  {
    NodesOfThree(a, x, b);
  }

  // What the list owns before and after a replacement, and what the item owns.
  lemma ReplacedParts(t: Tree, x: Tree, k: nat, y: Tree)
    requires k < |t.kids| && y == x.(name := y.name)
    ensures Owned(t) == RestParts(t, k) + Owned(t.kids[k])
    ensures Owned(t.(kids := With(t.kids, k, y))) == RestParts(t, k) + (UnnamedParts(x) + BlockOf(y.name))
    ensures Owned(x) == UnnamedParts(x) + BlockOf(x.name)
  {
    assert t.kids == t.kids[..k] + [t.kids[k]] + t.kids[k + 1..];
    OwnedThree(t.kids[..k], t.kids[k], t.kids[k + 1..]);
    OwnedThree(t.kids[..k], y, t.kids[k + 1..]);
    OwnedParts(t);
    OwnedParts(t.(kids := With(t.kids, k, y)));
    OwnedParts(x);
    OwnedParts(y);
  }

  lemma MixedApart(n: set<Node>, b: set<array<Byte>>, m: set<Node>, c: set<array<Byte>>)
    requires n !! m && b !! c
    ensures var n1: set<object>, b1: set<object>, m1: set<object>, c1: set<object> := n, b, m, c; n1 + b1 !! m1 + c1
  {
  }

  lemma ReplacedApart(t: Tree, k: nat)
    requires k < |t.kids| && Separate(t)
    ensures RestParts(t, k) !! Owned(t.kids[k])
  {
    var a, b := t.kids[..k], t.kids[k + 1..];
    SplitAt(t.kids, k);
    MixedApart({t.node} + NodesOfAll(a) + NodesOfAll(b),
               BlockOf(t.value) + BlockOf(t.name) + BlocksOfAll(a) + BlocksOfAll(b),
               NodesOf(t.kids[k]), BlocksOf(t.kids[k]));
  }

  lemma LeakedSet(live: set<object>, rest: set<object>, gone: set<object>,
      item: set<object>, name: set<object>, copy: set<object>)
    requires rest + gone + item + name <= live && copy !! live
    requires rest !! gone && item !! name && rest + gone !! item + name
    ensures live + copy - gone == live - (rest + gone) - (item + name) + (rest + (item + copy)) <==> name == {}
  {
    var after := live - (rest + gone) - (item + name) + (rest + (item + copy));
    assert live + copy - gone == after + name;
    assert name !! after;
  }

  // At an item with a name: its block is still allocated, and neither the new
  // list nor anything else has it.
  lemma LeakedName(live: set<object>, t: Tree, x: Tree, k: nat, y: Tree)
    requires k < |t.kids| && Separate(t) && Separate(x) && NodesOf(t) !! NodesOf(x) && BlocksOf(t) !! BlocksOf(x)
    requires Owned(t) + Owned(x) <= live && y == x.(name := y.name) && y.name.Present? && y.name.block !in live
    requires x.name.Present?
    ensures x.name.block in live + {y.name.block} - Owned(t.kids[k])
    ensures x.name.block !in live - Owned(t) - Owned(x) + Owned(t.(kids := With(t.kids, k, y)))
  {
    SplitAt(t.kids, k);
    NodesOfThree(t.kids[..k], y, t.kids[k + 1..]);
  }

  // ----- Builders -----

  function Numerals(ns: seq<int>): (js: seq<Json>)
    ensures |js| == |ns| && forall i | 0 <= i < |ns| :: js[i] == Number(ns[i] as real)
  {
    seq(|ns|, i requires 0 <= i < |ns| => Number(ns[i] as real))
  }

  // A number, alone in its node.
  function NumberTree(n: Node, v: int): Tree {
    Tree(n, KindNumber, false, Absent, v, v as real, Absent, [])
  }

  // One such node for each number, in order.
  predicate NumberTrees(ts: seq<Tree>, ns: seq<int>) {
    |ts| == |ns| && forall i | 0 <= i < |ts| :: ts[i] == NumberTree(ts[i].node, ns[i])
  }

  lemma {:induction false} NumbersMean(ts: seq<Tree>, ns: seq<int>)
    requires NumberTrees(ts, ns)
    ensures Items(ts) == Numerals(ns)
  {
    if ts == [] {
    } else {
      NumbersMean(ts[1..], ns[1..]);
    }
  }

  method CreateNumber(mem: Heap, n: int) returns (item: Node, ghost x: Tree)
    modifies mem
    ensures item == x.node && item.next == null && item.prev == null && Linked(x) && Separate(x)
    ensures fresh(Owned(x)) && mem.live == old(mem.live) + Owned(x)
    ensures x == NumberTree(item, n)
  {
    item := NewItem(mem);
    item.kind, item.valuedouble, item.valueint := KindNumber, n as real, n;
    x := NumberTree(item, n);
  }

  method CreateArray(mem: Heap) returns (item: Node, ghost x: Tree)
    modifies mem
    ensures item == x.node && item.next == null && item.prev == null && Linked(x) && Separate(x)
    ensures fresh(Owned(x)) && mem.live == old(mem.live) + Owned(x)
    ensures x == Tree(item, KindArray, false, Absent, 0, 0.0, Absent, [])
  {
    item := NewItem(mem);
    item.kind := KindArray;
    x := Tree(item, KindArray, false, Absent, 0, 0.0, Absent, []);
  }

  // `cJSON_CreateIntArray` stands for the source sequence.
  method CreateIntArray(mem: Heap, numbers: array<int>, count: int) returns (a: Node, ghost d: Tree)
    requires count <= numbers.Length
    modifies mem
    ensures a == d.node && Linked(d) && Separate(d) && fresh(Owned(d)) && mem.live == old(mem.live) + Owned(d)
    ensures var ns := numbers[..][..if count < 0 then 0 else count];
            NumberTrees(d.kids, ns) && Meaning(d) == Array(Numerals(ns))
  {
    ghost var e;
    a, e := CreateArray(mem);
    d := AddNumbers(mem, a, numbers, count, e);
    OwnedParts(d);
    NumbersMean(d.kids, numbers[..][..if count < 0 then 0 else count]);
  }

  method AddNumbers(mem: Heap, a: Node, numbers: array<int>, count: int, ghost e: Tree) returns (ghost d: Tree)
    requires count <= numbers.Length
    requires a == e.node && e.kids == [] && !e.isReference && Linked(e) && Separate(e)
    modifies mem, a`child
    ensures d == e.(kids := d.kids) && Linked(d) && Separate(d)
    ensures fresh(OwnedAll(d.kids)) && mem.live == old(mem.live) + OwnedAll(d.kids)
    ensures NumberTrees(d.kids, numbers[..][..if count < 0 then 0 else count])
  {
    d := e;
    var p: Node? := null;
    var i := 0;
    ghost var ns, base := numbers[..], mem.live;
    while i < count
      invariant 0 <= i && (i <= count || i == 0) && i <= numbers.Length && numbers[..] == ns
      invariant d == e.(kids := d.kids) && p == Last(d.kids, null) && Linked(d) && Separate(d)
      invariant fresh(OwnedAll(d.kids)) && mem.live == base + OwnedAll(d.kids)
      invariant NumberTrees(d.kids, ns[..i])
    {
      p, d := AddNumber(mem, a, p, numbers[i], d, ns, i, base);
      i := i + 1;
    }
  }

  // One turn of the loop.
  method AddNumber(mem: Heap, a: Node, p: Node?, n: int,
      ghost d: Tree, ghost ns: seq<int>, ghost i: nat, ghost base: set<object>)
    returns (item: Node, ghost e: Tree)
    requires a == d.node && !d.isReference && Linked(d) && Separate(d) && p == Last(d.kids, null)
    requires i < |ns| && ns[i] == n && NumberTrees(d.kids, ns[..i]) && mem.live == base + OwnedAll(d.kids)
    modifies mem, a`child, NodesOfAll(d.kids)`next
    ensures e == d.(kids := e.kids) && item == Last(e.kids, null) && Linked(e) && Separate(e)
    ensures OwnedAll(d.kids) <= OwnedAll(e.kids) && fresh(OwnedAll(e.kids) - OwnedAll(d.kids))
    ensures mem.live == base + OwnedAll(e.kids) && NumberTrees(e.kids, ns[..i + 1])
  {
    ghost var x;
    item, x := AppendNumber(mem, a, p, n, d);
    e := Grown(d, x);
  }

  method AppendNumber(mem: Heap, a: Node, p: Node?, n: int, ghost d: Tree) returns (item: Node, ghost x: Tree)
    requires a == d.node && !d.isReference && Linked(d) && Separate(d) && p == Last(d.kids, null)
    modifies mem, a`child, NodesOfAll(d.kids)`next
    ensures item == x.node && fresh(Owned(x)) && mem.live == old(mem.live) + Owned(x)
    ensures Linked(Grown(d, x)) && Separate(Grown(d, x))
    ensures OwnedAll(Grown(d, x).kids) == OwnedAll(d.kids) + Owned(x)
    ensures x == NumberTree(item, n)
  {
    assert allocated(NodesOf(d)) && allocated(BlocksOf(d));
    item, x := CreateNumber(mem, n);
    NodesOfJoin(d.kids, [x]);
    NodesOfOne(x);
    AppendKid(a, p, item, d, x, []);
  }
}

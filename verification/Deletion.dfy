/** `cJSON_Delete`: a chain of siblings and everything it owns, each block once. */
module Deletion {
  import opened Memory
  import opened Nodes

  // The blocks a tree owns; there are none below a reference node.
  function Owned(t: Tree): set<object> {
    var n: set<object> := NodesOf(t);
    var b: set<object> := BlocksOf(t);
    n + b
  }

  function OwnedAll(ts: seq<Tree>): set<object> {
    var n: set<object> := NodesOfAll(ts);
    var b: set<object> := BlocksOfAll(ts);
    n + b
  }

  lemma OwnedSplit(ts: seq<Tree>)
    requires ts != [] && SeparateAll(ts)
    ensures OwnedAll(ts) == Owned(ts[0]) + OwnedAll(ts[1..])
    ensures Owned(ts[0]) !! OwnedAll(ts[1..])
  {
  }

  lemma OwnedParts(t: Tree)
    ensures Owned(t) == {t.node} + BlockOf(t.value) + BlockOf(t.name) + OwnedAll(t.kids)
  {
  }

  // A child as a reader finds it.
  lemma {:induction false} KidAt(ts: seq<Tree>, k: nat)
    requires k < |ts| && ViewAll(ts)
    ensures View(ts[k]) && ts[k].node.next == First(ts[k + 1..], null)
    ensures Owned(ts[k]) <= OwnedAll(ts)
  {
    if k == 0 {
    } else {
      KidAt(ts[1..], k - 1);
      assert ts[1..][k..] == ts[k + 1..];
    }
  }

  method Delete(mem: Heap, item: Node?, ghost ts: seq<Tree>, ghost before: Node?)
    requires item == First(ts, null) && Segment(ts, before, null)
    requires SeparateAll(ts) && OwnedAll(ts) <= mem.live
    modifies mem, OwnedAll(ts)
    ensures mem.live == old(mem.live) - OwnedAll(ts)
    decreases ts, 2
  {
    var c := item;
    ghost var rest, b := ts, before;
    while c != null
      invariant c == First(rest, null) && Segment(rest, b, null) && SeparateAll(rest)
      invariant OwnedAll(rest) <= OwnedAll(ts) && OwnedAll(rest) <= mem.live && TailOf(rest, ts)
      invariant mem.live - OwnedAll(rest) == old(mem.live) - OwnedAll(ts)
      decreases |rest|
    {
      ghost var r := rest;
      rest, b := rest[1..], c;
      c := FreeFirst(mem, c, r, ts);
    }
  }

  // The link is read before the node goes.
  method FreeFirst(mem: Heap, c: Node, ghost rest: seq<Tree>, ghost ts: seq<Tree>) returns (next: Node?)
    requires rest != [] && c == rest[0].node && TailOf(rest, ts) && SeparateAll(rest) && OwnedAll(rest) <= mem.live
    requires Linked(rest[0]) && c.next == First(rest[1..], null) && Segment(rest[1..], c, null)
    modifies mem, Owned(rest[0])
    ensures OwnedAll(rest[1..]) <= OwnedAll(rest) && OwnedAll(rest[1..]) <= mem.live
    ensures mem.live - OwnedAll(rest[1..]) == old(mem.live) - OwnedAll(rest)
    ensures next == First(rest[1..], null) && Segment(rest[1..], c, null)
    decreases ts, 1
  {
    assert allocated(NodesOfAll(rest[1..])) && allocated(BlocksOfAll(rest[1..]));
    OwnedSplit(rest);
    next := c.next;
    FreeNode(mem, c, rest[0]);
  }

  predicate TailOf(rest: seq<Tree>, ts: seq<Tree>) {
    |rest| <= |ts| && rest == ts[|ts| - |rest|..]
  }

  method FreeNode(mem: Heap, c: Node, ghost t: Tree)
    requires c == t.node && Linked(t) && Separate(t) && Owned(t) <= mem.live
    modifies mem, Owned(t)
    ensures mem.live == old(mem.live) - Owned(t)
    decreases t, 0
  {
    OwnedParts(t);
    if !c.isReference && c.child != null {
      Delete(mem, c.child, t.kids, null);
    }
    if !c.isReference && c.valuestring != null {
      mem.Free(c.valuestring);
    }
    if c.name != null {
      mem.Free(c.name);
    }
    mem.Free(c);
  }
}

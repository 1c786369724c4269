/** The printing methods: every part is rendered, measured and composed in a
    buffer of the measured length, and every intermediate buffer is freed. */
module NodePrinter {
  import opened Bytes
  import opened Memory
  import opened CStrings
  import opened StringPrinter
  import opened JsonValues
  import opened Printer
  import opened Nodes
  import opened NodeMeaning
  import opened Deletion
  import opened TreePrinter
  import opened Composer

  // ----- Leaves -----

  // `cJSON_strdup` of a fixed text.
  method PrintWord(mem: Heap, s: Text) returns (out: array<Byte>)
    modifies mem
    ensures fresh(out) && Holds(out, s) && mem.live == old(mem.live) + {out}
  {
    out := mem.Malloc(|s| + 1);
    PutText(out, 0, s);
  }

  // `print_string_ptr`.
  method PrintStr(mem: Heap, p: array?<Byte>, ghost s: Str) returns (out: array<Byte>)
    requires StrIs(p, s) && BlockOf(s) <= mem.live
    modifies mem
    ensures fresh(out) && Holds(out, StrText(s)) && mem.live == old(mem.live) + {out}
  {
    if p == null {
      out := PrintWord(mem, []);
    } else {
      out := PrintLiteral(mem, p, s.text);
    }
  }

  method CountKids(first: Node?, ghost ts: seq<Tree>) returns (n: nat)
    requires first == First(ts, null) && ViewAll(ts)
    ensures n == |ts|
  {
    n := 0;
    var child := first;
    while child != null
      invariant n <= |ts| && child == First(ts[n..], null) && ViewAll(ts)
      decreases |ts| - n
    {
      KidAt(ts, n);
      n, child := n + 1, child.next;
    }
  }

  // ----- The parts of an array -----

  lemma {:induction false} TextAt(ts: seq<Tree>, k: nat, depth: nat, fmt: bool)
    requires k < |ts| && IntNumbersAll(ts)
    ensures IntNumbers(ts[k]) && KidTexts(ts, depth, fmt)[k] == NodeText(ts[k], depth, fmt)
    ensures NameTexts(ts)[k] == StrText(ts[k].name)
  {
    if k == 0 {
    } else {
      TextAt(ts[1..], k - 1, depth, fmt);
    }
  }

  // What the collecting loops have measured so far grows by one part at a time.
  lemma {:induction false} EntriesGrow(xs: seq<Text>, x: Text, fmt: bool)
    ensures EntriesLength(xs + [x], fmt) == EntriesLength(xs, fmt) + |x| + 2 + Flag(fmt, 1)
  {
    if xs == [] {
      assert (xs + [x])[1..] == [];
    } else {
      EntriesGrow(xs[1..], x, fmt);
      assert (xs + [x])[1..] == xs[1..] + [x];
    }
  }

  lemma {:induction false} MembersGrow(ns: seq<Text>, xs: seq<Text>, n: Text, x: Text, depth: nat, fmt: bool)
    requires |ns| == |xs|
    ensures MembersLength(ns + [n], xs + [x], depth, fmt)
         == MembersLength(ns, xs, depth, fmt) + |x| + |n| + 2 + Flag(fmt, 2 + depth)
  {
    if xs == [] {
      assert (xs + [x])[1..] == [] && (ns + [n])[1..] == [];
    } else {
      MembersGrow(ns[1..], xs[1..], n, x, depth, fmt);
      assert (xs + [x])[1..] == xs[1..] + [x] && (ns + [n])[1..] == ns[1..] + [n];
    }
  }

  lemma OneMoreTaken(xs: seq<Text>, k: nat)
    requires k < |xs|
    ensures xs[..k + 1] == xs[..k] + [xs[k]]
  {
  }

  lemma AllTaken(xs: seq<Text>, k: nat)
    requires k == |xs|
    ensures xs[..k] == xs
  {
  }

  // Child `k`, printed and measured.
  method PrintEntry(mem: Heap, child: Node, depth: nat, fmt: bool, ghost ts: seq<Tree>, ghost k: nat)
    returns (ret: array<Byte>, n: nat)
    requires k < |ts| && child == ts[k].node && ViewAll(ts) && IntNumbersAll(ts) && OwnedAll(ts) <= mem.live
    modifies mem
    ensures fresh(ret) && mem.live == old(mem.live) + {ret}
    ensures Holds(ret, KidTexts(ts, depth, fmt)[k]) && n == |KidTexts(ts, depth, fmt)[k]|
    ensures child.next == First(ts[k + 1..], null) && (ViewAll(ts) <==> old(ViewAll(ts)))
    decreases ts, 0
  {
    TextAt(ts, k, depth, fmt);
    KidAt(ts, k);
    assert allocated(NodesOfAll(ts)) && allocated(BlocksOfAll(ts));
    ret := PrintValue(mem, child, depth, fmt, ts[k]);
    n := StrLen(mem, ret, KidTexts(ts, depth, fmt)[k]);
  }

  // One turn of the collecting loop of `print_array`.
  method NextEntry(mem: Heap, child: Node, depth: nat, fmt: bool, entries: seq<array<Byte>>, len: nat,
      ghost ts: seq<Tree>, ghost k: nat, ghost base: set<object>)
    returns (entries2: seq<array<Byte>>, len2: nat)
    requires k < |ts| && child == ts[k].node && ViewAll(ts) && IntNumbersAll(ts) && OwnedAll(ts) <= base
    requires HoldAll(entries, KidTexts(ts, depth, fmt)[..k]) && Distinct(entries) && mem.live == base + Pile(entries)
    requires len == 5 + EntriesLength(KidTexts(ts, depth, fmt)[..k], fmt)
    modifies mem
    ensures HoldAll(entries2, KidTexts(ts, depth, fmt)[..k + 1]) && Distinct(entries2)
    ensures mem.live == base + Pile(entries2) && fresh(Pile(entries2) - Pile(entries))
    ensures len2 == 5 + EntriesLength(KidTexts(ts, depth, fmt)[..k + 1], fmt)
    ensures child.next == First(ts[k + 1..], null) && (ViewAll(ts) <==> old(ViewAll(ts)))
    decreases ts, 1
  {
    ghost var xs := KidTexts(ts, depth, fmt);
    var ret, n := PrintEntry(mem, child, depth, fmt, ts, k);
    OneMoreTaken(xs, k);
    OneMoreHeld(entries, xs[..k], ret, xs[k]);
    EntriesGrow(xs[..k], xs[k], fmt);
    entries2, len2 := entries + [ret], len + n + 2 + (if fmt then 1 else 0);
  }

  method PrintEntries(mem: Heap, first: Node?, depth: nat, fmt: bool, ghost ts: seq<Tree>)
    returns (entries: seq<array<Byte>>, len: nat)
    requires first == First(ts, null) && ViewAll(ts) && IntNumbersAll(ts) && OwnedAll(ts) <= mem.live
    modifies mem
    ensures HoldAll(entries, KidTexts(ts, depth, fmt)) && Distinct(entries) && fresh(Pile(entries))
    ensures mem.live == old(mem.live) + Pile(entries)
    ensures len == 5 + EntriesLength(KidTexts(ts, depth, fmt), fmt)
    decreases ts, 2
  {
    entries, len := [], 5;
    var child := first;
    ghost var k, xs := 0, KidTexts(ts, depth, fmt);
    while child != null
      invariant k <= |ts| && child == First(ts[k..], null) && (ViewAll(ts) <==> old(ViewAll(ts)))
      invariant HoldAll(entries, xs[..k]) && Distinct(entries) && fresh(Pile(entries))
      invariant mem.live == old(mem.live) + Pile(entries) && len == 5 + EntriesLength(xs[..k], fmt)
      decreases |ts| - k
    {
      entries, len := NextEntry(mem, child, depth, fmt, entries, len, ts, k, old(mem.live));
      child, k := child.next, k + 1;
    }
    AllTaken(xs, k);
  }

  method PrintArray(mem: Heap, item: Node, depth: nat, fmt: bool, ghost t: Tree) returns (out: array<Byte>)
    requires View(t) && item == t.node && t.kind == KindArray && IntNumbers(t) && Owned(t) <= mem.live
    modifies mem
    ensures fresh(out) && Holds(out, NodeText(t, depth, fmt)) && mem.live == old(mem.live) + {out}
    decreases t, 0
  {
    assert allocated(NodesOf(t)) && allocated(BlocksOf(t));
    var numentries := CountKids(item.child, t.kids);
    if numentries == 0 {
      out := mem.Malloc(3);
      PutText(out, 0, [OPEN_BRACKET, CLOSE_BRACKET]);
      assert NodeText(t, depth, fmt) == [OPEN_BRACKET, CLOSE_BRACKET];
    } else {
      out := PrintItems(mem, item.child, depth + 1, fmt, t.kids);
    }
  }

  method PrintItems(mem: Heap, first: Node?, depth: nat, fmt: bool, ghost ts: seq<Tree>) returns (out: array<Byte>)
    requires first == First(ts, null) && ViewAll(ts) && IntNumbersAll(ts) && OwnedAll(ts) <= mem.live && ts != []
    modifies mem
    ensures fresh(out) && Holds(out, ArrayText(KidTexts(ts, depth, fmt), fmt)) && mem.live == old(mem.live) + {out}
    decreases ts, 3
  {
    var entries, len := PrintEntries(mem, first, depth, fmt, ts);
    ghost var xs := KidTexts(ts, depth, fmt);
    ArrayBufferSuffices(xs, fmt);
    out := mem.Malloc(len);
    ComposeArray(mem, out, entries, fmt, xs);
  }

  // `print_value`.
  method PrintValue(mem: Heap, item: Node, depth: nat, fmt: bool, ghost t: Tree) returns (out: array<Byte>)
    requires View(t) && item == t.node && IntNumbers(t) && Owned(t) <= mem.live
    modifies mem
    ensures fresh(out) && Holds(out, NodeText(t, depth, fmt)) && mem.live == old(mem.live) + {out}
    decreases t, 2
  {
    match item.kind
    case KindNull => out := PrintWord(mem, NULL_WORD);
    case KindFalse => out := PrintWord(mem, FALSE_WORD);
    case KindTrue => out := PrintWord(mem, TRUE_WORD);
    case KindNumber => out := PrintInt(mem, item.valueint);
    case KindString => out := PrintStr(mem, item.valuestring, t.value);
    case KindArray => out := PrintArray(mem, item, depth, fmt, t);
    case KindObject => out := PrintObject(mem, item, depth, fmt, t);
  }

  // ----- The parts of an object -----

  // The name and the value of child `k`, printed and measured.
  method PrintPair(mem: Heap, child: Node, depth: nat, fmt: bool, ghost ts: seq<Tree>, ghost k: nat)
    returns (str: array<Byte>, ret: array<Byte>, more: nat)
    requires k < |ts| && child == ts[k].node && ViewAll(ts) && IntNumbersAll(ts) && OwnedAll(ts) <= mem.live
    modifies mem
    ensures fresh(str) && fresh(ret) && str != ret && mem.live == old(mem.live) + {str, ret}
    ensures Holds(str, NameTexts(ts)[k]) && Holds(ret, KidTexts(ts, depth, fmt)[k])
    ensures more == |KidTexts(ts, depth, fmt)[k]| + |NameTexts(ts)[k]| + 2 + Flag(fmt, 2 + depth)
    ensures child.next == First(ts[k + 1..], null) && (ViewAll(ts) <==> old(ViewAll(ts)))
    decreases ts, 1
  {
    var r;
    str := PrintName(mem, child, depth, fmt, ts, k);
    ret, r := PrintEntry(mem, child, depth, fmt, ts, k);
    var s := StrLen(mem, str, NameTexts(ts)[k]);
    more := r + s + 2 + (if fmt then 2 + depth else 0);
  }

  method PrintName(mem: Heap, child: Node, ghost depth: nat, ghost fmt: bool, ghost ts: seq<Tree>, ghost k: nat)
    returns (str: array<Byte>)
    requires k < |ts| && child == ts[k].node && ViewAll(ts) && IntNumbersAll(ts) && OwnedAll(ts) <= mem.live
    modifies mem
    ensures fresh(str) && mem.live == old(mem.live) + {str} && Holds(str, NameTexts(ts)[k])
    ensures ViewAll(ts) <==> old(ViewAll(ts))
  {
    TextAt(ts, k, depth, fmt);
    KidAt(ts, k);
    assert allocated(NodesOfAll(ts)) && allocated(BlocksOfAll(ts));
    str := PrintStr(mem, child.name, ts[k].name);
  }

  // One turn of the collecting loop of `print_object`.
  method NextPair(mem: Heap, child: Node, depth: nat, fmt: bool,
      names: seq<array<Byte>>, entries: seq<array<Byte>>, len: nat,
      ghost ts: seq<Tree>, ghost k: nat, ghost base: set<object>)
    returns (names2: seq<array<Byte>>, entries2: seq<array<Byte>>, len2: nat)
    requires k < |ts| && child == ts[k].node && ViewAll(ts) && IntNumbersAll(ts) && OwnedAll(ts) <= base
    requires Gathered(names, entries, NameTexts(ts)[..k], KidTexts(ts, depth, fmt)[..k])
    requires mem.live == base + (Pile(names) + Pile(entries))
    requires len == 7 + Flag(fmt, depth) + MembersLength(NameTexts(ts)[..k], KidTexts(ts, depth, fmt)[..k], depth, fmt)
    modifies mem
    ensures Gathered(names2, entries2, NameTexts(ts)[..k + 1], KidTexts(ts, depth, fmt)[..k + 1])
    ensures mem.live == base + (Pile(names2) + Pile(entries2))
    ensures fresh(Pile(names2) + Pile(entries2) - (Pile(names) + Pile(entries)))
    ensures len2 == 7 + Flag(fmt, depth)
                    + MembersLength(NameTexts(ts)[..k + 1], KidTexts(ts, depth, fmt)[..k + 1], depth, fmt)
    ensures child.next == First(ts[k + 1..], null) && (ViewAll(ts) <==> old(ViewAll(ts)))
    decreases ts, 2
  {
    ghost var ns, xs := NameTexts(ts), KidTexts(ts, depth, fmt);
    var str, ret, more := PrintPair(mem, child, depth, fmt, ts, k);
    OneMoreTaken(ns, k);
    OneMoreTaken(xs, k);
    GatherMore(names, entries, ns[..k], xs[..k], str, ret, ns[k], xs[k]);
    MembersGrow(ns[..k], xs[..k], ns[k], xs[k], depth, fmt);
    names2, entries2, len2 := names + [str], entries + [ret], len + more;
  }

  method PrintPairs(mem: Heap, first: Node?, depth: nat, fmt: bool, ghost ts: seq<Tree>)
    returns (names: seq<array<Byte>>, entries: seq<array<Byte>>, len: nat)
    requires first == First(ts, null) && ViewAll(ts) && IntNumbersAll(ts) && OwnedAll(ts) <= mem.live
    modifies mem
    ensures Gathered(names, entries, NameTexts(ts), KidTexts(ts, depth, fmt))
    ensures fresh(Pile(names) + Pile(entries)) && mem.live == old(mem.live) + (Pile(names) + Pile(entries))
    ensures len == 7 + Flag(fmt, depth) + MembersLength(NameTexts(ts), KidTexts(ts, depth, fmt), depth, fmt)
    decreases ts, 3
  {
    names, entries, len := [], [], 7;
    if fmt {
      len := len + depth;
    }
    var child := first;
    ghost var k, ns, xs := 0, NameTexts(ts), KidTexts(ts, depth, fmt);
    while child != null
      invariant k <= |ts| && child == First(ts[k..], null) && (ViewAll(ts) <==> old(ViewAll(ts)))
      invariant Gathered(names, entries, ns[..k], xs[..k]) && fresh(Pile(names) + Pile(entries))
      invariant mem.live == old(mem.live) + (Pile(names) + Pile(entries))
      invariant len == 7 + Flag(fmt, depth) + MembersLength(ns[..k], xs[..k], depth, fmt)
      decreases |ts| - k
    {
      names, entries, len := NextPair(mem, child, depth, fmt, names, entries, len, ts, k, old(mem.live));
      child, k := child.next, k + 1;
    }
    AllTaken(ns, k);
    AllTaken(xs, k);
  }

  method PrintObject(mem: Heap, item: Node, depth: nat, fmt: bool, ghost t: Tree) returns (out: array<Byte>)
    requires View(t) && item == t.node && t.kind == KindObject && IntNumbers(t) && Owned(t) <= mem.live
    modifies mem
    ensures fresh(out) && Holds(out, NodeText(t, depth, fmt)) && mem.live == old(mem.live) + {out}
    decreases t, 1
  {
    assert allocated(NodesOf(t)) && allocated(BlocksOf(t));
    var numentries := CountKids(item.child, t.kids);
    if numentries == 0 {
      out := PrintEmptyObject(mem, depth, fmt);
    } else {
      out := PrintMembers(mem, item.child, depth, fmt, t.kids);
    }
  }

  method PrintMembers(mem: Heap, first: Node?, depth: nat, fmt: bool, ghost ts: seq<Tree>) returns (out: array<Byte>)
    requires first == First(ts, null) && ViewAll(ts) && IntNumbersAll(ts) && OwnedAll(ts) <= mem.live && ts != []
    modifies mem
    ensures fresh(out) && Holds(out, ObjectText(NameTexts(ts), KidTexts(ts, depth + 1, fmt), depth, fmt))
    ensures mem.live == old(mem.live) + {out}
    decreases ts, 4
  {
    var names, entries, len := PrintPairs(mem, first, depth + 1, fmt, ts);
    out := RenderObject(mem, names, entries, len, depth, fmt, NameTexts(ts), KidTexts(ts, depth + 1, fmt));
  }

  method RenderObject(mem: Heap, names: seq<array<Byte>>, entries: seq<array<Byte>>, len: nat, depth: nat, fmt: bool,
      ghost ns: seq<Text>, ghost xs: seq<Text>)
    returns (out: array<Byte>)
    requires xs != [] && |ns| == |xs| && Gathered(names, entries, ns, xs)
    requires len == ObjectLength(ns, xs, depth, fmt) && Pile(names) + Pile(entries) <= mem.live
    modifies mem, Pile(names), Pile(entries)
    ensures fresh(out) && Holds(out, ObjectText(ns, xs, depth, fmt))
    ensures mem.live == old(mem.live) - (Pile(names) + Pile(entries)) + {out}
  {
    ObjectBufferSuffices(ns, xs, depth, fmt);
    out := mem.Malloc(len);
    ComposeObject(mem, out, names, entries, depth, fmt, ns, xs);
  }

  method PrintEmptyObject(mem: Heap, depth: nat, fmt: bool) returns (out: array<Byte>)
    modifies mem
    ensures fresh(out) && Holds(out, ObjectText([], [], depth, fmt)) && mem.live == old(mem.live) + {out}
  {
    out := mem.Malloc(if fmt then depth + 4 else 3);
    var ptr := PutByte(out, 0, OPEN_BRACE);
    ObjectBufferSuffices([], [], depth, fmt);
    TabsCount(depth - 1);
    ghost var front := [OPEN_BRACE] + Only(fmt, [NEWLINE]);
    if fmt {
      ptr := PutByte(out, ptr, NEWLINE);
    }
    assert front + Only(fmt, Tabs(depth - 1)) == [OPEN_BRACE] + Only(fmt, [NEWLINE] + Tabs(depth - 1));
    CloseObject(out, ptr, fmt, depth - 1, front);
  }

  // ----- The entry points -----

  // `cJSON_Print`: the text of the value the tree stands for, in a new buffer
  // that is the only block left over.
  method RenderFormatted(mem: Heap, item: Node?, ghost t: Tree) returns (out: array?<Byte>)
    requires item != null ==> item == t.node && View(t) && ReadyToPrint(t) && Owned(t) <= mem.live
    modifies mem
    ensures item == null ==> out == null && mem.live == old(mem.live)
    ensures item != null ==>
              && out != null && fresh(out) && mem.live == old(mem.live) + {out}
              && ReadyToPrint(t) && Printable(Meaning(t)) && Holds(out, Print(Meaning(t), 0, true))
  {
    out := null;
    if item != null {
      PrintsItsMeaning(t, 0, true);
      out := PrintValue(mem, item, 0, true, t);
    }
  }

  // `cJSON_PrintUnformatted`.
  method RenderUnformatted(mem: Heap, item: Node?, ghost t: Tree) returns (out: array?<Byte>)
    requires item != null ==> item == t.node && View(t) && ReadyToPrint(t) && Owned(t) <= mem.live
    modifies mem
    ensures item == null ==> out == null && mem.live == old(mem.live)
    ensures item != null ==>
              && out != null && fresh(out) && mem.live == old(mem.live) + {out}
              && ReadyToPrint(t) && Printable(Meaning(t)) && Holds(out, Print(Meaning(t), 0, false))
  {
    out := null;
    if item != null {
      PrintsItsMeaning(t, 0, false);
      out := PrintValue(mem, item, 0, false, t);
    }
  }
}

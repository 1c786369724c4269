/** Composing printed parts in one buffer: each part is read while it is live
    and freed once, and nothing is written past the measured end. */
module Composer {
  import opened Bytes
  import opened Memory
  import opened CStrings
  import opened Printer
  import opened TreePrinter

  // ----- The rendered parts -----

  ghost predicate HoldAll(es: seq<array<Byte>>, xs: seq<Text>)
    reads es
  {
    |es| == |xs| && forall i {:trigger es[i]} | 0 <= i < |es| :: Holds(es[i], xs[i])
  }

  predicate Distinct(es: seq<array<Byte>>) {
    forall i, j | 0 <= i < j < |es| :: es[i] != es[j]
  }

  function Pile(es: seq<array<Byte>>): set<object> {
    set e | e in es
  }

  lemma OneMoreHeld(es: seq<array<Byte>>, xs: seq<Text>, e: array<Byte>, x: Text)
    requires HoldAll(es, xs) && Holds(e, x) && Distinct(es) && e !in Pile(es)
    ensures HoldAll(es + [e], xs + [x]) && Distinct(es + [e]) && Pile(es + [e]) == Pile(es) + {e}
  {
  }

  lemma FirstHeld(es: seq<array<Byte>>, xs: seq<Text>)
    requires es != [] && HoldAll(es, xs) && Distinct(es)
    ensures Holds(es[0], xs[0]) && HoldAll(es[1..], xs[1..]) && Distinct(es[1..])
    ensures Pile(es) == {es[0]} + Pile(es[1..]) && es[0] !in Pile(es[1..])
  {
    assert es == [es[0]] + es[1..];
  }

  // ----- Writing pieces -----

  // `*ptr++ = c;`
  method PutByte(out: array<Byte>, at: nat, c: Byte) returns (next: nat)
    requires at < out.Length
    modifies out
    ensures next == at + 1 && out[..next] == old(out[..at]) + [c]
  {
    out[at] := c;
    next := at + 1;
  }

  // `strcpy(ptr, a); ptr += strlen(a);`
  method PutString(mem: Heap, out: array<Byte>, at: nat, a: array<Byte>, ghost s: Text) returns (next: nat)
    requires a in mem.live && a != out && Holds(a, s) && at + |s| < out.Length
    modifies out
    ensures next == at + |s| && out[..next] == old(out[..at]) + s
  {
    StrCpy(mem, out, at, a, s);
    var n := StrLen(mem, a, s);
    next := at + n;
    assert out[..next] == out[..at] + out[at..next];
  }

  method PutTabs(out: array<Byte>, at: nat, n: int) returns (next: nat)
    requires at + |Tabs(n)| <= out.Length
    modifies out
    ensures next == at + |Tabs(n)| && out[..next] == old(out[..at]) + Tabs(n)
  {
    next := at;
    var i := 0;
    TabsCount(n);
    while i < n
      invariant 0 <= i && (i <= n || i == 0) && next == at + i && |Tabs(i)| == i
      invariant out[..next] == old(out[..at]) + Tabs(i)
    {
      TabsCount(i + 1);
      ghost var written := out[..next];
      next := PutByte(out, next, TAB);
      assert out[..next] == old(out[..at]) + (Tabs(i) + [TAB]);
      i := i + 1;
    }
  }

  // ----- Arrays -----

  function Tail(last: bool, fmt: bool): Text {
    if last then [] else Separator(fmt)
  }

  // Room for `rest` and a terminator is left, and `rest` is all that is missing.
  ghost predicate Missing(out: array<Byte>, at: nat, rest: Text, whole: Text)
    reads out
  {
    |whole| + 1 < out.Length && at + |rest| == |whole| && out[..at] + rest == whole
  }

  // `*ptr++ = c; *ptr++ = 0;`
  method Close(out: array<Byte>, at: nat, c: TextByte, ghost whole: Text)
    requires Missing(out, at, [], whole)
    modifies out
    ensures Holds(out, whole + [c])
  {
    assert out[..at] == whole;
    var next := PutByte(out, at, c);
    out[next] := 0;
  }

  method PutEntry(mem: Heap, out: array<Byte>, at: nat, entry: array<Byte>, last: bool, fmt: bool,
      ghost x: Text, ghost rest: Text, ghost whole: Text)
    returns (next: nat)
    requires entry in mem.live && entry != out && Holds(entry, x) && Missing(out, at, x + Tail(last, fmt) + rest, whole)
    modifies out
    ensures Missing(out, next, rest, whole)
  {
    ghost var written := out[..at];
    next := PutString(mem, out, at, entry, x);
    if !last {
      next := PutByte(out, next, COMMA);
      if fmt {
        next := PutByte(out, next, SPACE);
      }
      out[next] := 0;
    }
    assert out[..next] == written + (x + Tail(last, fmt));
    Regroup(written, x + Tail(last, fmt), rest);
  }

  // One turn of the compose loop of `print_array`.
  method WriteEntry(mem: Heap, out: array<Byte>, at: nat, entry: array<Byte>, last: bool, fmt: bool,
      ghost es: seq<array<Byte>>, ghost xs: seq<Text>, ghost whole: Text)
    returns (next: nat)
    requires es != [] && entry == es[0] && last == (|es| == 1) && HoldAll(es, xs) && Distinct(es)
    requires out !in Pile(es) && entry in mem.live && Missing(out, at, Joined(xs, fmt), whole)
    modifies mem, out, entry
    ensures Missing(out, next, Joined(xs[1..], fmt), whole) && HoldAll(es[1..], xs[1..])
    ensures mem.live == old(mem.live) - {entry}
  {
    FirstHeld(es, xs);
    next := PutEntry(mem, out, at, entry, last, fmt, xs[0], Joined(xs[1..], fmt), whole);
    mem.Free(entry);
  }

  method ComposeArray(mem: Heap, out: array<Byte>, entries: seq<array<Byte>>, fmt: bool, ghost xs: seq<Text>)
    requires xs != [] && HoldAll(entries, xs) && out !in Pile(entries) && |ArrayText(xs, fmt)| < out.Length
    requires Distinct(entries) && Pile(entries) <= mem.live
    modifies mem, out, Pile(entries)
    ensures Holds(out, ArrayText(xs, fmt)) && mem.live == old(mem.live) - Pile(entries)
  {
    ghost var whole := [OPEN_BRACKET] + Joined(xs, fmt);
    var ptr := PutByte(out, 0, OPEN_BRACKET);
    out[ptr] := 0;
    var i := 0;
    ghost var es, rest := entries, xs;
    while i < |entries|
      invariant i <= |entries| && es == entries[i..] && HoldAll(es, rest) && Distinct(es)
      invariant Missing(out, ptr, Joined(rest, fmt), whole)
      invariant Pile(es) <= Pile(entries) && Pile(es) <= mem.live
      invariant mem.live - Pile(es) == old(mem.live) - Pile(entries)
    {
      FirstHeld(es, rest);
      ptr := WriteEntry(mem, out, ptr, entries[i], i == |entries| - 1, fmt, es, rest, whole);
      i, es, rest := i + 1, es[1..], rest[1..];
    }
    Close(out, ptr, CLOSE_BRACKET, whole);
  }

  // ----- Objects -----

  method PutMember(mem: Heap, out: array<Byte>, at: nat, name: array<Byte>, entry: array<Byte>, last: bool,
      depth: nat, fmt: bool, ghost n: Text, ghost x: Text, ghost rest: Text, ghost whole: Text)
    returns (next: nat)
    requires name in mem.live && entry in mem.live && name != out && entry != out && Holds(name, n) && Holds(entry, x)
    requires Missing(out, at, MemberText(n, x, last, depth, fmt) + rest, whole)
    modifies out
    ensures Missing(out, next, rest, whole)
  {
    ghost var front, end := MemberFront(n, depth, fmt), Break(last, fmt);
    RegroupFour(front, x, end, rest);
    next := PutLabel(mem, out, at, name, depth, fmt, n, x + (end + rest), whole);
    next := PutPart(mem, out, next, entry, x, end + rest, whole);
    next := PutBreak(out, next, last, fmt, rest, whole);
  }

  method PutPart(mem: Heap, out: array<Byte>, at: nat, a: array<Byte>,
      ghost s: Text, ghost rest: Text, ghost whole: Text)
    returns (next: nat)
    requires a in mem.live && a != out && Holds(a, s) && Missing(out, at, s + rest, whole)
    modifies out
    ensures Missing(out, next, rest, whole)
  {
    ghost var written := out[..at];
    next := PutString(mem, out, at, a, s);
    Regroup(written, s, rest);
  }

  method PutBreak(out: array<Byte>, at: nat, last: bool, fmt: bool, ghost rest: Text, ghost whole: Text)
    returns (next: nat)
    requires Missing(out, at, Break(last, fmt) + rest, whole)
    modifies out
    ensures Missing(out, next, rest, whole)
  {
    ghost var written := out[..at];
    next := at;
    if !last {
      next := PutByte(out, next, COMMA);
    }
    if fmt {
      next := PutByte(out, next, NEWLINE);
    }
    out[next] := 0;
    assert out[..next] == written + Break(last, fmt);
    Regroup(written, Break(last, fmt), rest);
  }

  // A label is written as it is spelled.
  lemma LabelInParts(written: seq<Byte>, n: Text, depth: nat, fmt: bool)
    ensures (if fmt then written + Tabs(depth) + n + [COLON] + [TAB] else written + n + [COLON])
         == written + MemberFront(n, depth, fmt)
  {
  }

  method PutLabel(mem: Heap, out: array<Byte>, at: nat, name: array<Byte>, depth: nat, fmt: bool,
      ghost n: Text, ghost rest: Text, ghost whole: Text)
    returns (next: nat)
    requires name in mem.live && name != out && Holds(name, n)
    requires Missing(out, at, MemberFront(n, depth, fmt) + rest, whole)
    modifies out
    ensures Missing(out, next, rest, whole)
  {
    ghost var written := out[..at];
    next := at;
    if fmt {
      next := PutTabs(out, next, depth);
    }
    next := PutString(mem, out, next, name, n);
    next := PutByte(out, next, COLON);
    if fmt {
      next := PutByte(out, next, TAB);
    }
    LabelInParts(written, n, depth, fmt);
    Regroup(written, MemberFront(n, depth, fmt), rest);
  }

  // `{` and, when formatting, a line break.
  method OpenObject(out: array<Byte>, fmt: bool) returns (ptr: nat)
    requires out.Length > 2
    modifies out
    ensures ptr == |[OPEN_BRACE] + Only(fmt, [NEWLINE])| && out[..ptr] == [OPEN_BRACE] + Only(fmt, [NEWLINE])
  {
    ptr := PutByte(out, 0, OPEN_BRACE);
    if fmt {
      ptr := PutByte(out, ptr, NEWLINE);
    }
    out[ptr] := 0;
  }

  // Tabs, `}` and the terminator.
  method CloseObject(out: array<Byte>, at: nat, fmt: bool, n: int, ghost whole: Text)
    requires at + |Only(fmt, Tabs(n))| + 2 <= out.Length && out[..at] == whole
    modifies out
    ensures Holds(out, whole + Only(fmt, Tabs(n)) + [CLOSE_BRACE])
  {
    var next := at;
    if fmt {
      next := PutTabs(out, next, n);
    }
    assert out[..next] == whole + Only(fmt, Tabs(n));
    Close(out, next, CLOSE_BRACE, whole + Only(fmt, Tabs(n)));
  }

  ghost predicate Gathered(names: seq<array<Byte>>, entries: seq<array<Byte>>, ns: seq<Text>, xs: seq<Text>)
    reads names, entries
  {
    HoldAll(names, ns) && HoldAll(entries, xs) && Distinct(names) && Distinct(entries) && Pile(names) !! Pile(entries)
  }

  lemma GatherMore(names: seq<array<Byte>>, entries: seq<array<Byte>>, ns: seq<Text>, xs: seq<Text>,
      str: array<Byte>, ret: array<Byte>, n: Text, x: Text)
    requires Gathered(names, entries, ns, xs) && Holds(str, n) && Holds(ret, x)
    requires {str, ret} !! Pile(names) + Pile(entries) && str != ret
    ensures Gathered(names + [str], entries + [ret], ns + [n], xs + [x])
    ensures Pile(names + [str]) + Pile(entries + [ret]) == Pile(names) + Pile(entries) + {str, ret}
  {
    OneMoreHeld(names, ns, str, n);
    OneMoreHeld(entries, xs, ret, x);
  }

  lemma FirstGathered(names: seq<array<Byte>>, entries: seq<array<Byte>>, ns: seq<Text>, xs: seq<Text>)
    requires Gathered(names, entries, ns, xs) && names != [] && entries != []
    ensures Gathered(names[1..], entries[1..], ns[1..], xs[1..]) && Holds(names[0], ns[0]) && Holds(entries[0], xs[0])
    ensures Pile(names) + Pile(entries) == {names[0], entries[0]} + (Pile(names[1..]) + Pile(entries[1..]))
    ensures {names[0], entries[0]} !! Pile(names[1..]) + Pile(entries[1..]) && names[0] != entries[0]
  {
    FirstHeld(names, ns);
    FirstHeld(entries, xs);
  }

  // One turn of the compose loop of `print_object`.
  method WriteMember(mem: Heap, out: array<Byte>, at: nat, name: array<Byte>, entry: array<Byte>, last: bool,
      depth: nat, fmt: bool, ghost names: seq<array<Byte>>, ghost es: seq<array<Byte>>,
      ghost ns: seq<Text>, ghost xs: seq<Text>, ghost whole: Text)
    returns (next: nat)
    requires names != [] && es != [] && name == names[0] && entry == es[0] && last == (|es| == 1)
    requires Gathered(names, es, ns, xs) && |ns| == |xs| && out !in Pile(names) + Pile(es)
    requires name in mem.live && entry in mem.live && Missing(out, at, JoinedMembers(ns, xs, depth, fmt), whole)
    modifies mem, out, name, entry
    ensures Missing(out, next, JoinedMembers(ns[1..], xs[1..], depth, fmt), whole)
    ensures Gathered(names[1..], es[1..], ns[1..], xs[1..]) && mem.live == old(mem.live) - {name, entry}
  {
    FirstGathered(names, es, ns, xs);
    next := PutMember(mem, out, at, name, entry, last, depth, fmt, ns[0], xs[0],
      JoinedMembers(ns[1..], xs[1..], depth, fmt), whole);
    mem.Free(name);
    mem.Free(entry);
  }

  method ComposeObject(mem: Heap, out: array<Byte>, names: seq<array<Byte>>, entries: seq<array<Byte>>,
      depth: nat, fmt: bool, ghost ns: seq<Text>, ghost xs: seq<Text>)
    requires xs != [] && |ns| == |xs| && Gathered(names, entries, ns, xs) && out !in Pile(names) + Pile(entries)
    requires |ObjectText(ns, xs, depth, fmt)| < out.Length && Pile(names) + Pile(entries) <= mem.live
    modifies mem, out, Pile(names), Pile(entries)
    ensures Holds(out, ObjectText(ns, xs, depth, fmt)) && mem.live == old(mem.live) - (Pile(names) + Pile(entries))
  {
    ghost var whole := [OPEN_BRACE] + Only(fmt, [NEWLINE]) + JoinedMembers(ns, xs, depth + 1, fmt);
    var ptr := OpenObject(out, fmt);
    ptr := PutMembers(mem, out, ptr, names, entries, depth + 1, fmt, ns, xs, whole);
    CloseObject(out, ptr, fmt, depth, whole);
  }

  method PutMembers(mem: Heap, out: array<Byte>, at: nat, names: seq<array<Byte>>, entries: seq<array<Byte>>,
      depth: nat, fmt: bool, ghost ns: seq<Text>, ghost xs: seq<Text>, ghost whole: Text)
    returns (ptr: nat)
    requires |ns| == |xs| && Gathered(names, entries, ns, xs) && out !in Pile(names) + Pile(entries)
    requires Missing(out, at, JoinedMembers(ns, xs, depth, fmt), whole) && Pile(names) + Pile(entries) <= mem.live
    modifies mem, out, Pile(names), Pile(entries)
    ensures Missing(out, ptr, [], whole) && mem.live == old(mem.live) - (Pile(names) + Pile(entries))
  {
    ptr := at;
    var i := 0;
    ghost var nms, es, nrest, rest := names, entries, ns, xs;
    ghost var left, all := Pile(names) + Pile(entries), Pile(names) + Pile(entries);
    while i < |entries|
      invariant i <= |entries| == |names| && nms == names[i..] && es == entries[i..] && |nrest| == |rest|
      invariant Gathered(nms, es, nrest, rest) && left == Pile(nms) + Pile(es)
      invariant Missing(out, ptr, JoinedMembers(nrest, rest, depth, fmt), whole)
      invariant left <= all && left <= mem.live && mem.live - left == old(mem.live) - all
    {
      FirstGathered(nms, es, nrest, rest);
      var last := i == |entries| - 1;
      ptr := WriteMember(mem, out, ptr, names[i], entries[i], last, depth, fmt, nms, es, nrest, rest, whole);
      i, nms, es, nrest, rest := i + 1, nms[1..], es[1..], nrest[1..], rest[1..];
      left := Pile(nms) + Pile(es);
    }
  }
}

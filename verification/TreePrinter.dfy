/** `print_value`, `print_array` and `print_object` on trees of nodes: the
    parts are rendered first, then measured, then composed in one buffer. */
module TreePrinter {
  import opened Bytes
  import opened Numbers
  import opened StringLiteral
  import opened JsonValues
  import opened Printer
  import opened Nodes
  import opened NodeMeaning

  // ----- What a tree prints as -----

  const DBL_EPSILON: real := 1.0 / 4503599627370496.0

  // The test of `print_number` for its `%d` branch.
  predicate PrintsAsInt(t: Tree) {
    && -DBL_EPSILON <= t.valueint as real - t.valuedouble <= DBL_EPSILON
    && INT_MIN as real <= t.valuedouble <= INT_MAX as real
  }

  predicate HasKids(k: Kind) {
    k == KindArray || k == KindObject
  }

  // Every number below `t` goes through the `%d` branch.
  predicate IntNumbers(t: Tree) {
    && (t.kind == KindNumber ==> PrintsAsInt(t) && INT_MIN <= t.valueint <= INT_MAX)
    && (HasKids(t.kind) ==> IntNumbersAll(t.kids))
  }

  predicate IntNumbersAll(ts: seq<Tree>) {
    ts == [] || (IntNumbers(ts[0]) && IntNumbersAll(ts[1..]))
  }

  // `print_string_ptr`: a null pointer prints as nothing at all.
  function StrText(s: Str): Text {
    match s
    case Absent => []
    case Present(_, text) => Literal(text)
  }

  function NodeText(t: Tree, depth: nat, fmt: bool): Text
    requires IntNumbers(t)
    decreases t, 0
  {
    match t.kind
    case KindNull => NULL_WORD
    case KindFalse => FALSE_WORD
    case KindTrue => TRUE_WORD
    case KindNumber => Decimal(t.valueint)
    case KindString => StrText(t.value)
    case KindArray => ArrayText(KidTexts(t.kids, depth + 1, fmt), fmt)
    case KindObject => ObjectText(NameTexts(t.kids), KidTexts(t.kids, depth + 1, fmt), depth, fmt)
  }

  function KidTexts(ts: seq<Tree>, depth: nat, fmt: bool): (xs: seq<Text>)
    requires IntNumbersAll(ts)
    ensures |xs| == |ts|
    decreases ts, 0
  {
    if ts == [] then [] else [NodeText(ts[0], depth, fmt)] + KidTexts(ts[1..], depth, fmt)
  }

  function NameTexts(ts: seq<Tree>): (xs: seq<Text>)
    ensures |xs| == |ts|
  {
    if ts == [] then [] else [StrText(ts[0].name)] + NameTexts(ts[1..])
  }

  function ArrayText(xs: seq<Text>, fmt: bool): Text {
    [OPEN_BRACKET] + Joined(xs, fmt) + [CLOSE_BRACKET]
  }

  function Joined(xs: seq<Text>, fmt: bool): Text {
    if xs == [] then [] else xs[0] + (if |xs| == 1 then [] else Separator(fmt)) + Joined(xs[1..], fmt)
  }

  function ObjectText(names: seq<Text>, xs: seq<Text>, depth: nat, fmt: bool): Text
    requires |names| == |xs|
  {
    if xs == [] then [OPEN_BRACE] + Only(fmt, [NEWLINE] + Tabs(depth - 1)) + [CLOSE_BRACE]
    else
      [OPEN_BRACE] + Only(fmt, [NEWLINE]) + JoinedMembers(names, xs, depth + 1, fmt) + Only(fmt, Tabs(depth))
      + [CLOSE_BRACE]
  }

  function MemberFront(name: Text, depth: nat, fmt: bool): Text {
    Only(fmt, Tabs(depth)) + name + [COLON] + Only(fmt, [TAB])
  }

  function Break(last: bool, fmt: bool): Text {
    (if last then [] else [COMMA]) + Only(fmt, [NEWLINE])
  }

  function MemberText(name: Text, x: Text, last: bool, depth: nat, fmt: bool): Text {
    MemberFront(name, depth, fmt) + x + Break(last, fmt)
  }

  function JoinedMembers(names: seq<Text>, xs: seq<Text>, depth: nat, fmt: bool): Text
    requires |names| == |xs|
  {
    if xs == [] then []
    else MemberText(names[0], xs[0], |xs| == 1, depth, fmt) + JoinedMembers(names[1..], xs[1..], depth, fmt)
  }

  // ----- The measured length is enough -----

  function Flag(fmt: bool, n: nat): nat {
    if fmt then n else 0
  }

  function EntriesLength(xs: seq<Text>, fmt: bool): nat {
    if xs == [] then 0 else |xs[0]| + 2 + Flag(fmt, 1) + EntriesLength(xs[1..], fmt)
  }

  function MembersLength(names: seq<Text>, xs: seq<Text>, depth: nat, fmt: bool): nat
    requires |names| == |xs|
  {
    if xs == [] then 0
    else |xs[0]| + |names[0]| + 2 + Flag(fmt, 2 + depth) + MembersLength(names[1..], xs[1..], depth, fmt)
  }

  // With entries there are as many bytes to spare as entries, and three or four.
  lemma {:induction false} ArrayBufferSuffices(xs: seq<Text>, fmt: bool)
    ensures |ArrayText(xs, fmt)| + 1 + (if xs == [] then 2 else |xs| + 3 + Flag(fmt, 1)) == 5 + EntriesLength(xs, fmt)
  {
    if xs == [] {
    } else {
      ArrayBufferSuffices(xs[1..], fmt);
    }
  }

  lemma {:induction false} TabsCount(n: int)
    ensures |Tabs(n)| == if n < 0 then 0 else n
  {
    if n <= 0 {
    } else {
      TabsCount(n - 1);
    }
  }

  lemma {:induction false} MembersFit(names: seq<Text>, xs: seq<Text>, depth: nat, fmt: bool)
    requires |names| == |xs|
    ensures |JoinedMembers(names, xs, depth, fmt)| + (if xs == [] then 0 else 1) == MembersLength(names, xs, depth, fmt)
  {
    if xs == [] {
    } else {
      TabsCount(depth);
      MembersFit(names[1..], xs[1..], depth, fmt);
    }
  }

  // What `print_object` allocates, for no entries and for some.
  function ObjectLength(names: seq<Text>, xs: seq<Text>, depth: nat, fmt: bool): nat
    requires |names| == |xs|
  {
    if xs == [] then (if fmt then depth + 4 else 3)
    else 7 + Flag(fmt, depth + 1) + MembersLength(names, xs, depth + 1, fmt)
  }

  // With members there are always five bytes to spare.
  lemma ObjectBufferSuffices(names: seq<Text>, xs: seq<Text>, depth: nat, fmt: bool)
    requires |names| == |xs|
    ensures |ObjectText(names, xs, depth, fmt)| + 1 + (if xs != [] then 5 else if fmt && depth > 0 then 1 else 0)
         == ObjectLength(names, xs, depth, fmt)
  {
    TabsCount(depth - 1);
    TabsCount(depth);
    MembersFit(names, xs, depth + 1, fmt);
  }

  // ----- What is printed is the value the tree stands for -----

  // Strings and names are there, and a number's two fields agree.
  predicate ReadyToPrint(t: Tree) {
    && (t.kind == KindNumber ==> t.valuedouble == t.valueint as real && INT_MIN <= t.valueint <= INT_MAX)
    && (t.kind == KindString ==> t.value.Present?)
    && (HasKids(t.kind) ==> ReadyToPrintAll(t.kids, t.kind == KindObject))
  }

  predicate ReadyToPrintAll(ts: seq<Tree>, named: bool) {
    ts == [] || (ReadyToPrint(ts[0]) && (named ==> ts[0].name.Present?) && ReadyToPrintAll(ts[1..], named))
  }

  lemma {:induction false} PrintsItsMeaning(t: Tree, depth: nat, fmt: bool)
    requires ReadyToPrint(t)
    ensures IntNumbers(t) && Printable(Meaning(t))
    ensures NodeText(t, depth, fmt) == Print(Meaning(t), depth, fmt)
    decreases t, 0
  {
    if t.kind == KindNumber {
      assert (t.valueint as real).Floor == t.valueint;
    } else if t.kind == KindArray {
      KidsPrintTheirMeaning(t.kids, depth + 1, fmt, false);
    } else if t.kind == KindObject {
      KidsPrintTheirMeaning(t.kids, depth + 1, fmt, true);
      Braces(t, depth, fmt);
    }
  }

  lemma Braces(t: Tree, depth: nat, fmt: bool)
    requires t.kind == KindObject && IntNumbersAll(t.kids) && MembersPrintable(Members(t.kids))
    requires t.kids != [] ==>
               JoinedMembers(NameTexts(t.kids), KidTexts(t.kids, depth + 1, fmt), depth + 1, fmt)
               == PrintMembers(Members(t.kids), depth + 1, fmt)
    ensures NodeText(t, depth, fmt) == Print(Meaning(t), depth, fmt)
  {
    if t.kids == [] {
      assert Members(t.kids) == [];
    }
  }

  lemma {:induction false} KidsPrintTheirMeaning(ts: seq<Tree>, depth: nat, fmt: bool, named: bool)
    requires ReadyToPrintAll(ts, named)
    ensures IntNumbersAll(ts) && AllPrintable(Items(ts)) && MembersPrintable(Members(ts))
    ensures ts != [] ==> Joined(KidTexts(ts, depth, fmt), fmt) == PrintItems(Items(ts), depth, fmt)
    ensures ts != [] && named ==>
              JoinedMembers(NameTexts(ts), KidTexts(ts, depth, fmt), depth, fmt)
              == PrintMembers(Members(ts), depth, fmt)
    decreases ts, 0
  {
    if ts == [] {
    } else {
      PrintsItsMeaning(ts[0], depth, fmt);
      KidsPrintTheirMeaning(ts[1..], depth, fmt, named);
      assert Items(ts)[1..] == Items(ts[1..]) && Members(ts)[1..] == Members(ts[1..]);
      OneMoreItem(ts, depth, fmt);
      if named {
        OneMoreMember(ts, depth, fmt);
      }
    }
  }

  lemma OneMoreItem(ts: seq<Tree>, depth: nat, fmt: bool)
    requires ts != [] && IntNumbersAll(ts) && AllPrintable(Items(ts))
    requires Items(ts)[0] == Meaning(ts[0]) && Items(ts)[1..] == Items(ts[1..])
    requires NodeText(ts[0], depth, fmt) == Print(Meaning(ts[0]), depth, fmt)
    requires |ts| > 1 ==> Joined(KidTexts(ts[1..], depth, fmt), fmt) == PrintItems(Items(ts[1..]), depth, fmt)
    ensures Joined(KidTexts(ts, depth, fmt), fmt) == PrintItems(Items(ts), depth, fmt)
  {
    var xs := KidTexts(ts, depth, fmt);
    assert xs[1..] == KidTexts(ts[1..], depth, fmt);
    var js := Joined(xs[1..], fmt);
    Regroup(xs[0], if |ts| == 1 then [] else Separator(fmt), js);
    assert |ts| == 1 ==> js == [];
  }

  lemma OneMoreMember(ts: seq<Tree>, depth: nat, fmt: bool)
    requires ts != [] && IntNumbersAll(ts) && MembersPrintable(Members(ts)) && ts[0].name.Present?
    requires Members(ts)[0] == Member(TextOf(ts[0].name), Meaning(ts[0])) && Members(ts)[1..] == Members(ts[1..])
    requires NodeText(ts[0], depth, fmt) == Print(Meaning(ts[0]), depth, fmt)
    requires |ts| > 1 ==>
               JoinedMembers(NameTexts(ts[1..]), KidTexts(ts[1..], depth, fmt), depth, fmt)
               == PrintMembers(Members(ts[1..]), depth, fmt)
    ensures JoinedMembers(NameTexts(ts), KidTexts(ts, depth, fmt), depth, fmt) == PrintMembers(Members(ts), depth, fmt)
  {
    var xs, ns := KidTexts(ts, depth, fmt), NameTexts(ts);
    assert xs[1..] == KidTexts(ts[1..], depth, fmt) && ns[1..] == NameTexts(ts[1..]);
    assert ns[0] == Literal(TextOf(ts[0].name));
    Regroup(MemberFront(ns[0], depth, fmt) + xs[0], Break(|ts| == 1, fmt), JoinedMembers(ns[1..], xs[1..], depth, fmt));
    assert |ts| == 1 ==> JoinedMembers(ns[1..], xs[1..], depth, fmt) == [];
  }
}

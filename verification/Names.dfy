/** Members of an object node, found by name without regard to case. */
module Names {
  import opened Bytes
  import opened Memory
  import opened Nodes
  import opened Deletion
  import opened ChildLists

  // `tolower` in the C locale.
  function Lower(c: Byte): Byte {
    if 65 <= c <= 90 then c + 32 else c
  }

  // The same byte, or the same letter in two cases.
  predicate SameLetter(c: Byte, d: Byte) {
    || c == d
    || ('A' as int <= c <= 'Z' as int && d == c + 32)
    || ('A' as int <= d <= 'Z' as int && c == d + 32)
  }

  lemma FoldedAlike(c: Byte, d: Byte)
    ensures Lower(c) == Lower(d) <==> SameLetter(c, d)
  {
  }

  predicate UpToCase(s: Text, t: Text) {
    |s| == |t| && forall i | 0 <= i < |s| :: SameLetter(s[i], t[i])
  }

  predicate SameName(a: Str, b: Str) {
    match (a, b)
    case (Absent, Absent) => true
    case (Present(_, s), Present(_, t)) => UpToCase(s, t)
    case _ => false
  }

  method StrCaseCmp(mem: Heap, p: array?<Byte>, q: array?<Byte>, ghost a: Str, ghost b: Str) returns (r: int)
    requires StrIs(p, a) && StrIs(q, b) && BlockOf(a) + BlockOf(b) <= mem.live
    ensures r == 0 <==> SameName(a, b)
  {
    if p == null {
      return if q == null then 0 else 1;
    }
    if q == null {
      return 1;
    }
    ghost var s, t := a.text, b.text;
    var k := 0;
    ReadsAt(p, s, 0);
    ReadsAt(q, t, 0);
    while Lower(p[k]) == Lower(q[k])
      invariant k <= |s| && k <= |t| && p[k] == At(s, k) && q[k] == At(t, k)
      invariant forall i | 0 <= i < k :: SameLetter(s[i], t[i])
      decreases |s| - k
    {
      FoldedAlike(p[k], q[k]);
      if p[k] == 0 {
        return 0;
      }
      k := k + 1;
      ReadsAt(p, s, k);
      ReadsAt(q, t, k);
    }
    FoldedAlike(p[k], q[k]);
    return Lower(p[k]) as int - Lower(q[k]) as int;
  }

  // The position of the first member that answers to `name`, or the length.
  function FirstMatch(ts: seq<Tree>, name: Str): (k: nat)
    ensures k <= |ts|
    ensures k < |ts| ==> SameName(ts[k].name, name)
    ensures forall i | 0 <= i < k :: !SameName(ts[i].name, name)
  {
    if ts == [] || SameName(ts[0].name, name) then 0
    else
      var k := FirstMatch(ts[1..], name);
      assert forall i | 0 < i < k + 1 :: ts[i] == ts[1..][i - 1];
      k + 1
  }

  // A name finds what it finds when it is spelled in other cases.
  lemma {:induction false} CaseIsNoMatter(ts: seq<Tree>, a: Str, b: Str)
    requires SameName(a, b)
    ensures FirstMatch(ts, a) == FirstMatch(ts, b)
  {
    if ts == [] {
    } else {
      AnswersAlike(ts[0].name, a, b);
      CaseIsNoMatter(ts[1..], a, b);
    }
  }

  lemma AnswersAlike(n: Str, a: Str, b: Str)
    requires SameName(a, b)
    ensures SameName(n, a) <==> SameName(n, b)
  {
    if n.Present? && a.Present? && |n.text| == |a.text| {
      forall i | 0 <= i < |n.text| ensures SameLetter(n.text[i], a.text[i]) <==> SameLetter(n.text[i], b.text[i]) {
        FoldedAlike(n.text[i], a.text[i]);
        FoldedAlike(n.text[i], b.text[i]);
        FoldedAlike(a.text[i], b.text[i]);
      }
    }
  }

  function Capital(c: TextByte): TextByte {
    if 'a' as int <= c <= 'z' as int then c - 32 else c
  }

  function Capitals(s: Text): Text {
    if s == [] then [] else [Capital(s[0])] + Capitals(s[1..])
  }

  lemma {:induction false} CapitalsAnswer(s: Text)
    ensures UpToCase(s, Capitals(s))
  {
    if s == [] {
    } else {
      CapitalsAnswer(s[1..]);
    }
  }

  // In particular a member is found under its own name in capitals, unless an
  // earlier one is.
  lemma FoundInCapitals(ts: seq<Tree>, k: nat, key: array<Byte>)
    requires k < |ts| && ts[k].name.Present?
    ensures FirstMatch(ts, Present(key, Capitals(ts[k].name.text))) == FirstMatch(ts, ts[k].name) <= k
  {
    var name := ts[k].name;
    CapitalsAnswer(name.text);
    CaseIsNoMatter(ts, name, Present(key, Capitals(name.text)));
    assert SameName(ts[k].name, name);
  }

  lemma {:induction false} FirstMatchFrom(ts: seq<Tree>, name: Str, k: nat)
    requires k <= |ts| && forall i | 0 <= i < k :: !SameName(ts[i].name, name)
    ensures FirstMatch(ts, name) == k + FirstMatch(ts[k..], name)
  {
    if k == 0 {
      assert ts[0..] == ts;
    } else {
      FirstMatchFrom(ts[1..], name, k - 1);
      assert ts[1..][k - 1..] == ts[k..];
    }
  }

  // A chain whose names can be read, by its owner or through references.
  ghost predicate Named(ts: seq<Tree>)
    reads NodesOfAll(ts), BlocksOfAll(ts)
  {
    ts == [] || (Answers(ts[0], First(ts[1..], null)) && Named(ts[1..]))
  }

  ghost predicate Answers(t: Tree, next: Node?)
    reads NodesOf(t), BlocksOf(t)
  {
    StrIs(t.node.name, t.name) && t.node.next == next
  }

  lemma {:induction false} NamedAt(ts: seq<Tree>, k: nat)
    requires k < |ts| && Named(ts)
    ensures Answers(ts[k], First(ts[k + 1..], null)) && Owned(ts[k]) <= OwnedAll(ts)
  {
    if k == 0 {
    } else {
      NamedAt(ts[1..], k - 1);
      assert ts[1..][k..] == ts[k + 1..];
    }
  }

  lemma {:induction false} OwnedNames(ts: seq<Tree>, before: Node?)
    requires Segment(ts, before, null)
    ensures Named(ts)
  {
    if ts == [] {
    } else {
      OwnedNames(ts[1..], ts[0].node);
    }
  }

  lemma {:induction false} SeenNames(ts: seq<Tree>)
    requires ViewAll(ts)
    ensures Named(ts)
  {
    if ts == [] {
    } else {
      SeenNames(ts[1..]);
    }
  }

  // The walk that lookup, detaching and replacing by name all begin with.
  method FindName(mem: Heap, first: Node?, key: array?<Byte>, ghost ts: seq<Tree>, ghost name: Str)
    returns (c: Node?, i: int)
    requires first == First(ts, null) && Named(ts) && StrIs(key, name)
    requires OwnedAll(ts) <= mem.live && BlockOf(name) <= mem.live
    ensures i == FirstMatch(ts, name) && c == First(ts[FirstMatch(ts, name)..], null)
  {
    c, i := first, 0;
    assert allocated(NodesOfAll(ts)) && allocated(BlocksOfAll(ts)) && allocated(BlockOf(name));
    while c != null
      invariant 0 <= i <= |ts| && c == First(ts[i..], null) && Named(ts) && StrIs(key, name)
      invariant forall j | 0 <= j < i :: !SameName(ts[j].name, name)
      decreases |ts| - i
    {
      NamedAt(ts, i);
      var r := StrCaseCmp(mem, c.name, key, ts[i].name, name);
      if r == 0 {
        break;
      }
      i, c := i + 1, c.next;
    }
    FirstMatchFrom(ts, name, i);
  }

  // `cJSON_GetObjectItem`, on an object or on a reference to one.
  method GetObjectItem(mem: Heap, parent: Node?, key: array?<Byte>, ghost v: Tree, ghost name: Str) returns (c: Node?)
    requires parent != null ==>
               && parent == v.node && View(v) && StrIs(key, name)
               && Owned(v) <= mem.live && BlockOf(name) <= mem.live
    ensures parent == null ==> c == null
    ensures parent != null ==> c == First(v.kids[FirstMatch(v.kids, name)..], null)
  {
    if parent == null {
      return null;
    }
    SeenNames(v.kids);
    var i;
    c, i := FindName(mem, parent.child, key, v.kids, name);
  }

  // `cJSON_DetachItemFromObject` takes out exactly the member lookup returns.
  method DetachItemFromObject(mem: Heap, parent: Node, key: array?<Byte>, ghost t: Tree, ghost name: Str)
    returns (c: Node?)
    requires parent == t.node && !t.isReference && Linked(t) && Separate(t) && StrIs(key, name)
    requires Owned(t) <= mem.live && BlockOf(name) <= mem.live
    modifies parent`child, NodesOfAll(t.kids)
    ensures c == First(t.kids[FirstMatch(t.kids, name)..], null)
    ensures c == null ==> Linked(t)
    ensures var k := FirstMatch(t.kids, name);
            k < |t.kids| ==>
              && c.next == null && c.prev == null && Linked(t.kids[k])
              && Linked(t.(kids := Without(t.kids, k))) && Separate(t.(kids := Without(t.kids, k)))
  {
    assert allocated(NodesOf(t)) && allocated(BlocksOf(t));
    OwnedNames(t.kids, null);
    var i;
    c, i := FindName(mem, parent.child, key, t.kids, name);
    if c != null {
      c := DetachItemFromArray(parent, i, t);
    }
  }
}

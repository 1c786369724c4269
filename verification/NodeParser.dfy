/** The recursive-descent parser on a buffer, building nodes as it goes. */
module NodeParser {
  import opened Bytes
  import opened Numbers
  import opened NumberReader
  import opened StringLiteral
  import opened StringReader
  import opened JsonValues
  import opened Parser
  import opened Memory
  import opened Nodes
  import opened NodeMeaning
  import opened Deletion
  import opened ChildLists
  import opened Duplication
  import opened ParsedTrees

  // The static error pointer.
  class Errors {
    var ep: Pointer

    constructor ()
      ensures ep == NullPointer
    {
      ep := NullPointer;
    }
  }

  // Nothing has been parsed into `x` yet, except perhaps its name.
  predicate IsBlank(x: Tree) {
    !x.isReference && x.value == Absent && x.valueint == 0 && x.valuedouble == 0.0 && x.kids == []
  }

  // ----- Leaves -----

  // `!strncmp(value, w, strlen(w))`.
  method StartsWith(a: array<Byte>, p: nat, w: Text, ghost s: Text) returns (b: bool)
    requires Holds(a, s) && p <= |s|
    ensures b <==> w <= s[p..]
  {
    var k := 0;
    ghost var r := s[p..];
    while k < |w|
      invariant k <= |w| && k <= |r| && r[..k] == w[..k]
    {
      ReadsAt(a, s, p + k);
      assert k < |r| ==> r[k] == s[p + k];
      if a[p + k] != w[k] {
        return false;
      }
      k := k + 1;
      assert r[..k] == r[..k - 1] + [r[k - 1]] && w[..k] == w[..k - 1] + [w[k - 1]];
    }
    assert w[..k] == w;
    return true;
  }

  method SetKind(item: Node, kind: Kind, ghost x: Tree) returns (ghost t: Tree)
    requires item == x.node && Linked(x) && Separate(x)
    modifies item`kind
    ensures t == x.(kind := kind) && Linked(t) && Separate(t)
  {
    item.kind := kind;
    t := x.(kind := kind);
  }

  method SetWord(item: Node, kind: Kind, valueint: int, ghost x: Tree) returns (ghost t: Tree)
    requires item == x.node && IsBlank(x) && Linked(x) && Separate(x)
    modifies item`kind, item`valueint
    ensures t == x.(kind := kind, valueint := valueint) && Linked(t) && Separate(t)
  {
    item.kind, item.valueint := kind, valueint;
    t := x.(kind := kind, valueint := valueint);
  }

  // `parse_string`; the literal becomes the string of the node.
  method ParseStringInto(mem: Heap, err: Errors, item: Node, a: array<Byte>, p: nat, ghost s: Text, ghost x: Tree)
    returns (q: Pointer, ghost t: Tree)
    requires Holds(a, s) && p <= |s| && !ParseString(s[p..]).Incomplete?
    requires item == x.node && IsBlank(x) && Linked(x) && Separate(x)
    modifies mem, err, item`kind, item`valuestring
    ensures Linked(t) && Separate(t) && fresh(BlockOf(t.value)) && mem.live == old(mem.live) + BlockOf(t.value)
    ensures Reports(ParseString(s[p..]), q, err.ep, old(err.ep), s)
    ensures if q.Place? then
              && t == x.(kind := KindString, value := t.value)
              && t.value.Present? && t.value.text == ParseString(s[p..]).value
            else t == x
  {
    ReadsAt(a, s, p);
    t := x;
    if a[p] != QUOTE {
      err.ep, q := Place(p), NullPointer;
      return;
    }
    Shift(s, p, 1);
    assert allocated(NodesOf(x)) && allocated(BlocksOf(x));
    var out, ptr := ReadLiteral(mem, a, p + 1, s);
    item.valuestring, item.kind := out, KindString;
    t := x.(kind := KindString, value := Present(out, Decode(s[p + 1..]).value));
    q := Place(ptr);
  }

  // `parse_number`.
  method ParseNumberInto(item: Node, a: array<Byte>, p: nat, ghost s: Text, ghost x: Tree)
    returns (q: nat, ghost t: Tree)
    requires Holds(a, s) && p <= |s| && item == x.node && IsBlank(x) && Linked(x) && Separate(x)
    modifies item`kind, item`valueint, item`valuedouble
    ensures p <= q <= |s| && s[q..] == NumberRest(s[p..])
    ensures t == x.(kind := KindNumber, valueint := t.valueint, valuedouble := NumberValue(s[p..]))
    ensures Linked(t) && Separate(t) && FromParser(t)
  {
    assert allocated(NodesOf(x)) && allocated(BlocksOf(x));
    var d, n;
    d, q := ReadNumber(a, p, s);
    n := ToInt(d);
    item.valuedouble, item.valueint, item.kind := d, n, KindNumber;
    t := x.(kind := KindNumber, valueint := n, valuedouble := d);
  }

  // ----- Children -----

  // `t` but for one more child, `child`, which is being filled.
  ghost predicate OpenAt(t: Tree, child: Node)
    reads NodesOf(t), BlocksOf(t)
  {
    && ScalarsAre(t) && !t.isReference && StrIs(t.node.valuestring, t.value)
    && t.node.child == First(t.kids, child) && Segment(t.kids, null, child)
  }

  lemma ClosesUp(t: Tree, y: Tree)
    requires !t.isReference
    ensures Linked(Grown(t, y)) <==>
              OpenAt(t, y.node) && Linked(y) && y.node.prev == Last(t.kids, null) && y.node.next == null
  {
    SegmentJoin(t.kids, [y], null, null);
    LinkOne(y, Last(t.kids, null));
  }

  lemma Adopted(t: Tree, y: Tree)
    requires OpenAt(t, y.node) && Linked(y) && y.node.prev == Last(t.kids, null) && y.node.next == null
    requires Separate(t) && Separate(y) && Owned(t) !! Owned(y)
    ensures Linked(Grown(t, y)) && Separate(Grown(t, y))
  {
    GrownSeparate(t, y);
    ClosesUp(t, y);
  }

  // A new node, linked behind the last child before anything is parsed into it.
  method AttachChild(mem: Heap, parent: Node, last: Node?, ghost t: Tree) returns (child: Node, ghost x: Tree)
    requires parent == t.node && !t.isReference && Linked(t) && Separate(t) && last == Last(t.kids, null)
    modifies mem, parent`child, NodesOfAll(t.kids)`next
    ensures child == x.node && IsBlank(x) && x.name == Absent && Linked(x) && Separate(x)
    ensures fresh(child) && mem.live == old(mem.live) + {child} && Owned(x) == {child}
    ensures OpenAt(t, child) && child.prev == Last(t.kids, null) && child.next == null
  {
    assert allocated(NodesOf(t)) && allocated(BlocksOf(t));
    child := NewItem(mem);
    x := Tree(child, KindFalse, false, Absent, 0, 0.0, Absent, []);
    AppendKid(parent, last, child, t, x, []);
    ClosesUp(t, x);
  }

  // What a node comes to own beside its own block and its name.
  function Added(t: Tree): set<object> {
    var b: set<object> := BlockOf(t.value);
    b + OwnedAll(t.kids)
  }

  lemma OwnedGrown(t: Tree, y: Tree)
    ensures OwnedAll(Grown(t, y).kids) == OwnedAll(t.kids) + Owned(y)
  {
    NodesOfJoin(t.kids, [y]);
    NodesOfOne(y);
  }

  function Skipped<T>(p: Parsed<T>): Parsed<T> {
    match p
    case Ok(v, rest) => Ok(v, Skip(rest))
    case _ => p
  }

  // `skip(q)`, which lets a null pointer through.
  method SkipBehind(q: Pointer, a: array<Byte>, ghost s: Text) returns (r: Pointer)
    requires Holds(a, s) && (q.Place? ==> q.p <= |s|)
    ensures if q.Place? then Points(r, s, Skip(s[q.p..])) && q.p <= r.p else r == NullPointer
  {
    r := q;
    if q.Place? {
      var p := SkipFrom(a, q.p, s);
      r := Place(p);
    }
  }

  // One element of an array: a node, linked in, and the value behind the white
  // space parsed into it.
  method ParseElement(mem: Heap, err: Errors, parent: Node, last: Node?, a: array<Byte>, p: nat,
      ghost s: Text, ghost t: Tree)
    returns (q: Pointer, child: Node, ghost y: Tree)
    requires Holds(a, s) && p <= |s| && !ParseValue(Skip(s[p..])).Incomplete?
    requires parent == t.node && !t.isReference && Linked(t) && Separate(t) && last == Last(t.kids, null)
    modifies mem, err, parent`child, NodesOfAll(t.kids)`next
    ensures child == y.node && Linked(Grown(t, y)) && Separate(Grown(t, y))
    ensures fresh(Owned(y)) && mem.live == old(mem.live) + Owned(y)
    ensures ElementReported(s, p, q, err.ep, old(err.ep), y)
    decreases |s| - p, 7
  {
    ghost var x;
    assert allocated(NodesOf(t)) && allocated(BlocksOf(t));
    child, x := AttachChild(mem, parent, last, t);
    q, y := GrowByElement(mem, err, child, a, p, s, t, x);
  }

  ghost predicate ElementReported(s: Text, p: nat, q: Pointer, ep: Pointer, before: Pointer, y: Tree)
    requires p <= |s|
  {
    && Reports(Skipped(ParseValue(Skip(s[p..]))), q, ep, before, s)
    && (q.Place? ==> p < q.p && Meaning(y) == ParseValue(Skip(s[p..])).value && FromParser(y) && y.name.Absent?)
  }

  method GrowByElement(mem: Heap, err: Errors, child: Node, a: array<Byte>, p: nat,
      ghost s: Text, ghost t: Tree, ghost x: Tree)
    returns (q: Pointer, ghost y: Tree)
    requires Holds(a, s) && p <= |s| && !ParseValue(Skip(s[p..])).Incomplete?
    requires child == x.node && IsBlank(x) && x.name == Absent && Linked(x) && Separate(x)
    requires OpenAt(t, child) && child.prev == Last(t.kids, null) && child.next == null
    requires Separate(t) && child !in NodesOf(t)
    modifies mem, err, child`child, child`kind, child`valuestring, child`valueint, child`valuedouble
    ensures child == y.node && Linked(Grown(t, y)) && Separate(Grown(t, y))
    ensures Owned(y) == {child} + Added(y) && fresh(Added(y)) && mem.live == old(mem.live) + Added(y)
    ensures ElementReported(s, p, q, err.ep, old(err.ep), y)
    decreases |s| - p, 6
  {
    q, y := FillElement(mem, err, child, a, p, s, t, x);
    Adopted(t, y);
  }

  method FillElement(mem: Heap, err: Errors, child: Node, a: array<Byte>, p: nat,
      ghost s: Text, ghost t: Tree, ghost x: Tree)
    returns (q: Pointer, ghost y: Tree)
    requires Holds(a, s) && p <= |s| && !ParseValue(Skip(s[p..])).Incomplete?
    requires child == x.node && IsBlank(x) && x.name == Absent && Linked(x) && Separate(x) && child !in NodesOf(t)
    modifies mem, err, child`child, child`kind, child`valuestring, child`valueint, child`valuedouble
    ensures child == y.node && Linked(y) && Separate(y) && Owned(t) !! Owned(y)
    ensures OpenAt(t, child) <==> old(OpenAt(t, child))
    ensures Owned(y) == {child} + Added(y) && fresh(Added(y)) && mem.live == old(mem.live) + Added(y)
    ensures ElementReported(s, p, q, err.ep, old(err.ep), y)
    decreases |s| - p, 5
  {
    assert allocated(NodesOf(t)) && allocated(BlocksOf(t));
    q, y := ReadElement(mem, err, child, a, p, s, x);
    OwnedParts(y);
  }

  // White space, a value, and white space again.
  method ReadElement(mem: Heap, err: Errors, child: Node, a: array<Byte>, p: nat, ghost s: Text, ghost x: Tree)
    returns (q: Pointer, ghost y: Tree)
    requires Holds(a, s) && p <= |s| && !ParseValue(Skip(s[p..])).Incomplete?
    requires child == x.node && IsBlank(x) && x.name == Absent && Linked(x) && Separate(x)
    modifies mem, err, child`child, child`kind, child`valuestring, child`valueint, child`valuedouble
    ensures child == y.node && y.name == x.name && Linked(y) && Separate(y)
    ensures fresh(Added(y)) && mem.live == old(mem.live) + Added(y)
    ensures ElementReported(s, p, q, err.ep, old(err.ep), y)
    decreases |s| - p, 4
  {
    var v := SkipFrom(a, p, s);
    q, y := ParseValueInto(mem, err, child, a, v, s, x);
    q := SkipBehind(q, a, s);
  }

  // ----- Arrays -----

  // What stands behind the opening bracket decides.
  function BracketResult(v: Text): Parsed<Json> {
    if Head(v) == CLOSE_BRACKET then Ok(Array([]), v[1..])
    else
      match ParseItems(v)
      case Ok(js, r) => Ok(Array(js), r)
      case Fail(at) => Fail(at)
      case Incomplete => Incomplete
  }

  lemma BracketForm(s: Text)
    requires Head(s) == OPEN_BRACKET
    ensures ParseValue(s) == BracketResult(Skip(s[1..]))
  {
    NoWord(s);
  }

  // The items read into `t` so far, with the pointer `q` behind the last one.
  ghost predicate ItemsReported(s: Text, p: nat, q: Pointer, ep: Pointer, before: Pointer, t: Tree,
      whole: Parsed<seq<Json>>)
  {
    if q.Place? then
      p < q.p <= |s| && whole == AfterItems(Items(t.kids), s[q.p..]) && FromParserAll(t.kids, false) && ep == before
    else
      whole.Fail? && Points(ep, s, whole.at)
  }

  method NextItem(mem: Heap, err: Errors, item: Node, last: Node?, a: array<Byte>, p: nat, ghost s: Text,
      ghost t: Tree, ghost whole: Parsed<seq<Json>>)
    returns (q: Pointer, child: Node, ghost y: Tree)
    requires Holds(a, s) && p <= |s| && !whole.Incomplete? && whole == Prefixed(Items(t.kids), ParseItems(s[p..]))
    requires item == t.node && !t.isReference && Linked(t) && Separate(t) && last == Last(t.kids, null)
    requires FromParserAll(t.kids, false)
    modifies mem, err, item`child, NodesOfAll(t.kids)`next
    ensures child == y.node && Linked(Grown(t, y)) && Separate(Grown(t, y))
    ensures fresh(Owned(y)) && mem.live == old(mem.live) + Owned(y)
    ensures OwnedAll(Grown(t, y).kids) == OwnedAll(t.kids) + Owned(y)
    ensures ItemsReported(s, p, q, err.ep, old(err.ep), Grown(t, y), whole)
    decreases |s| - p, 8
  {
    ItemFollows(Items(t.kids), s[p..]);
    q, child, y := ParseElement(mem, err, item, last, a, p, s, t);
    OwnedGrown(t, y);
    ItemsAppend(t.kids, y);
    if q.Place? {
      FromParserMore(t.kids, false, y);
    }
  }

  // Behind a comma the rest of the text decides.
  lemma ItemBehindComma(a: array<Byte>, s: Text, p: nat, c: nat, ep: Pointer, t: Tree, whole: Parsed<seq<Json>>)
    requires Holds(a, s) && p < c <= |s| && a[c] == COMMA
    ensures c < |s| && (ItemsReported(s, p, Place(c), ep, ep, t, whole) ==>
              whole == Prefixed(Items(t.kids), ParseItems(s[c + 1..])) && FromParserAll(t.kids, false))
  {
    ReadsAt(a, s, c);
    Shift(s, c, 1);
  }

  // A report from there on is one for the whole.
  lemma ItemReportedSince(s: Text, p: nat, c: nat, q: Pointer, ep: Pointer, before: Pointer, u: Tree,
      whole: Parsed<seq<Json>>)
    requires p < c
    ensures ItemsReported(s, c + 1, q, ep, before, u, whole) ==>
              ItemsReported(s, p, q, ep, before, u, whole) && (q.Place? ==> c < q.p)
  {
  }

  // One turn of the loop: the comma, and the item behind it.
  method NextItemBehindComma(mem: Heap, err: Errors, item: Node, last: Node, a: array<Byte>, c: nat,
      ghost p: nat, ghost s: Text, ghost t: Tree, ghost whole: Parsed<seq<Json>>, ghost base: set<object>)
    returns (q: Pointer, child: Node, ghost u: Tree)
    requires Holds(a, s) && p < c <= |s| && a[c] == COMMA && !whole.Incomplete?
    requires ItemsReported(s, p, Place(c), err.ep, err.ep, t, whole)
    requires item == t.node && !t.isReference && Linked(t) && Separate(t) && last == Last(t.kids, null)
    requires mem.live == base + OwnedAll(t.kids)
    modifies mem, err, item`child, NodesOfAll(t.kids)`next
    ensures u == t.(kids := u.kids) && child == Last(u.kids, null) && Linked(u) && Separate(u)
    ensures fresh(OwnedAll(u.kids) - OwnedAll(t.kids))
    ensures mem.live == base + OwnedAll(u.kids)
    ensures ItemsReported(s, p, q, err.ep, old(err.ep), u, whole) && (q.Place? ==> c < q.p)
    decreases |s| - p, 0
  {
    ItemBehindComma(a, s, p, c, err.ep, t, whole);
    ghost var y, before := t, err.ep;
    q, child, y := NextItem(mem, err, item, last, a, c + 1, s, t, whole);
    u := Grown(t, y);
    ItemReportedSince(s, p, c, q, err.ep, before, u, whole);
  }

  // The loop of `parse_array` over what follows the first item.
  method MoreItems(mem: Heap, err: Errors, item: Node, first: Node, a: array<Byte>, q0: Pointer,
      ghost p: nat, ghost s: Text, ghost x: Tree, ghost whole: Parsed<seq<Json>>, ghost base: set<object>)
    returns (q: Pointer, ghost t: Tree)
    requires Holds(a, s) && p <= |s| && !whole.Incomplete?
    requires item == x.node && !x.isReference && Linked(x) && Separate(x) && first == Last(x.kids, null)
    requires mem.live == base + OwnedAll(x.kids)
    requires ItemsReported(s, p, q0, err.ep, err.ep, x, whole)
    modifies mem, err, item`child, NodesOfAll(x.kids)`next
    ensures t == x.(kids := t.kids) && Linked(t) && Separate(t)
    ensures fresh(OwnedAll(t.kids) - OwnedAll(x.kids))
    ensures mem.live == base + OwnedAll(t.kids)
    ensures ItemsReported(s, p, q, err.ep, old(err.ep), t, whole) && (q.Place? ==> a[q.p] != COMMA)
    decreases |s| - p, 9
  {
    q, t := q0, x;
    var child := first;
    while q.Place? && a[q.p] == COMMA
      invariant ItemsReported(s, p, q, err.ep, old(err.ep), t, whole)
      invariant t == x.(kids := t.kids) && child == Last(t.kids, null) && Linked(t) && Separate(t)
      invariant fresh(OwnedAll(t.kids) - OwnedAll(x.kids))
      invariant mem.live == base + OwnedAll(t.kids)
      decreases if q.Place? then |s| - q.p else -1
    {
      q, child, t := NextItemBehindComma(mem, err, item, child, a, q.p, p, s, t, whole, base);
    }
  }

  // What follows the last item.
  method FinishItems(err: Errors, a: array<Byte>, q0: Pointer, ghost p: nat, ghost s: Text, ghost t: Tree,
      ghost whole: Parsed<seq<Json>>)
    returns (q: Pointer)
    requires Holds(a, s) && p <= |s| && !whole.Incomplete?
    requires ItemsReported(s, p, q0, err.ep, err.ep, t, whole) && (q0.Place? ==> a[q0.p] != COMMA)
    modifies err
    ensures Reports(whole, q, err.ep, old(err.ep), s)
    ensures q.Place? ==> p < q.p && Items(t.kids) == whole.value && FromParserAll(t.kids, false)
  {
    q := q0;
    if q.Place? {
      ReadsAt(a, s, q.p);
      if a[q.p] == CLOSE_BRACKET {
        Shift(s, q.p, 1);
        q := Place(q.p + 1);
      } else {
        err.ep, q := q, NullPointer;
      }
    }
  }

  lemma PrefixedByNothing<T>(p: Parsed<seq<T>>)
    ensures Prefixed([], p) == p
  {
    if p.Ok? {
      assert [] + p.value == p.value;
    }
  }

  method ParseItemsInto(mem: Heap, err: Errors, item: Node, a: array<Byte>, p: nat, ghost s: Text, ghost x: Tree)
    returns (q: Pointer, ghost t: Tree)
    requires Holds(a, s) && p <= |s| && !ParseItems(s[p..]).Incomplete?
    requires item == x.node && x.kids == [] && !x.isReference && Linked(x) && Separate(x)
    modifies mem, err, item`child
    ensures t == x.(kids := t.kids) && Linked(t) && Separate(t)
    ensures fresh(OwnedAll(t.kids)) && mem.live == old(mem.live) + OwnedAll(t.kids)
    ensures Reports(ParseItems(s[p..]), q, err.ep, old(err.ep), s)
    ensures q.Place? ==> p < q.p && Items(t.kids) == ParseItems(s[p..]).value && FromParserAll(t.kids, false)
    decreases |s| - p, 10
  {
    ghost var y, whole := x, ParseItems(s[p..]);
    var child;
    PrefixedByNothing(whole);
    q, child, y := NextItem(mem, err, item, null, a, p, s, x, whole);
    assert NodesOfAll(Grown(x, y).kids) <= Owned(y) by {
      assert Grown(x, y).kids == [y];
      NodesOfOne(y);
    }
    q, t := MoreItems(mem, err, item, child, a, q, p, s, Grown(x, y), whole, old(mem.live));
    q := FinishItems(err, a, q, p, s, t, whole);
  }

  // The array that was read is the one the text stands for.
  lemma ArrayRead(v: Text, t: Tree)
    requires t.kind == KindArray && !t.isReference && FieldsFit(t) && FromParserAll(t.kids, false)
    requires if Head(v) == CLOSE_BRACKET then t.kids == []
             else ParseItems(v).Ok? && Items(t.kids) == ParseItems(v).value
    ensures BracketResult(v).Ok? && Meaning(t) == BracketResult(v).value && FromParser(t)
  {
  }

  method ReadBrackets(mem: Heap, err: Errors, item: Node, a: array<Byte>, p: nat, ghost s: Text, ghost x: Tree,
      ghost whole: Parsed<Json>)
    returns (q: Pointer, ghost t: Tree)
    requires Holds(a, s) && p < |s| && whole == BracketResult(Skip(s[p..][1..])) && !whole.Incomplete?
    requires item == x.node && IsBlank(x) && Linked(x) && Separate(x)
    modifies mem, err, item`child, item`kind
    ensures t == x.(kind := KindArray, kids := t.kids) && Linked(t) && Separate(t)
    ensures fresh(OwnedAll(t.kids)) && mem.live == old(mem.live) + OwnedAll(t.kids)
    ensures Reports(whole, q, err.ep, old(err.ep), s)
    ensures q.Place? ==> p < q.p && Meaning(t) == whole.value && FromParser(t)
    decreases |s| - p, 1
  {
    Shift(s, p, 1);
    t := SetKind(item, KindArray, x);
    var v := OpenBracket(a, p, s);
    assert allocated(NodesOf(t)) && allocated(BlocksOf(t));
    if a[v] == CLOSE_BRACKET {
      Shift(s, v, 1);
      q := Place(v + 1);
    } else {
      q, t := ParseItemsInto(mem, err, item, a, v, s, t);
    }
    if q.Place? {
      ArrayRead(s[v..], t);
    }
  }

  method ParseArrayInto(mem: Heap, err: Errors, item: Node, a: array<Byte>, p: nat, ghost s: Text, ghost x: Tree)
    returns (q: Pointer, ghost t: Tree)
    requires Holds(a, s) && p < |s| && s[p] == OPEN_BRACKET && !ParseValue(s[p..]).Incomplete?
    requires item == x.node && IsBlank(x) && Linked(x) && Separate(x)
    modifies mem, err, item`child, item`kind
    ensures t == x.(kind := KindArray, kids := t.kids) && Linked(t) && Separate(t)
    ensures fresh(OwnedAll(t.kids)) && mem.live == old(mem.live) + OwnedAll(t.kids)
    ensures Reports(ParseValue(s[p..]), q, err.ep, old(err.ep), s)
    ensures q.Place? ==> p < q.p && Meaning(t) == ParseValue(s[p..]).value && FromParser(t)
    decreases |s| - p, 2
  {
    BracketForm(s[p..]);
    q, t := ReadBrackets(mem, err, item, a, p, s, x, ParseValue(s[p..]));
  }

  // `skip(value + 1)`
  method OpenBracket(a: array<Byte>, p: nat, ghost s: Text) returns (v: nat)
    requires Holds(a, s) && p < |s|
    ensures p < v <= |s| && s[v..] == Skip(s[p..][1..]) && a[v] == Head(s[v..])
  {
    Shift(s, p, 1);
    v := SkipFrom(a, p + 1, s);
    ReadsAt(a, s, v);
  }

  // ----- Objects -----

  function BraceResult(v: Text): Parsed<Json> {
    if Head(v) == CLOSE_BRACE then Ok(Object([]), v[1..])
    else
      match ParseMembers(v)
      case Ok(ms, r) => Ok(Object(ms), r)
      case Fail(at) => Fail(at)
      case Incomplete => Incomplete
  }

  lemma BraceForm(s: Text)
    requires Head(s) == OPEN_BRACE
    ensures ParseValue(s) == BraceResult(Skip(s[1..]))
  {
    NoWord(s);
  }

  // `child->string = child->valuestring; child->valuestring = 0;`
  method TakeName(child: Node, ghost x: Tree) returns (ghost y: Tree)
    requires child == x.node && x.name == Absent && Linked(x) && Separate(x) && !x.isReference
    modifies child`name, child`valuestring
    ensures y == x.(name := x.value, value := Absent) && Linked(y) && Separate(y)
  {
    child.name, child.valuestring := child.valuestring, null;
    y := x.(name := x.value, value := Absent);
  }

  // What follows the name: a colon at `c`, or a failure there.
  method ParseColonInto(mem: Heap, err: Errors, child: Node, a: array<Byte>, c: nat, ghost s: Text, ghost x: Tree)
    returns (q: Pointer, ghost y: Tree)
    requires Holds(a, s) && c <= |s| && (Head(s[c..]) == COLON ==> !ParseValue(Skip(s[c..][1..])).Incomplete?)
    requires child == x.node && IsBlank(x) && Linked(x) && Separate(x)
    modifies mem, err, child`child, child`kind, child`valuestring, child`valueint, child`valuedouble
    ensures child == y.node && y.name == x.name && Linked(y) && Separate(y)
    ensures fresh(Added(y)) && mem.live == old(mem.live) + Added(y)
    ensures Head(s[c..]) != COLON ==> q == NullPointer && err.ep == Place(c)
    ensures Head(s[c..]) == COLON ==> Reports(ParseValue(Skip(s[c..][1..])), q, err.ep, old(err.ep), s)
    ensures q.Place? ==> c < q.p && Meaning(y) == ParseValue(Skip(s[c..][1..])).value && FromParser(y)
    decreases |s| - c, 4
  {
    ReadsAt(a, s, c);
    if a[c] != COLON {
      err.ep, q, y := Place(c), NullPointer, x;
    } else {
      assert allocated(NodesOf(x)) && allocated(BlocksOf(x));
      var v := OpenBracket(a, c, s);
      q, y := ParseValueInto(mem, err, child, a, v, s, x);
    }
  }

  // What a node comes to own beside its own block.
  function MadeFor(y: Tree): set<object> {
    var b: set<object> := BlockOf(y.name);
    b + Added(y)
  }

  lemma OwnedBesideNode(y: Tree)
    ensures Owned(y) == {y.node} + MadeFor(y)
  {
    OwnedParts(y);
  }

  // A name, a colon and a value.
  method ParseMemberInto(mem: Heap, err: Errors, child: Node, a: array<Byte>, p: nat, ghost s: Text, ghost x: Tree)
    returns (q: Pointer, ghost y: Tree)
    requires Holds(a, s) && p <= |s| && !ParseMember(s[p..]).Incomplete?
    requires child == x.node && IsBlank(x) && x.name == Absent && Linked(x) && Separate(x)
    modifies mem, err, child`child, child`kind, child`valuestring, child`valueint, child`valuedouble, child`name
    ensures child == y.node && Linked(y) && Separate(y)
    ensures fresh(MadeFor(y)) && mem.live == old(mem.live) + MadeFor(y)
    ensures Reports(ParseMember(s[p..]), q, err.ep, old(err.ep), s)
    ensures q.Place? ==>
              && p < q.p && y.name.Present? && Member(TextOf(y.name), Meaning(y)) == ParseMember(s[p..]).value
              && FromParser(y)
    decreases |s| - p, 5
  {
    q, y := ParseStringInto(mem, err, child, a, p, s, x);
    if q.Place? {
      y := TakeName(child, y);
      q := SkipBehind(q, a, s);
      q, y := ParseColonInto(mem, err, child, a, q.p, s, y);
    }
  }

  ghost predicate PairReported(s: Text, p: nat, q: Pointer, ep: Pointer, before: Pointer, y: Tree)
    requires p <= |s|
  {
    && Reports(Skipped(ParseMember(Skip(s[p..]))), q, ep, before, s)
    && (q.Place? ==>
          && p < q.p && y.name.Present? && Member(TextOf(y.name), Meaning(y)) == ParseMember(Skip(s[p..])).value
          && FromParser(y))
  }

  method FillPair(mem: Heap, err: Errors, child: Node, a: array<Byte>, p: nat,
      ghost s: Text, ghost t: Tree, ghost x: Tree)
    returns (q: Pointer, ghost y: Tree)
    requires Holds(a, s) && p <= |s| && !ParseMember(Skip(s[p..])).Incomplete? && x.name == Absent
    requires child == x.node && IsBlank(x) && Linked(x) && Separate(x) && child !in NodesOf(t)
    modifies mem, err, child`child, child`kind, child`valuestring, child`valueint, child`valuedouble, child`name
    ensures child == y.node && Linked(y) && Separate(y) && Owned(t) !! Owned(y)
    ensures OpenAt(t, child) <==> old(OpenAt(t, child))
    ensures Owned(y) == {child} + MadeFor(y) && fresh(MadeFor(y)) && mem.live == old(mem.live) + MadeFor(y)
    ensures PairReported(s, p, q, err.ep, old(err.ep), y)
    decreases |s| - p, 7
  {
    assert allocated(NodesOf(t)) && allocated(BlocksOf(t));
    q, y := ReadPair(mem, err, child, a, p, s, x);
    OwnedBesideNode(y);
  }

  method ReadPair(mem: Heap, err: Errors, child: Node, a: array<Byte>, p: nat, ghost s: Text, ghost x: Tree)
    returns (q: Pointer, ghost y: Tree)
    requires Holds(a, s) && p <= |s| && !ParseMember(Skip(s[p..])).Incomplete? && x.name == Absent
    requires child == x.node && IsBlank(x) && Linked(x) && Separate(x)
    modifies mem, err, child`child, child`kind, child`valuestring, child`valueint, child`valuedouble, child`name
    ensures child == y.node && Linked(y) && Separate(y)
    ensures fresh(MadeFor(y)) && mem.live == old(mem.live) + MadeFor(y)
    ensures PairReported(s, p, q, err.ep, old(err.ep), y)
    decreases |s| - p, 6
  {
    var v := SkipFrom(a, p, s);
    q, y := ParseMemberInto(mem, err, child, a, v, s, x);
    q := SkipBehind(q, a, s);
  }

  method GrowByPair(mem: Heap, err: Errors, child: Node, a: array<Byte>, p: nat,
      ghost s: Text, ghost t: Tree, ghost x: Tree)
    returns (q: Pointer, ghost y: Tree)
    requires Holds(a, s) && p <= |s| && !ParseMember(Skip(s[p..])).Incomplete?
    requires child == x.node && IsBlank(x) && x.name == Absent && Linked(x) && Separate(x)
    requires OpenAt(t, child) && child.prev == Last(t.kids, null) && child.next == null
    requires Separate(t) && child !in NodesOf(t)
    modifies mem, err, child`child, child`kind, child`valuestring, child`valueint, child`valuedouble, child`name
    ensures child == y.node && Linked(Grown(t, y)) && Separate(Grown(t, y))
    ensures Owned(y) == {child} + MadeFor(y) && fresh(MadeFor(y)) && mem.live == old(mem.live) + MadeFor(y)
    ensures PairReported(s, p, q, err.ep, old(err.ep), y)
    decreases |s| - p, 8
  {
    q, y := FillPair(mem, err, child, a, p, s, t, x);
    Adopted(t, y);
  }

  method ParsePair(mem: Heap, err: Errors, parent: Node, last: Node?, a: array<Byte>, p: nat,
      ghost s: Text, ghost t: Tree)
    returns (q: Pointer, child: Node, ghost y: Tree)
    requires Holds(a, s) && p <= |s| && !ParseMember(Skip(s[p..])).Incomplete?
    requires parent == t.node && !t.isReference && Linked(t) && Separate(t) && last == Last(t.kids, null)
    modifies mem, err, parent`child, NodesOfAll(t.kids)`next
    ensures child == y.node && Linked(Grown(t, y)) && Separate(Grown(t, y))
    ensures fresh(Owned(y)) && mem.live == old(mem.live) + Owned(y)
    ensures PairReported(s, p, q, err.ep, old(err.ep), y)
    decreases |s| - p, 9
  {
    ghost var x;
    assert allocated(NodesOf(t)) && allocated(BlocksOf(t));
    child, x := AttachChild(mem, parent, last, t);
    q, y := GrowByPair(mem, err, child, a, p, s, t, x);
  }

  // The members read into `t` so far, with the pointer `q` behind the last one.
  ghost predicate MembersReported(s: Text, p: nat, q: Pointer, ep: Pointer, before: Pointer, t: Tree,
      whole: Parsed<seq<Member>>)
  {
    if q.Place? then
      p < q.p <= |s| && whole == AfterMembers(Members(t.kids), s[q.p..]) && FromParserAll(t.kids, true) && ep == before
    else
      whole.Fail? && Points(ep, s, whole.at)
  }

  method NextMember(mem: Heap, err: Errors, item: Node, last: Node?, a: array<Byte>, p: nat, ghost s: Text,
      ghost t: Tree, ghost whole: Parsed<seq<Member>>)
    returns (q: Pointer, child: Node, ghost y: Tree)
    requires Holds(a, s) && p <= |s| && !whole.Incomplete? && whole == Prefixed(Members(t.kids), ParseMembers(s[p..]))
    requires item == t.node && !t.isReference && Linked(t) && Separate(t) && last == Last(t.kids, null)
    requires FromParserAll(t.kids, true)
    modifies mem, err, item`child, NodesOfAll(t.kids)`next
    ensures child == y.node && Linked(Grown(t, y)) && Separate(Grown(t, y))
    ensures fresh(Owned(y)) && mem.live == old(mem.live) + Owned(y)
    ensures OwnedAll(Grown(t, y).kids) == OwnedAll(t.kids) + Owned(y)
    ensures MembersReported(s, p, q, err.ep, old(err.ep), Grown(t, y), whole)
    decreases |s| - p, 10
  {
    MemberFollows(Members(t.kids), s[p..]);
    q, child, y := ParsePair(mem, err, item, last, a, p, s, t);
    OwnedGrown(t, y);
    ItemsAppend(t.kids, y);
    if q.Place? {
      FromParserMore(t.kids, true, y);
    }
  }

  // Behind a comma the rest of the text decides.
  lemma MemberBehindComma(a: array<Byte>, s: Text, p: nat, c: nat, ep: Pointer, t: Tree, whole: Parsed<seq<Member>>)
    requires Holds(a, s) && p < c <= |s| && a[c] == COMMA
    ensures c < |s| && (MembersReported(s, p, Place(c), ep, ep, t, whole) ==>
              whole == Prefixed(Members(t.kids), ParseMembers(s[c + 1..])) && FromParserAll(t.kids, true))
  {
    ReadsAt(a, s, c);
    Shift(s, c, 1);
  }

  // A report from there on is one for the whole.
  lemma MemberReportedSince(s: Text, p: nat, c: nat, q: Pointer, ep: Pointer, before: Pointer, u: Tree,
      whole: Parsed<seq<Member>>)
    requires p < c
    ensures MembersReported(s, c + 1, q, ep, before, u, whole) ==>
              MembersReported(s, p, q, ep, before, u, whole) && (q.Place? ==> c < q.p)
  {
  }

  // One turn of the loop: the comma, and the member behind it.
  method NextMemberBehindComma(mem: Heap, err: Errors, item: Node, last: Node, a: array<Byte>, c: nat,
      ghost p: nat, ghost s: Text, ghost t: Tree, ghost whole: Parsed<seq<Member>>, ghost base: set<object>)
    returns (q: Pointer, child: Node, ghost u: Tree)
    requires Holds(a, s) && p < c <= |s| && a[c] == COMMA && !whole.Incomplete?
    requires MembersReported(s, p, Place(c), err.ep, err.ep, t, whole)
    requires item == t.node && !t.isReference && Linked(t) && Separate(t) && last == Last(t.kids, null)
    requires mem.live == base + OwnedAll(t.kids)
    modifies mem, err, item`child, NodesOfAll(t.kids)`next
    ensures u == t.(kids := u.kids) && child == Last(u.kids, null) && Linked(u) && Separate(u)
    ensures fresh(OwnedAll(u.kids) - OwnedAll(t.kids))
    ensures mem.live == base + OwnedAll(u.kids)
    ensures MembersReported(s, p, q, err.ep, old(err.ep), u, whole) && (q.Place? ==> c < q.p)
    decreases |s| - p, 0
  {
    MemberBehindComma(a, s, p, c, err.ep, t, whole);
    ghost var y, before := t, err.ep;
    q, child, y := NextMember(mem, err, item, last, a, c + 1, s, t, whole);
    u := Grown(t, y);
    MemberReportedSince(s, p, c, q, err.ep, before, u, whole);
  }

  // The loop of `parse_object` over what follows the first member.
  method MoreMembers(mem: Heap, err: Errors, item: Node, first: Node, a: array<Byte>, q0: Pointer,
      ghost p: nat, ghost s: Text, ghost x: Tree, ghost whole: Parsed<seq<Member>>, ghost base: set<object>)
    returns (q: Pointer, ghost t: Tree)
    requires Holds(a, s) && p <= |s| && !whole.Incomplete?
    requires item == x.node && !x.isReference && Linked(x) && Separate(x) && first == Last(x.kids, null)
    requires mem.live == base + OwnedAll(x.kids)
    requires MembersReported(s, p, q0, err.ep, err.ep, x, whole)
    modifies mem, err, item`child, NodesOfAll(x.kids)`next
    ensures t == x.(kids := t.kids) && Linked(t) && Separate(t)
    ensures fresh(OwnedAll(t.kids) - OwnedAll(x.kids))
    ensures mem.live == base + OwnedAll(t.kids)
    ensures MembersReported(s, p, q, err.ep, old(err.ep), t, whole) && (q.Place? ==> a[q.p] != COMMA)
    decreases |s| - p, 11
  {
    q, t := q0, x;
    var child := first;
    while q.Place? && a[q.p] == COMMA
      invariant MembersReported(s, p, q, err.ep, old(err.ep), t, whole)
      invariant t == x.(kids := t.kids) && child == Last(t.kids, null) && Linked(t) && Separate(t)
      invariant fresh(OwnedAll(t.kids) - OwnedAll(x.kids))
      invariant mem.live == base + OwnedAll(t.kids)
      decreases if q.Place? then |s| - q.p else -1
    {
      q, child, t := NextMemberBehindComma(mem, err, item, child, a, q.p, p, s, t, whole, base);
    }
  }

  // What follows the last member.
  method FinishMembers(err: Errors, a: array<Byte>, q0: Pointer, ghost p: nat, ghost s: Text, ghost t: Tree,
      ghost whole: Parsed<seq<Member>>)
    returns (q: Pointer)
    requires Holds(a, s) && p <= |s| && !whole.Incomplete?
    requires MembersReported(s, p, q0, err.ep, err.ep, t, whole) && (q0.Place? ==> a[q0.p] != COMMA)
    modifies err
    ensures Reports(whole, q, err.ep, old(err.ep), s)
    ensures q.Place? ==> p < q.p && Members(t.kids) == whole.value && FromParserAll(t.kids, true)
  {
    q := q0;
    if q.Place? {
      ReadsAt(a, s, q.p);
      if a[q.p] == CLOSE_BRACE {
        Shift(s, q.p, 1);
        q := Place(q.p + 1);
      } else {
        err.ep, q := q, NullPointer;
      }
    }
  }

  method ParseMembersInto(mem: Heap, err: Errors, item: Node, a: array<Byte>, p: nat, ghost s: Text, ghost x: Tree)
    returns (q: Pointer, ghost t: Tree)
    requires Holds(a, s) && p <= |s| && !ParseMembers(s[p..]).Incomplete?
    requires item == x.node && x.kids == [] && !x.isReference && Linked(x) && Separate(x)
    modifies mem, err, item`child
    ensures t == x.(kids := t.kids) && Linked(t) && Separate(t)
    ensures fresh(OwnedAll(t.kids)) && mem.live == old(mem.live) + OwnedAll(t.kids)
    ensures Reports(ParseMembers(s[p..]), q, err.ep, old(err.ep), s)
    ensures q.Place? ==> p < q.p && Members(t.kids) == ParseMembers(s[p..]).value && FromParserAll(t.kids, true)
    decreases |s| - p, 12
  {
    ghost var y, whole := x, ParseMembers(s[p..]);
    var child;
    PrefixedByNothing(whole);
    q, child, y := NextMember(mem, err, item, null, a, p, s, x, whole);
    assert NodesOfAll(Grown(x, y).kids) <= Owned(y) by {
      assert Grown(x, y).kids == [y];
      NodesOfOne(y);
    }
    q, t := MoreMembers(mem, err, item, child, a, q, p, s, Grown(x, y), whole, old(mem.live));
    q := FinishMembers(err, a, q, p, s, t, whole);
  }

  // The object that was read is the one the text stands for.
  lemma ObjectRead(v: Text, t: Tree)
    requires t.kind == KindObject && !t.isReference && FieldsFit(t) && FromParserAll(t.kids, true)
    requires if Head(v) == CLOSE_BRACE then t.kids == []
             else ParseMembers(v).Ok? && Members(t.kids) == ParseMembers(v).value
    ensures BraceResult(v).Ok? && Meaning(t) == BraceResult(v).value && FromParser(t)
  {
  }

  method ReadBraces(mem: Heap, err: Errors, item: Node, a: array<Byte>, p: nat, ghost s: Text, ghost x: Tree,
      ghost whole: Parsed<Json>)
    returns (q: Pointer, ghost t: Tree)
    requires Holds(a, s) && p < |s| && whole == BraceResult(Skip(s[p..][1..])) && !whole.Incomplete?
    requires item == x.node && IsBlank(x) && Linked(x) && Separate(x)
    modifies mem, err, item`child, item`kind
    ensures t == x.(kind := KindObject, kids := t.kids) && Linked(t) && Separate(t)
    ensures fresh(OwnedAll(t.kids)) && mem.live == old(mem.live) + OwnedAll(t.kids)
    ensures Reports(whole, q, err.ep, old(err.ep), s)
    ensures q.Place? ==> p < q.p && Meaning(t) == whole.value && FromParser(t)
    decreases |s| - p, 1
  {
    Shift(s, p, 1);
    t := SetKind(item, KindObject, x);
    var v := OpenBracket(a, p, s);
    assert allocated(NodesOf(t)) && allocated(BlocksOf(t));
    if a[v] == CLOSE_BRACE {
      Shift(s, v, 1);
      q := Place(v + 1);
    } else {
      q, t := ParseMembersInto(mem, err, item, a, v, s, t);
    }
    if q.Place? {
      ObjectRead(s[v..], t);
    }
  }

  method ParseObjectInto(mem: Heap, err: Errors, item: Node, a: array<Byte>, p: nat, ghost s: Text, ghost x: Tree)
    returns (q: Pointer, ghost t: Tree)
    requires Holds(a, s) && p < |s| && s[p] == OPEN_BRACE && !ParseValue(s[p..]).Incomplete?
    requires item == x.node && IsBlank(x) && Linked(x) && Separate(x)
    modifies mem, err, item`child, item`kind
    ensures t == x.(kind := KindObject, kids := t.kids) && Linked(t) && Separate(t)
    ensures fresh(OwnedAll(t.kids)) && mem.live == old(mem.live) + OwnedAll(t.kids)
    ensures Reports(ParseValue(s[p..]), q, err.ep, old(err.ep), s)
    ensures q.Place? ==> p < q.p && Meaning(t) == ParseValue(s[p..]).value && FromParser(t)
    decreases |s| - p, 2
  {
    BraceForm(s[p..]);
    q, t := ReadBraces(mem, err, item, a, p, s, x, ParseValue(s[p..]));
  }

  // ----- Values -----

  // The three words, by `strncmp`.
  method ParseWordInto(item: Node, a: array<Byte>, p: nat, ghost s: Text, ghost x: Tree)
    returns (q: Pointer, ghost t: Tree)
    requires Holds(a, s) && p <= |s| && item == x.node && IsBlank(x) && Linked(x) && Separate(x)
    modifies item`kind, item`valueint
    ensures t == x.(kind := t.kind, valueint := t.valueint) && Linked(t) && Separate(t)
    ensures q.Place? <==> NULL_WORD <= s[p..] || FALSE_WORD <= s[p..] || TRUE_WORD <= s[p..]
    ensures if q.Place? then
              && p < q.p && ParseValue(s[p..]).Ok? && Points(q, s, ParseValue(s[p..]).rest)
              && Meaning(t) == ParseValue(s[p..]).value && FromParser(t)
            else t == x
  {
    assert allocated(NodesOf(x)) && allocated(BlocksOf(x));
    q, t := NullPointer, x;
    var b := StartsWith(a, p, NULL_WORD, s);
    if b {
      t := SetKind(item, KindNull, x);
      q := Place(p + 4);
      return;
    }
    b := StartsWith(a, p, FALSE_WORD, s);
    if b {
      t := SetKind(item, KindFalse, x);
      q := Place(p + 5);
      return;
    }
    b := StartsWith(a, p, TRUE_WORD, s);
    if b {
      t := SetWord(item, KindTrue, 1, x);
      q := Place(p + 4);
    }
  }

  // `parse_value`
  method ParseValueInto(mem: Heap, err: Errors, item: Node, a: array<Byte>, p: nat, ghost s: Text, ghost x: Tree)
    returns (q: Pointer, ghost t: Tree)
    requires Holds(a, s) && p <= |s| && !ParseValue(s[p..]).Incomplete?
    requires item == x.node && IsBlank(x) && Linked(x) && Separate(x)
    modifies mem, err, item`child, item`kind, item`valuestring, item`valueint, item`valuedouble
    ensures t.node == item && t.name == x.name && Linked(t) && Separate(t)
    ensures fresh(Added(t)) && mem.live == old(mem.live) + Added(t)
    ensures Reports(ParseValue(s[p..]), q, err.ep, old(err.ep), s)
    ensures q.Place? ==> p < q.p && Meaning(t) == ParseValue(s[p..]).value && FromParser(t)
    decreases |s| - p, 3, 3
  {
    q, t := ParseWordInto(item, a, p, s, x);
    if !q.Place? {
      q, t := ParseByFirst(mem, err, item, a, p, s, x);
    }
  }

  // No word stands there, so the first byte decides.
  method ParseByFirst(mem: Heap, err: Errors, item: Node, a: array<Byte>, p: nat, ghost s: Text, ghost x: Tree)
    returns (q: Pointer, ghost t: Tree)
    requires Holds(a, s) && p <= |s| && !ParseValue(s[p..]).Incomplete?
    requires !(NULL_WORD <= s[p..] || FALSE_WORD <= s[p..] || TRUE_WORD <= s[p..])
    requires item == x.node && IsBlank(x) && Linked(x) && Separate(x)
    modifies mem, err, item`child, item`kind, item`valuestring, item`valueint, item`valuedouble
    ensures t.node == item && t.name == x.name && Linked(t) && Separate(t)
    ensures fresh(Added(t)) && mem.live == old(mem.live) + Added(t)
    ensures Reports(ParseValue(s[p..]), q, err.ep, old(err.ep), s)
    ensures q.Place? ==> p < q.p && Meaning(t) == ParseValue(s[p..]).value && FromParser(t)
    decreases |s| - p, 3, 2
  {
    ReadsAt(a, s, p);
    if a[p] == QUOTE {
      q, t := ParseStringInto(mem, err, item, a, p, s, x);
    } else {
      q, t := ParseUnquoted(mem, err, item, a, p, s, x);
    }
  }

  method ParseUnquoted(mem: Heap, err: Errors, item: Node, a: array<Byte>, p: nat, ghost s: Text, ghost x: Tree)
    returns (q: Pointer, ghost t: Tree)
    requires Holds(a, s) && p <= |s| && !ParseValue(s[p..]).Incomplete?
    requires !(NULL_WORD <= s[p..] || FALSE_WORD <= s[p..] || TRUE_WORD <= s[p..]) && a[p] != QUOTE
    requires item == x.node && IsBlank(x) && Linked(x) && Separate(x)
    modifies mem, err, item`child, item`kind, item`valueint, item`valuedouble
    ensures t.node == item && t.name == x.name && t.value == x.value && Linked(t) && Separate(t)
    ensures fresh(OwnedAll(t.kids)) && mem.live == old(mem.live) + OwnedAll(t.kids)
    ensures Reports(ParseValue(s[p..]), q, err.ep, old(err.ep), s)
    ensures q.Place? ==> p < q.p && Meaning(t) == ParseValue(s[p..]).value && FromParser(t)
    decreases |s| - p, 3, 1
  {
    ReadsAt(a, s, p);
    if a[p] == MINUS || IsDigit(a[p]) {
      var n;
      n, t := ParseNumberInto(item, a, p, s, x);
      q := Place(n);
    } else {
      q, t := ParseNested(mem, err, item, a, p, s, x);
    }
  }

  // An array, an object, or no value at all.
  method ParseNested(mem: Heap, err: Errors, item: Node, a: array<Byte>, p: nat, ghost s: Text, ghost x: Tree)
    returns (q: Pointer, ghost t: Tree)
    requires Holds(a, s) && p <= |s| && !ParseValue(s[p..]).Incomplete?
    requires !(NULL_WORD <= s[p..] || FALSE_WORD <= s[p..] || TRUE_WORD <= s[p..])
    requires a[p] != QUOTE && a[p] != MINUS && !IsDigit(a[p])
    requires item == x.node && IsBlank(x) && Linked(x) && Separate(x)
    modifies mem, err, item`child, item`kind
    ensures t == x.(kind := t.kind, kids := t.kids) && Linked(t) && Separate(t)
    ensures fresh(OwnedAll(t.kids)) && mem.live == old(mem.live) + OwnedAll(t.kids)
    ensures Reports(ParseValue(s[p..]), q, err.ep, old(err.ep), s)
    ensures q.Place? ==> p < q.p && Meaning(t) == ParseValue(s[p..]).value && FromParser(t)
    decreases |s| - p, 3, 0
  {
    ReadsAt(a, s, p);
    t := x;
    if a[p] == OPEN_BRACKET {
      q, t := ParseArrayInto(mem, err, item, a, p, s, x);
    } else if a[p] == OPEN_BRACE {
      q, t := ParseObjectInto(mem, err, item, a, p, s, x);
    } else {
      err.ep, q := Place(p), NullPointer;
    }
  }

  // ----- The entry point -----

  lemma AloneInChain(t: Tree)
    requires Linked(t) && Separate(t) && t.node.prev == null && t.node.next == null
    ensures Segment([t], null, null) && SeparateAll([t]) && OwnedAll([t]) == Owned(t)
  {
    NodesOfOne(t);
  }

  // A new node, filled from the value behind the white space.
  method ParseTop(mem: Heap, err: Errors, a: array<Byte>, ghost s: Text)
    returns (item: Node, end: Pointer, ghost t: Tree)
    requires Holds(a, s) && !ParseText(s, false).Incomplete?
    modifies mem, err
    ensures item == t.node && Linked(t) && Separate(t) && item.next == null && item.prev == null
    ensures fresh(Owned(t)) && mem.live == old(mem.live) + Owned(t)
    ensures Reports(ParseText(s, false), end, err.ep, NullPointer, s)
    ensures end.Place? ==> Meaning(t) == ParseText(s, false).value && FromParser(t) && t.name.Absent?
  {
    item := NewItem(mem);
    ghost var x := Tree(item, KindFalse, false, Absent, 0, 0.0, Absent, []);
    err.ep := NullPointer;
    assert s[0..] == s;
    var v := SkipFrom(a, 0, s);
    end, t := ParseValueInto(mem, err, item, a, v, s, x);
    OwnedParts(t);
  }

  // `cJSON_ParseWithOpts` without a check of what follows the value.
  method ParsePrefix(mem: Heap, err: Errors, a: array<Byte>, ghost s: Text)
    returns (c: Node?, end: Pointer, ghost t: Tree)
    requires Holds(a, s) && !ParseText(s, false).Incomplete?
    modifies mem, err
    ensures if c != null then
              && c == t.node && c.next == null && c.prev == null && Linked(t) && Separate(t)
              && FromParser(t) && t.name.Absent?
              && ParseText(s, false).Ok? && Meaning(t) == ParseText(s, false).value
              && Points(end, s, ParseText(s, false).rest)
              && err.ep == NullPointer && fresh(Owned(t)) && mem.live == old(mem.live) + Owned(t)
            else
              ParseText(s, false).Fail? && Points(err.ep, s, ParseText(s, false).at) && mem.live == old(mem.live)
  {
    c, end, t := ParseTop(mem, err, a, s);
    if end == NullPointer {
      DeleteWhole(mem, c, t);
      c := null;
    }
  }

  // `cJSON_Delete` of a node without siblings.
  method DeleteWhole(mem: Heap, item: Node, ghost t: Tree)
    requires item == t.node && Linked(t) && Separate(t) && item.prev == null && item.next == null
    requires Owned(t) <= mem.live
    modifies mem, Owned(t)
    ensures mem.live == old(mem.live) - Owned(t)
  {
    AloneInChain(t);
    Delete(mem, item, [t], null);
  }

  // `cJSON_ParseWithOpts`. An accepted text leaves a tree that stands for its
  // value; a rejected one leaves no block behind and the place of the mistake.
  // The error pointer is null exactly when parsing succeeds.
  method ParseWithOpts(mem: Heap, err: Errors, a: array<Byte>, toEnd: bool, ghost s: Text)
    returns (c: Node?, end: Pointer, ghost t: Tree)
    requires Holds(a, s) && !ParseText(s, toEnd).Incomplete?
    modifies mem, err
    ensures if c != null then
              && c == t.node && c.next == null && c.prev == null && Linked(t) && Separate(t)
              && FromParser(t) && t.name.Absent?
              && ParseText(s, toEnd).Ok? && Meaning(t) == ParseText(s, toEnd).value
              && Points(end, s, ParseText(s, toEnd).rest)
              && err.ep == NullPointer && fresh(Owned(t)) && mem.live == old(mem.live) + Owned(t)
            else
              ParseText(s, toEnd).Fail? && Points(err.ep, s, ParseText(s, toEnd).at) && mem.live == old(mem.live)
  {
    c, end, t := ParsePrefix(mem, err, a, s);
    if c != null && toEnd {
      assert allocated(NodesOf(t)) && allocated(BlocksOf(t));
      end := SkipBehind(end, a, s);
      ReadsAt(a, s, end.p);
      if a[end.p] != 0 {
        DeleteWhole(mem, c, t);
        err.ep, c := end, null;
      }
    }
  }
}

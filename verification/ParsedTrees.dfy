/** What the parsing methods promise about positions and about the trees they
    build, and how the loops of `parse_array` and `parse_object` follow the
    grammar. */
module ParsedTrees {
  import opened Bytes
  import opened Numbers
  import opened NumberReader
  import opened JsonValues
  import opened Parser
  import opened Nodes
  import opened NodeMeaning
  import opened TreePrinter

  // A `const char *` into the text, or a null pointer.
  datatype Pointer = NullPointer | Place(p: nat)

  // `q` points at the suffix `r` of `s`.
  predicate Points(q: Pointer, s: Text, r: Text) {
    q.Place? && q.p <= |s| && s[q.p..] == r
  }

  // The fields a kind has are set, and no others.
  predicate FieldsFit(t: Tree) {
    && (match t.kind
        case KindNumber => INT_MIN <= Truncated(t.valuedouble) <= INT_MAX ==> t.valueint == Truncated(t.valuedouble)
        case KindTrue => t.valueint == 1 && t.valuedouble == 0.0
        case _ => t.valueint == 0 && t.valuedouble == 0.0)
    && (t.value.Present? <==> t.kind == KindString)
    && (t.kids != [] ==> t.kind == KindArray || t.kind == KindObject)
  }

  // What holds in every tree a successful parse returns.
  predicate FromParser(t: Tree) {
    !t.isReference && FieldsFit(t) && FromParserAll(t.kids, t.kind == KindObject)
  }

  // The members of an object are named, and nothing else is.
  predicate FromParserAll(ts: seq<Tree>, named: bool) {
    ts == [] || (FromParser(ts[0]) && (named <==> ts[0].name.Present?) && FromParserAll(ts[1..], named))
  }

  lemma {:induction false} FromParserMore(ts: seq<Tree>, named: bool, y: Tree)
    requires FromParserAll(ts, named) && FromParser(y) && (named <==> y.name.Present?)
    ensures FromParserAll(ts + [y], named)
  {
    if ts == [] {
    } else {
      FromParserMore(ts[1..], named, y);
      assert (ts + [y])[1..] == ts[1..] + [y];
    }
  }

  // A parsed tree owns all it holds.
  lemma {:induction false} ParsedOwnsAll(t: Tree)
    requires FromParser(t)
    ensures NoReferences(t)
    decreases t, 0
  {
    ParsedOwnAll(t.kids, t.kind == KindObject);
  }

  lemma {:induction false} ParsedOwnAll(ts: seq<Tree>, named: bool)
    requires FromParserAll(ts, named)
    ensures NoReferencesAll(ts)
    decreases ts, 0
  {
    if ts == [] {
    } else {
      ParsedOwnsAll(ts[0]);
      ParsedOwnAll(ts[1..], named);
    }
  }

  // A parsed tree of 32-bit integers can be printed again.
  lemma {:induction false} ParsedIsReadyToPrint(t: Tree)
    requires FromParser(t) && Printable(Meaning(t))
    ensures ReadyToPrint(t)
    decreases t, 0
  {
    if t.kind == KindNumber {
      TruncatedInt(t.valuedouble);
    } else if t.kind == KindArray {
      ParsedAreReadyToPrint(t.kids, false);
    } else if t.kind == KindObject {
      ParsedAreReadyToPrint(t.kids, true);
    }
  }

  lemma TruncatedInt(d: real)
    requires d == d.Floor as real
    ensures Truncated(d) == d.Floor
  {
    assert -d == (-d.Floor) as real;
  }

  lemma {:induction false} ParsedAreReadyToPrint(ts: seq<Tree>, named: bool)
    requires FromParserAll(ts, named) && if named then MembersPrintable(Members(ts)) else AllPrintable(Items(ts))
    ensures ReadyToPrintAll(ts, named)
    decreases ts, 0
  {
    if ts == [] {
    } else {
      assert Items(ts)[1..] == Items(ts[1..]) && Members(ts)[1..] == Members(ts[1..]);
      ParsedIsReadyToPrint(ts[0]);
      ParsedAreReadyToPrint(ts[1..], named);
    }
  }

  // ----- The loops against the grammar -----

  function Prefixed<T>(front: seq<T>, p: Parsed<seq<T>>): Parsed<seq<T>> {
    match p
    case Ok(v, rest) => Ok(front + v, rest)
    case Fail(at) => Fail(at)
    case Incomplete => Incomplete
  }

  lemma PrefixedTwice<T>(a: seq<T>, b: seq<T>, p: Parsed<seq<T>>)
    ensures Prefixed(a, Prefixed(b, p)) == Prefixed(a + b, p)
  {
    if p.Ok? {
      assert a + (b + p.value) == a + b + p.value;
    }
  }

  // The elements read so far, and the pointer behind the last one.
  function AfterItems(js: seq<Json>, r: Text): Parsed<seq<Json>> {
    if Head(r) == COMMA then Prefixed(js, ParseItems(r[1..]))
    else if Head(r) == CLOSE_BRACKET then Ok(js, r[1..])
    else Fail(r)
  }

  function AfterMembers(ms: seq<Member>, r: Text): Parsed<seq<Member>> {
    if Head(r) == COMMA then Prefixed(ms, ParseMembers(r[1..]))
    else if Head(r) == CLOSE_BRACE then Ok(ms, r[1..])
    else Fail(r)
  }

  // One element more, behind those in `js`.
  lemma ItemFollows(js: seq<Json>, s: Text)
    ensures var p := ParseValue(Skip(s));
            && (p.Ok? ==> Prefixed(js, ParseItems(s)) == AfterItems(js + [p.value], Skip(p.rest)))
            && (p.Fail? ==> Prefixed(js, ParseItems(s)) == Fail(p.at))
            && (p.Incomplete? ==> ParseItems(s).Incomplete?)
  {
    var p := ParseValue(Skip(s));
    if p.Ok? && Head(Skip(p.rest)) == COMMA {
      PrefixedTwice(js, [p.value], ParseItems(Skip(p.rest)[1..]));
    }
  }

  lemma MemberFollows(ms: seq<Member>, s: Text)
    ensures var p := ParseMember(Skip(s));
            && (p.Ok? ==> Prefixed(ms, ParseMembers(s)) == AfterMembers(ms + [p.value], Skip(p.rest)))
            && (p.Fail? ==> Prefixed(ms, ParseMembers(s)) == Fail(p.at))
            && (p.Incomplete? ==> ParseMembers(s).Incomplete?)
  {
    var p := ParseMember(Skip(s));
    if p.Ok? && Head(Skip(p.rest)) == COMMA {
      PrefixedTwice(ms, [p.value], ParseMembers(Skip(p.rest)[1..]));
    }
  }

  // `q` and the error pointer report what the grammar says.
  predicate Reports<T>(r: Parsed<T>, q: Pointer, ep: Pointer, before: Pointer, s: Text) {
    match r
    case Ok(_, rest) => Points(q, s, rest) && ep == before
    case Fail(at) => q == NullPointer && Points(ep, s, at)
    case Incomplete => false
  }
}

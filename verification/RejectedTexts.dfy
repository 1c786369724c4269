/** Where the error pointer stands when a text is rejected: what is in front of
    it is the beginning of a text of the language, and what stands there cannot
    go on. Stated with the lax grammar, without the parser. */
module RejectedTexts {
  import opened Bytes
  import opened Numbers
  import opened Parser
  import opened RoundTrip
  import opened Grammar
  import opened LaxGrammar
  import opened GrammarRead
  import opened AcceptedTexts

  // ----- Beginnings of values, up to a mistake -----

  datatype Begun =
    | Nothing // a value is due
    | OpenString(ps: seq<Piece>) // the text ends in it
    | OpenArray(items: BegunItems)
    | OpenObject(members: BegunMembers)

  datatype BegunItems =
    | Item(w: Text, value: Begun) // the mistake is in an item,
    | ItemDone(e: Entry) // behind it,
    | MoreItems(e: Entry, rest: BegunItems) // or behind the comma that follows it

  datatype BegunMembers =
    | NameDue(w: Text)
    | OpenName(w: Text, ps: seq<Piece>)
    | ColonDue(w: Text, ps: seq<Piece>, behind: Text)
    | ValueBegun(w: Text, ps: seq<Piece>, behind: Text, before: Text, value: Begun)
    | MemberDone(m: Pair)
    | MoreMembers(m: Pair, rest: BegunMembers)

  function EntryText(e: Entry): Text {
    e.before + (SyntaxText(e.value) + e.behind)
  }

  function PairText(m: Pair): Text {
    m.before + (NamedText(m) + m.behind)
  }

  function BegunText(b: Begun): Text {
    match b
    case Nothing => []
    case OpenString(ps) => [QUOTE] + PiecesText(ps)
    case OpenArray(items) => [OPEN_BRACKET] + ItemsText(items)
    case OpenObject(members) => [OPEN_BRACE] + MembersText(members)
  }

  function ItemsText(items: BegunItems): Text {
    match items
    case Item(w, value) => w + BegunText(value)
    case ItemDone(e) => EntryText(e)
    case MoreItems(e, rest) => EntryText(e) + ([COMMA] + ItemsText(rest))
  }

  function MembersText(members: BegunMembers): Text {
    match members
    case NameDue(w) => w
    case OpenName(w, ps) => w + ([QUOTE] + PiecesText(ps))
    case ColonDue(w, ps, behind) => w + (QuotedText(ps) + behind)
    case ValueBegun(w, ps, behind, before, value) =>
      w + (QuotedText(ps) + (behind + ([COLON] + (before + BegunText(value)))))
    case MemberDone(m) => PairText(m)
    case MoreMembers(m, rest) => PairText(m) + ([COMMA] + MembersText(rest))
  }

  predicate IsBegun(b: Begun) {
    match b
    case Nothing => true
    case OpenString(ps) => LaxPieces(ps)
    case OpenArray(items) => AreBegunItems(items)
    case OpenObject(members) => AreBegunMembers(members)
  }

  predicate AreBegunItems(items: BegunItems) {
    match items
    case Item(w, value) => White(w) && IsBegun(value)
    case ItemDone(e) => LaxEntries([e])
    case MoreItems(e, rest) => LaxEntries([e]) && AreBegunItems(rest)
  }

  predicate AreBegunMembers(members: BegunMembers) {
    match members
    case NameDue(w) => White(w)
    case OpenName(w, ps) => White(w) && LaxPieces(ps)
    case ColonDue(w, ps, behind) => White(w) && LaxPieces(ps) && White(behind)
    case ValueBegun(w, ps, behind, before, value) =>
      White(w) && LaxPieces(ps) && White(behind) && White(before) && IsBegun(value)
    case MemberDone(m) => LaxPairs([m])
    case MoreMembers(m, rest) => LaxPairs([m]) && AreBegunMembers(rest)
  }

  // ----- What cannot stand there -----

  // White space is over, and none of these bytes follows.
  predicate NoneOf(t: Text, these: string) {
    t == [] || (t[0] > ' ' as int && forall c | c in these :: t[0] != c as int)
  }

  predicate NoValue(t: Text) {
    && NoneOf(t, "\"-[{0123456789")
    && !(Codes("null") <= t) && !(Codes("false") <= t) && !(Codes("true") <= t)
  }

  predicate Wrong(b: Begun, t: Text) {
    match b
    case Nothing => NoValue(t)
    case OpenString(_) => t == []
    case OpenArray(items) => WrongItems(items, t) && (items.Item? && items.value.Nothing? ==> NoneOf(t, "]"))
    case OpenObject(members) => WrongMembers(members, t) && (members.NameDue? ==> NoneOf(t, "}"))
  }

  predicate WrongItems(items: BegunItems, t: Text) {
    match items
    case Item(_, value) => Wrong(value, t)
    case ItemDone(_) => NoneOf(t, ",]")
    case MoreItems(_, rest) => WrongItems(rest, t)
  }

  predicate WrongMembers(members: BegunMembers, t: Text) {
    match members
    case NameDue(_) => NoneOf(t, "\"")
    case OpenName(_, _) => t == []
    case ColonDue(_, _, _) => NoneOf(t, ":")
    case ValueBegun(_, _, _, _, value) => Wrong(value, t)
    case MemberDone(_) => NoneOf(t, ",}")
    case MoreMembers(_, rest) => WrongMembers(rest, t)
  }

  // ----- Taking a rejected text apart -----

  lemma NothingFollows(t: Text)
    requires Head(t) == 0 || Head(t) > SPACE
    requires !(NULL_WORD <= t || FALSE_WORD <= t || TRUE_WORD <= t) && !StartsNumber(t)
    requires Head(t) != QUOTE && Head(t) != OPEN_BRACKET && Head(t) != OPEN_BRACE
    ensures NoValue(t)
  {
    NamedCharacters();
  }

  lemma {:induction false} ValueBegins(s: Text) returns (b: Begun)
    requires ParseValue(s).Fail? && (Head(s) == 0 || Head(s) > SPACE)
    ensures IsBegun(b) && s == BegunText(b) + ParseValue(s).at && Wrong(b, ParseValue(s).at) && !b.OpenString?
    decreases |s|, 0
  {
    if Head(s) == OPEN_BRACKET {
      b := ArrayBegins(s);
    } else if Head(s) == OPEN_BRACE {
      b := ObjectBegins(s);
    } else {
      b := Nothing;
      NothingFollows(s);
    }
  }

  lemma ArrayFails(s: Text)
    requires Head(s) == OPEN_BRACKET && ParseValue(s).Fail?
    ensures ParseItems(s[1..]).Fail? && ParseItems(s[1..]).at == ParseValue(s).at
    ensures Head(Skip(s[1..])) != CLOSE_BRACKET
  {
    NoWord(s);
    ItemsBehindWhite(s[1..]);
  }

  lemma {:induction false} ArrayBegins(s: Text) returns (b: Begun)
    requires Head(s) == OPEN_BRACKET && ParseValue(s).Fail?
    ensures b.OpenArray? && IsBegun(b) && s == BegunText(b) + ParseValue(s).at && Wrong(b, ParseValue(s).at)
    decreases |s|, -1
  {
    ArrayFails(s);
    HeadAndTail(s);
    var t := s[1..];
    var items := ItemsBegin(t);
    b := OpenArray(items);
    Regroup([OPEN_BRACKET], ItemsText(items), ParseItems(t).at);
  }

  lemma ObjectFails(s: Text)
    requires Head(s) == OPEN_BRACE && ParseValue(s).Fail?
    ensures ParseMembers(s[1..]).Fail? && ParseMembers(s[1..]).at == ParseValue(s).at
    ensures Head(Skip(s[1..])) != CLOSE_BRACE
  {
    NoWord(s);
    MembersBehindWhite(s[1..]);
  }

  lemma {:induction false} ObjectBegins(s: Text) returns (b: Begun)
    requires Head(s) == OPEN_BRACE && ParseValue(s).Fail?
    ensures b.OpenObject? && IsBegun(b) && s == BegunText(b) + ParseValue(s).at && Wrong(b, ParseValue(s).at)
    decreases |s|, -1
  {
    ObjectFails(s);
    HeadAndTail(s);
    var t := s[1..];
    var members := MembersBegin(t);
    b := OpenObject(members);
    Regroup([OPEN_BRACE], MembersText(members), ParseMembers(t).at);
  }

  // A value that is there, or a literal that the text ends in.
  lemma ValueOrOpen(v: Text) returns (x: Syntax, b: Begun)
    requires ParseValue(v).Ok?
    ensures if OpenLiteral(v)
            then b.OpenString? && IsBegun(b) && v == BegunText(b) && ParseValue(v).rest == []
            else LaxSyntax(x) && v == SyntaxText(x) + ParseValue(v).rest
  {
    x, b := NullWord, Nothing;
    if OpenLiteral(v) {
      NoWord(v);
      HeadAndTail(v);
      var ps := PiecesSpelled(v[1..]);
      assert PiecesText(ps) + [] == PiecesText(ps);
      b := OpenString(ps);
    } else {
      x := ValueSpelled(v);
    }
  }

  lemma RegroupElement(w: Text, x: Text, b: Text, c: Text, m: Text, t: Text)
    ensures w + (x + (b + t)) == w + (x + b) + t
    ensures w + (x + (b + (c + (m + t)))) == w + (x + b) + (c + m) + t
  {
  }

  lemma {:induction false} ItemsBegin(s: Text) returns (items: BegunItems)
    requires ParseItems(s).Fail?
    ensures AreBegunItems(items) && s == ItemsText(items) + ParseItems(s).at && WrongItems(items, ParseItems(s).at)
    ensures items.Item? && items.value.Nothing? ==> ParseItems(s).at == Skip(s)
    decreases |s|, 4
  {
    var v, at := Skip(s), ParseItems(s).at;
    var w := WhiteSplit(s);
    ItemsFail(s);
    if ParseValue(v).Fail? {
      var b := ValueBegins(v);
      items := Item(w, b);
      Regroup(w, BegunText(b), at);
    } else {
      items := ItemRead(w, v, at);
    }
  }

  // Behind the item something is wrong, or behind the comma that follows it.
  predicate ItemEndsWrong(after: Text, at: Text) {
    var r := Skip(after);
    if Head(r) == COMMA then ParseItems(r[1..]).Fail? && ParseItems(r[1..]).at == at
    else Head(r) != CLOSE_BRACKET && at == r
  }

  lemma ItemsFail(s: Text)
    requires ParseItems(s).Fail?
    ensures var p := ParseValue(Skip(s));
            if p.Ok? then ItemEndsWrong(p.rest, ParseItems(s).at) else p.Fail? && p.at == ParseItems(s).at
  {
  }

  // The first item is read, or left open.
  lemma {:induction false} ItemRead(w: Text, v: Text, at: Text) returns (items: BegunItems)
    requires ParseValue(v).Ok? && ItemEndsWrong(ParseValue(v).rest, at) && White(w)
    ensures !(items.Item? && items.value.Nothing?) && AreBegunItems(items) && WrongItems(items, at)
    ensures w + v == ItemsText(items) + at
    decreases |v|, 3
  {
    var after := ParseValue(v).rest;
    var r := Skip(after);
    var x, b := ValueOrOpen(v);
    if OpenLiteral(v) {
      items := Item(w, b);
      assert ItemsText(items) + [] == ItemsText(items);
    } else {
      var behind := WhiteSplit(after);
      var e := Entry(w, x, behind);
      if Head(r) == COMMA {
        HeadAndTail(r);
        var rest := ItemsBegin(r[1..]);
        items := MoreItems(e, rest);
        RegroupElement(w, SyntaxText(x), behind, [COMMA], ItemsText(rest), at);
      } else {
        items := ItemDone(e);
        RegroupElement(w, SyntaxText(x), behind, [], [], at);
      }
    }
  }

  lemma RegroupMember(w: Text, n: Text, b: Text, c: Text, v: Text, x: Text, t: Text)
    ensures w + (n + (b + (c + (v + (x + t))))) == w + (n + (b + (c + (v + x)))) + t
    ensures w + (n + (b + t)) == w + (n + b) + t
  {
  }

  lemma {:induction false} MembersBegin(s: Text) returns (members: BegunMembers)
    requires ParseMembers(s).Fail?
    ensures AreBegunMembers(members) && s == MembersText(members) + ParseMembers(s).at
    ensures WrongMembers(members, ParseMembers(s).at)
    ensures members.NameDue? ==> ParseMembers(s).at == Skip(s)
    decreases |s|, 2
  {
    var v := Skip(s);
    var w := WhiteSplit(s);
    if Head(v) != QUOTE {
      members := NameDue(w);
    } else if OpenLiteral(v) {
      HeadAndTail(v);
      var ps := PiecesSpelled(v[1..]);
      members := OpenName(w, ps);
      assert PiecesText(ps) + [] == PiecesText(ps) && MembersText(members) + [] == s;
    } else {
      members := NameRead(s, w);
    }
  }

  // The name is read, and perhaps the colon behind it.
  lemma {:induction false} NameRead(s: Text, w: Text) returns (members: BegunMembers)
    requires ParseMembers(s).Fail? && Head(Skip(s)) == QUOTE && !OpenLiteral(Skip(s)) && White(w) && s == w + Skip(s)
    ensures !members.NameDue? && AreBegunMembers(members) && s == MembersText(members) + ParseMembers(s).at
    ensures WrongMembers(members, ParseMembers(s).at)
    decreases |s|, 1
  {
    var v := Skip(s);
    var after := ParseString(v).rest;
    var c := Skip(after);
    var ps := QuotedSpelled(v);
    var behind := WhiteSplit(after);
    if Head(c) != COLON {
      members := ColonDue(w, ps, behind);
      RegroupMember(w, QuotedText(ps), behind, [], [], [], c);
    } else {
      HeadAndTail(c);
      members := ColonRead(s, w, ps, behind);
    }
  }

  // Behind the member something is wrong, or behind the comma that follows it.
  predicate EndsWrong(after: Text, at: Text) {
    var r := Skip(after);
    if Head(r) == COMMA then ParseMembers(r[1..]).Fail? && ParseMembers(r[1..]).at == at
    else Head(r) != CLOSE_BRACE && at == r
  }

  lemma MembersFail(s: Text)
    requires ParseMembers(s).Fail?
    ensures var p := ParseMember(Skip(s));
            if p.Ok? then EndsWrong(p.rest, ParseMembers(s).at) else p.Fail? && p.at == ParseMembers(s).at
  {
  }

  lemma {:induction false} ColonRead(s: Text, w: Text, ps: seq<Piece>, behind: Text) returns (members: BegunMembers)
    requires ParseMembers(s).Fail? && Head(Skip(s)) == QUOTE && White(w) && s == w + Skip(s)
    requires ParseString(Skip(s)).Ok?
    requires var after := ParseString(Skip(s)).rest;
             && LaxPieces(ps) && Skip(s) == QuotedText(ps) + after && White(behind) && after == behind + Skip(after)
             && Head(Skip(after)) == COLON
    ensures !members.NameDue? && AreBegunMembers(members) && s == MembersText(members) + ParseMembers(s).at
    ensures WrongMembers(members, ParseMembers(s).at)
    decreases |s|, 0
  {
    var c := Skip(ParseString(Skip(s)).rest);
    var v, at := Skip(c[1..]), ParseMembers(s).at;
    var before := WhiteSplit(c[1..]);
    HeadAndTail(c);
    MembersFail(s);
    if ParseValue(v).Fail? {
      var b := ValueBegins(v);
      members := ValueBegun(w, ps, behind, before, b);
      RegroupMember(w, QuotedText(ps), behind, [COLON], before, BegunText(b), at);
    } else {
      members := MemberRead(w, ps, behind, before, v, at);
    }
  }

  // So is the value, up to the end of the text or up to white space.
  lemma {:induction false} MemberRead(w: Text, ps: seq<Piece>, behind: Text, before: Text, v: Text, at: Text)
    returns (members: BegunMembers)
    requires ParseValue(v).Ok? && EndsWrong(ParseValue(v).rest, at)
    requires White(w) && LaxPieces(ps) && White(behind) && White(before)
    ensures !members.NameDue? && AreBegunMembers(members) && WrongMembers(members, at)
    ensures w + (QuotedText(ps) + (behind + ([COLON] + (before + v)))) == MembersText(members) + at
    decreases |v|, 3
  {
    var after := ParseValue(v).rest;
    var x, b := ValueOrOpen(v);
    if OpenLiteral(v) {
      members := ValueBegun(w, ps, behind, before, b);
      assert MembersText(members) + [] == MembersText(members);
    } else {
      var end := WhiteSplit(after);
      var m := Pair(w, ps, behind, before, x, end);
      RegroupPair(m, after);
      members := MemberEnds(m, after, at);
    }
  }

  lemma {:induction false} MemberEnds(m: Pair, after: Text, at: Text) returns (members: BegunMembers)
    requires LaxPairs([m]) && after == m.behind + Skip(after) && EndsWrong(after, at)
    ensures !members.NameDue? && AreBegunMembers(members) && WrongMembers(members, at)
    ensures m.before + (NamedText(m) + after) == MembersText(members) + at
    decreases |after|, 3
  {
    var r := Skip(after);
    if Head(r) == COMMA {
      HeadAndTail(r);
      var rest := MembersBegin(r[1..]);
      members := MoreMembers(m, rest);
      RegroupElement(m.before, NamedText(m), m.behind, [COMMA], MembersText(rest), at);
    } else {
      members := MemberDone(m);
      RegroupElement(m.before, NamedText(m), m.behind, [], [], at);
    }
  }

  // ----- The law -----

  // A value goes wrong at `at`.
  predicate GoesWrong(s: Text, before: Text, b: Begun, at: Text) {
    White(before) && IsBegun(b) && !b.OpenString? && s == before + (BegunText(b) + at) && Wrong(b, at)
  }

  // Something follows the value at `at`.
  predicate GoesOn(s: Text, before: Text, x: Syntax, behind: Text, at: Text) {
    && White(before) && LaxSyntax(x) && White(behind) && s == before + (SyntaxText(x) + (behind + at))
    && at != [] && at[0] > ' ' as int
  }

  ghost predicate WrongAt(s: Text, at: Text) {
    || (exists before, b :: GoesWrong(s, before, b, at))
    || (exists before, x, behind :: GoesOn(s, before, x, behind, at))
  }

  // At the error pointer a value goes wrong, or something follows it.
  lemma RejectedWhereWrong(s: Text)
    requires ParseText(s, true).Fail?
    ensures WrongAt(s, ParseText(s, true).at)
  {
    var v, at := Skip(s), ParseText(s, true).at;
    var before := WhiteSplit(s);
    if ParseValue(v).Fail? {
      var b := ValueBegins(v);
      assert GoesWrong(s, before, b, at);
    } else {
      SomethingFollows(v);
      var x := ValueSpelled(v);
      var behind := WhiteSplit(ParseValue(v).rest);
      assert GoesOn(s, before, x, behind, at);
    }
  }

  // ----- What is in front can be completed -----

  function Completed(b: Begun): Syntax {
    match b
    case Nothing => NullWord
    case OpenString(ps) => Quoted(ps)
    case OpenArray(items) => ArrayOf(CompletedItems(items))
    case OpenObject(members) => ObjectOf(CompletedMembers(members))
  }

  function CompletedItems(items: BegunItems): (es: seq<Entry>)
    ensures es != []
  {
    match items
    case Item(w, value) => [Entry(w, Completed(value), [])]
    case ItemDone(e) => [e]
    case MoreItems(e, rest) => [e] + CompletedItems(rest)
  }

  function CompletedMembers(members: BegunMembers): (ms: seq<Pair>)
    ensures ms != []
  {
    match members
    case NameDue(w) => [Pair(w, [], [], [], NullWord, [])]
    case OpenName(w, ps) => [Pair(w, ps, [], [], NullWord, [])]
    case ColonDue(w, ps, behind) => [Pair(w, ps, behind, [], NullWord, [])]
    case ValueBegun(w, ps, behind, before, value) => [Pair(w, ps, behind, before, Completed(value), [])]
    case MemberDone(m) => [m]
    case MoreMembers(m, rest) => [m] + CompletedMembers(rest)
  }

  // `a` is the beginning of `b`, behind the same text and in front of any other.
  lemma Begins(w: Text, a: Text, b: Text, t: Text)
    requires a <= b
    ensures w + a <= w + b && w + a <= w + (b + t) && a <= b + t
  {
    assert b == a + b[|a|..];
    assert w + b == w + a + b[|a|..] && w + (b + t) == w + a + (b[|a|..] + t) && b + t == a + (b[|a|..] + t);
  }

  lemma {:induction false} BegunIsCompleted(b: Begun)
    requires IsBegun(b)
    ensures LaxSyntax(Completed(b)) && BegunText(b) <= SyntaxText(Completed(b))
  {
    match b
    case Nothing =>
    case OpenString(ps) => Begins([QUOTE], PiecesText(ps), PiecesText(ps), [QUOTE]);
    case OpenArray(items) =>
      ItemsAreCompleted(items);
      Begins([OPEN_BRACKET], ItemsText(items), EntriesText(CompletedItems(items)), [CLOSE_BRACKET]);
    case OpenObject(members) =>
      MembersAreCompleted(members);
      Begins([OPEN_BRACE], MembersText(members), PairsText(CompletedMembers(members)), [CLOSE_BRACE]);
  }

  lemma OneEntryText(e: Entry)
    ensures EntriesText([e]) == EntryText(e)
  {
    assert e.behind + [] == e.behind;
  }

  lemma {:induction false} ItemsAreCompleted(items: BegunItems)
    requires AreBegunItems(items)
    ensures LaxEntries(CompletedItems(items)) && ItemsText(items) <= EntriesText(CompletedItems(items))
  {
    match items
    case Item(w, value) =>
      BegunIsCompleted(value);
      OneEntryText(Entry(w, Completed(value), []));
      Begins(w, BegunText(value), SyntaxText(Completed(value)), []);
    case ItemDone(e) => OneEntryText(e);
    case MoreItems(e, rest) =>
      ItemsAreCompleted(rest);
      OneEntryMore(e, CompletedItems(rest), []);
      var all := EntriesText(CompletedItems(rest));
      assert EntriesText(CompletedItems(items)) + [] == EntriesText(CompletedItems(items)) && all + [] == all;
      RegroupElement(e.before, SyntaxText(e.value), e.behind, [COMMA], all, []);
      Begins(EntryText(e) + [COMMA], ItemsText(rest), all, []);
      Regroup(EntryText(e), [COMMA], ItemsText(rest));
  }

  lemma OnePairText(m: Pair)
    ensures PairsText([m]) == PairText(m)
  {
    assert m.behind + [] == m.behind;
  }

  // A member whose text begins with `t`.
  lemma OneCompleted(m: Pair, t: Text)
    requires White(m.before) && LaxPieces(m.name) && White(m.behindName)
    requires White(m.beforeValue) && LaxSyntax(m.value) && White(m.behind) && t <= PairText(m)
    ensures LaxPairs([m]) && t <= PairsText([m])
  {
    assert [m][1..] == [];
    OnePairText(m);
  }

  lemma {:induction false} MembersAreCompleted(members: BegunMembers)
    requires AreBegunMembers(members)
    ensures LaxPairs(CompletedMembers(members)) && MembersText(members) <= PairsText(CompletedMembers(members))
  {
    match members
    case NameDue(w) => OneCompleted(Pair(w, [], [], [], NullWord, []), w);
    case OpenName(w, ps) =>
      var m := Pair(w, ps, [], [], NullWord, []);
      NameBegins(m);
      OneCompleted(m, MembersText(members));
    case ColonDue(w, ps, behind) =>
      var m := Pair(w, ps, behind, [], NullWord, []);
      ColonBegins(m);
      OneCompleted(m, MembersText(members));
    case ValueBegun(w, ps, behind, before, value) =>
      BegunIsCompleted(value);
      var m := Pair(w, ps, behind, before, Completed(value), []);
      ValueInMember(m, BegunText(value));
      OneCompleted(m, MembersText(members));
    case MemberDone(m) => OnePairText(m);
    case MoreMembers(m, rest) =>
      MembersAreCompleted(rest);
      OnePairMore(m, CompletedMembers(rest), []);
      var all := PairsText(CompletedMembers(rest));
      assert PairsText(CompletedMembers(members)) + [] == PairsText(CompletedMembers(members)) && all + [] == all;
      RegroupElement(m.before, NamedText(m), m.behind, [COMMA], all, []);
      Begins(PairText(m) + [COMMA], MembersText(rest), all, []);
      Regroup(PairText(m), [COMMA], MembersText(rest));
  }

  lemma RegroupName(w: Text, q: Text, n: Text, b: Text, e: Text)
    ensures w + (q + (n + q) + b + e) == w + (q + n) + (q + b + e)
  {
  }

  lemma RegroupColon(w: Text, n: Text, b: Text, r: Text, e: Text)
    ensures w + (n + (b + r) + e) == w + (n + b) + (r + e)
  {
  }

  lemma NameBegins(m: Pair)
    ensures m.before + ([QUOTE] + PiecesText(m.name)) <= PairText(m)
  {
    RegroupName(m.before, [QUOTE], PiecesText(m.name),
                m.behindName + ([COLON] + (m.beforeValue + SyntaxText(m.value))), m.behind);
  }

  lemma ColonBegins(m: Pair)
    ensures m.before + (QuotedText(m.name) + m.behindName) <= PairText(m)
  {
    RegroupColon(m.before, QuotedText(m.name), m.behindName, [COLON] + (m.beforeValue + SyntaxText(m.value)), m.behind);
  }

  lemma ValueInMember(m: Pair, v: Text)
    requires v <= SyntaxText(m.value)
    ensures m.before + (QuotedText(m.name) + (m.behindName + ([COLON] + (m.beforeValue + v)))) <= PairText(m)
  {
    var r := SyntaxText(m.value)[|v|..];
    assert SyntaxText(m.value) == v + r;
    RegroupInside(m.before, QuotedText(m.name), m.behindName, [COLON], m.beforeValue, v, r, m.behind);
  }

  lemma RegroupInside(w: Text, n: Text, b: Text, c: Text, p: Text, v: Text, r: Text, e: Text)
    ensures w + (n + (b + (c + (p + (v + r)))) + e) == w + (n + (b + (c + (p + v)))) + (r + e)
  {
  }

  predicate EndsWith(s: Text, at: Text) {
    |at| <= |s| && s[|s| - |at|..] == at
  }

  // The beginning of an accepted text.
  ghost predicate CanGoOn(front: Text) {
    exists t :: ParseText(front + t, true).Ok?
  }

  lemma CutAt(front: Text, at: Text)
    ensures EndsWith(front + at, at) && (front + at)[..|front + at| - |at|] == front
  {
  }

  lemma BegunCanBeCompleted(s: Text, before: Text, b: Begun, at: Text)
    requires GoesWrong(s, before, b, at)
    ensures EndsWith(s, at) && CanGoOn(s[..|s| - |at|])
  {
    var x := SyntaxText(Completed(b));
    BegunIsCompleted(b);
    var t := x[|BegunText(b)|..];
    assert x == BegunText(b) + t && x + [] == x;
    Regroup(before, BegunText(b), at);
    Regroup(before, BegunText(b), t);
    CutAt(before + BegunText(b), at);
    LaxIsAccepted(before, Completed(b), []);
    assert ParseText(before + BegunText(b) + t, true).Ok?;
  }

  lemma ReadCanBeCompleted(s: Text, before: Text, x: Syntax, behind: Text, at: Text)
    requires GoesOn(s, before, x, behind, at)
    ensures EndsWith(s, at) && CanGoOn(s[..|s| - |at|])
  {
    var u := before + (SyntaxText(x) + behind);
    Regroup(SyntaxText(x), behind, at);
    Regroup(before, SyntaxText(x) + behind, at);
    CutAt(u, at);
    LaxIsAccepted(before, x, behind);
    assert u + [] == u;
    assert ParseText(u + [], true).Ok?;
  }

  // What is in front of `at` is such a beginning.
  ghost predicate FrontGoesOn(s: Text, at: Text) {
    EndsWith(s, at) && CanGoOn(s[..|s| - |at|])
  }

  lemma WrongCanGoOn(s: Text, at: Text)
    ensures WrongAt(s, at) ==> FrontGoesOn(s, at)
  {
    if before, b :| GoesWrong(s, before, b, at) {
      BegunCanBeCompleted(s, before, b, at);
    } else if before, x, behind :| GoesOn(s, before, x, behind, at) {
      ReadCanBeCompleted(s, before, x, behind, at);
    }
  }

  // Everything in front of the error pointer is the beginning of an accepted text.
  lemma FrontCanGoOn(s: Text)
    requires ParseText(s, true).Fail?
    ensures FrontGoesOn(s, ParseText(s, true).at)
  {
    RejectedWhereWrong(s);
    WrongCanGoOn(s, ParseText(s, true).at);
  }
}

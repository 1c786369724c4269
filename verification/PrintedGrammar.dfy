/** What is printed, in either layout, is a text of the grammar and stands for
    the printed value: stated without the parser. */
module PrintedGrammar {
  import opened Bytes
  import opened Unicode
  import opened Numbers
  import opened StringLiteral
  import opened JsonValues
  import opened Printer
  import opened RoundTrip
  import opened Grammar
  import opened Layout
  import opened GrammarRead

  // ----- Strings -----

  lemma LowerDigitIs(d: nat)
    requires d < 16
    ensures LowerDigit(d) == HexDigit(d)
  {
  }

  // A control character without a letter is far from the surrogates.
  lemma CodeStands(c: TextByte, h: Text)
    requires c < 32 && !HasShortForm(c) && h == [ZERO, ZERO, LowerDigit(c / 16), LowerDigit(c % 16)]
    ensures IsPiece(Code(h)) && PieceText(Code(h)) == EscapeByte(c) && FirstValue(Code(h)) == [c] && !High(Hex4(h))
  {
    LowerDigitIs(c / 16);
    LowerDigitIs(c % 16);
    assert Hex4(h) == c;
    assert [BACKSLASH, LOWER_U] + h == [BACKSLASH] + UText(c);
  }

  lemma PieceStands(c: TextByte)
    ensures IsPiece(PieceOf(c)) && PieceText(PieceOf(c)) == EscapeByte(c) && FirstValue(PieceOf(c)) == [c]
    ensures PieceOf(c).Code? ==> !High(Hex4(PieceOf(c).h))
  {
    if PieceOf(c).Code? {
      CodeStands(c, PieceOf(c).h);
    }
  }

  lemma {:induction false} PiecesStand(s: Text)
    ensures forall p | p in PiecesOf(s) :: IsPiece(p)
    ensures PiecesText(PiecesOf(s)) == EscapeAll(s) && PiecesValue(PiecesOf(s)) == s
  {
    if s == [] {
    } else {
      PieceStands(s[0]);
      PiecesStand(s[1..]);
      assert PiecesOf(s)[1..] == PiecesOf(s[1..]);
      assert [s[0]] + s[1..] == s;
    }
  }

  lemma QuotedStands(s: Text)
    ensures (forall p | p in PiecesOf(s) :: IsPiece(p)) && QuotedText(PiecesOf(s)) == Literal(s)
  {
    PiecesStand(s);
    Regroup([QUOTE], EscapeAll(s), [QUOTE]);
  }

  // ----- Numbers -----

  lemma NumeralSpelled(n: int)
    ensures IsNumeral(NumeralOf(n)) && NumeralText(NumeralOf(n)) == Decimal(n)
  {
    var digits := NumeralOf(n).whole;
    assert [MINUS] + digits + [] + [] == [MINUS] + digits && [] + digits + [] + [] == digits;
  }

  lemma NumeralStands(n: int)
    ensures NumeralValue(NumeralOf(n)) == n as real
  {
    var m := if n < 0 then -n else n;
    DigitsFoldBack(m);
    NumeralSpelled(n);
    WholeFolds(Digits(m));
  }

  // ----- Values -----

  // The tabs the printer writes are those of a new line.
  lemma {:induction false} TabsAre(n: int)
    ensures Tabs(n) == seq(if n < 0 then 0 else n, _ => '\t' as int)
  {
    if n > 0 {
      TabsAre(n - 1);
    }
  }

  lemma BlanksAre(fmt: bool, n: int)
    ensures NewLine(fmt, n) == Only(fmt, [NEWLINE] + Tabs(n)) == Only(fmt, [NEWLINE]) + Only(fmt, Tabs(n))
    ensures SpaceOnly(fmt) == Only(fmt, [SPACE]) && TabOnly(fmt) == Only(fmt, [TAB])
  {
    TabsAre(n);
  }

  lemma BlanksAreWs(fmt: bool, n: int)
    ensures Ws(NewLine(fmt, n)) && Ws(SpaceOnly(fmt)) && Ws(TabOnly(fmt))
  {
  }

  // Lists of the grammar, taken apart at their first element.
  lemma FirstEntry(e: Entry, es: seq<Entry>)
    ensures AreEntries([e] + es) <==> Ws(e.before) && IsSyntax(e.value) && Ws(e.behind) && AreEntries(es)
    ensures EntriesText([e] + es)
         == e.before + (SyntaxText(e.value) + (e.behind + if es == [] then [] else [COMMA] + EntriesText(es)))
    ensures AreEntries([e] + es) ==> EntriesValue([e] + es) == [SyntaxValue(e.value)] + EntriesValue(es)
  {
    assert ([e] + es)[1..] == es;
  }

  lemma FirstPair(m: Pair, ms: seq<Pair>)
    ensures ArePairs([m] + ms) <==> ArePairs([m]) && ArePairs(ms)
    ensures PairsText([m] + ms)
         == m.before + (NamedText(m) + (m.behind + if ms == [] then [] else [COMMA] + PairsText(ms)))
    ensures ArePairs([m] + ms) ==>
              PairsValue([m] + ms) == [Member(PiecesValue(m.name), SyntaxValue(m.value))] + PairsValue(ms)
  {
    assert ([m] + ms)[1..] == ms && [m][1..] == [];
  }

  lemma RegroupItems(w: Text, v: Text, c: Text, p: Text, rest: Text)
    ensures w + (v + ([] + (c + (p + rest)))) == w + (v + (c + p + rest))
    ensures w + (v + ([] + [])) == w + (v + [])
  {
  }

  lemma RegroupBody(a: Text, b: Text, c: Text, d: Text, e: Text)
    ensures a + (b + c + d + e) == a + b + c + d + e
  {
  }

  lemma {:induction false} PrintedIsSyntax(j: Json, depth: nat, fmt: bool)
    requires Printable(j)
    ensures var x := SyntaxOf(j, depth, fmt);
            IsSyntax(x) && SyntaxText(x) == Print(j, depth, fmt) && SyntaxValue(x) == j
    decreases j, 1
  {
    match j
    case Number(d) =>
      NumeralSpelled(d.Floor);
      NumeralStands(d.Floor);
    case String(s) =>
      PiecesStand(s);
      QuotedStands(s);
    case Array(items) => ArrayIsSyntax(items, depth, fmt);
    case Object(members) => ObjectIsSyntax(members, depth, fmt);
    case _ =>
  }

  lemma {:induction false} ArrayIsSyntax(items: seq<Json>, depth: nat, fmt: bool)
    requires AllPrintable(items)
    ensures var x := SyntaxOf(Array(items), depth, fmt);
            IsSyntax(x) && SyntaxText(x) == Print(Array(items), depth, fmt) && SyntaxValue(x) == Array(items)
    decreases items, 1
  {
    if items == [] {
    } else {
      ItemsAreEntries(items, depth + 1, fmt, []);
      var body := PrintItems(items, depth + 1, fmt);
      assert [] + body == body;
      Regroup([OPEN_BRACKET], body, [CLOSE_BRACKET]);
    }
  }

  lemma {:induction false} ItemsAreEntries(items: seq<Json>, depth: nat, fmt: bool, w: Text)
    requires items != [] && AllPrintable(items) && Ws(w)
    ensures var es := EntriesOf(items, depth, fmt, w);
            AreEntries(es) && EntriesText(es) == w + PrintItems(items, depth, fmt) && EntriesValue(es) == items
    decreases items, 0
  {
    var rest := EntriesOf(items[1..], depth, fmt, SpaceOnly(fmt));
    BlanksAre(fmt, 0);
    BlanksAreWs(fmt, 0);
    PrintedIsSyntax(items[0], depth, fmt);
    FirstEntry(Entry(w, SyntaxOf(items[0], depth, fmt), []), rest);
    HeadAndTail(items);
    if |items| == 1 {
      RegroupItems(w, Print(items[0], depth, fmt), [], [], []);
    } else {
      ItemsAreEntries(items[1..], depth, fmt, SpaceOnly(fmt));
      RegroupItems(w, Print(items[0], depth, fmt), [COMMA], Only(fmt, [SPACE]), PrintItems(items[1..], depth, fmt));
    }
  }

  lemma EmptyObjectIsSyntax(depth: nat, fmt: bool)
    ensures var x := SyntaxOf(Object([]), depth, fmt);
            IsSyntax(x) && SyntaxText(x) == Print(Object([]), depth, fmt) && SyntaxValue(x) == Object([])
  {
    BlanksAre(fmt, depth - 1);
    BlanksAreWs(fmt, depth - 1);
    Regroup([OPEN_BRACE], Only(fmt, [NEWLINE] + Tabs(depth - 1)), [CLOSE_BRACE]);
  }

  lemma {:induction false} ObjectIsSyntax(members: seq<Member>, depth: nat, fmt: bool)
    requires MembersPrintable(members)
    ensures var x := SyntaxOf(Object(members), depth, fmt);
            IsSyntax(x) && SyntaxText(x) == Print(Object(members), depth, fmt) && SyntaxValue(x) == Object(members)
    decreases members, 1
  {
    if members == [] {
      EmptyObjectIsSyntax(depth, fmt);
    } else {
      MembersArePairs(members, depth + 1, fmt, depth);
      RegroupBody([OPEN_BRACE], Only(fmt, [NEWLINE]), PrintMembers(members, depth + 1, fmt), Only(fmt, Tabs(depth)),
                  [CLOSE_BRACE]);
    }
  }

  function Named(m: Member, depth: nat, fmt: bool): Text
    requires Printable(m.value)
  {
    Label(m.name, depth, fmt) + Print(m.value, depth, fmt)
  }

  // A member, with what the text holds behind it.
  lemma MemberStands(m: Member, depth: nat, fmt: bool, behind: Text, after: Text)
    requires Printable(m.value) && Ws(behind)
    requires var x := SyntaxOf(m.value, depth, fmt); IsSyntax(x) && SyntaxText(x) == Print(m.value, depth, fmt)
    ensures var p := PairOf(m, depth, fmt, behind);
            && ArePairs([p]) && PiecesValue(p.name) == m.name
            && p.before + (NamedText(p) + after) == Only(fmt, [NEWLINE]) + Named(m, depth, fmt) + after
  {
    BlanksAre(fmt, depth);
    BlanksAreWs(fmt, depth);
    PiecesStand(m.name);
    QuotedStands(m.name);
    RegroupMember(Only(fmt, [NEWLINE]), Only(fmt, Tabs(depth)), Literal(m.name), [COLON], Only(fmt, [TAB]),
                  Print(m.value, depth, fmt), after);
  }

  lemma RegroupMember(a: Text, b: Text, c: Text, d: Text, e: Text, f: Text, g: Text)
    ensures a + b + (c + ([] + (d + (e + f))) + g) == a + (b + c + d + e + f) + g
  {
    assert a + b + (c + ([] + (d + (e + f))) + g) == a + b + c + d + e + f + g;
  }

  lemma RegroupLines(nl: Text, n: Text, p: Text, w: Text)
    ensures nl + n + (nl + w + []) == nl + (n + nl) + w
    ensures nl + n + ([] + ([COMMA] + (nl + p + w))) == nl + (n + ([COMMA] + nl + p)) + w
  {
  }

  // The closing brace is to stand behind `n` tabs.
  predicate StandAsPairs(members: seq<Member>, depth: nat, fmt: bool, n: int)
    requires members != [] && MembersPrintable(members)
  {
    var ps := PairsOf(members, depth, fmt, NewLine(fmt, n));
    && ArePairs(ps) && PairsValue(ps) == members
    && PairsText(ps) == Only(fmt, [NEWLINE]) + PrintMembers(members, depth, fmt) + Only(fmt, Tabs(n))
  }

  lemma {:induction false} MembersArePairs(members: seq<Member>, depth: nat, fmt: bool, n: int)
    requires members != [] && MembersPrintable(members)
    ensures StandAsPairs(members, depth, fmt, n)
    decreases members, 0
  {
    PrintedIsSyntax(members[0].value, depth, fmt);
    HeadAndTail(members);
    if |members| == 1 {
      LastIsPair(members, depth, fmt, n);
    } else {
      MembersArePairs(members[1..], depth, fmt, n);
      MoreArePairs(members, depth, fmt, n);
    }
  }

  lemma LastIsPair(members: seq<Member>, depth: nat, fmt: bool, n: int)
    requires |members| == 1 && MembersPrintable(members)
    requires var x := SyntaxOf(members[0].value, depth, fmt);
             IsSyntax(x) && SyntaxText(x) == Print(members[0].value, depth, fmt) && SyntaxValue(x) == members[0].value
    ensures StandAsPairs(members, depth, fmt, n)
  {
    var nl, v := Only(fmt, [NEWLINE]), NewLine(fmt, n);
    BlanksAre(fmt, n);
    BlanksAreWs(fmt, n);
    MemberStands(members[0], depth, fmt, v, v + []);
    FirstPair(PairOf(members[0], depth, fmt, v), []);
    RegroupLines(nl, Named(members[0], depth, fmt), [], Only(fmt, Tabs(n)));
    HeadAndTail(members);
  }

  lemma MoreArePairs(members: seq<Member>, depth: nat, fmt: bool, n: int)
    requires |members| > 1 && MembersPrintable(members)
    requires var x := SyntaxOf(members[0].value, depth, fmt);
             IsSyntax(x) && SyntaxText(x) == Print(members[0].value, depth, fmt) && SyntaxValue(x) == members[0].value
    requires StandAsPairs(members[1..], depth, fmt, n)
    ensures StandAsPairs(members, depth, fmt, n)
  {
    var nl, rest := Only(fmt, [NEWLINE]), PairsOf(members[1..], depth, fmt, NewLine(fmt, n));
    MemberStands(members[0], depth, fmt, [], [] + ([COMMA] + PairsText(rest)));
    FirstPair(PairOf(members[0], depth, fmt, []), rest);
    RegroupLines(nl, Named(members[0], depth, fmt), PrintMembers(members[1..], depth, fmt), Only(fmt, Tabs(n)));
    HeadAndTail(members);
  }
}

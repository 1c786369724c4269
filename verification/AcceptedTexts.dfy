/** Which texts `cJSON_ParseWithOpts` accepts to their end: those of the lax
    grammar, and a string left open, and no others. */
module AcceptedTexts {
  import opened Bytes
  import opened Numbers
  import opened StringLiteral
  import opened JsonValues
  import opened Parser
  import opened RoundTrip
  import opened Grammar
  import opened LaxGrammar
  import opened GrammarRead

  // ----- What a text that was read is made of -----

  lemma {:induction false} WhiteSplit(s: Text) returns (w: Text)
    ensures White(w) && s == w + Skip(s)
  {
    if s == [] || s[0] > SPACE {
      w := [];
    } else {
      var v := WhiteSplit(s[1..]);
      w := [s[0]] + v;
      assert s == [s[0]] + s[1..];
    }
  }

  lemma {:induction false} DigitsSplit(s: Text) returns (d: Text)
    ensures AllDigits(d) && s == d + AfterDigits(s)
    ensures if IsDigit(Head(s)) then d != [] && d[0] == s[0] else d == []
  {
    if !IsDigit(Head(s)) {
      d := [];
    } else {
      var e := DigitsSplit(s[1..]);
      d := [s[0]] + e;
      assert s == [s[0]] + s[1..];
    }
  }

  // The sign of an exponent, and what stands behind it.
  function SignOf(r: Text): Sign {
    if Head(r) == PLUS then Plus else if Head(r) == MINUS then Minus else NoSign
  }

  function AfterSign(r: Text): Text {
    if SignOf(r).NoSign? then r else r[1..]
  }

  lemma SignSplit(r: Text)
    ensures r == SignText(SignOf(r)) + AfterSign(r)
  {
  }

  lemma ExpSpelled(s: Text) returns (e: Exp)
    ensures LaxExp(e) && s == ExpText(e) + Exponent(s).rest
  {
    if !HasExponent(s) {
      e := NoExp;
    } else {
      var r := s[1..];
      var d := DigitsSplit(AfterSign(r));
      e := Exp.Exp(s[0], SignOf(r), d);
      HeadAndTail(s);
      SignSplit(r);
      RegroupFour([s[0]], SignText(e.sign), d, AfterDigits(AfterSign(r)));
    }
  }

  lemma FractionSpelled(r: Text) returns (f: Text)
    ensures AllDigits(f) && (HasFraction(r) <==> f != [])
    ensures r == FractionText(f) + if HasFraction(r) then AfterDigits(r[1..]) else r
  {
    f := [];
    if HasFraction(r) {
      f := DigitsSplit(r[1..]);
      assert r == [DOT] + r[1..];
    }
  }

  // One zero, if there is one, and digits that start with another one.
  lemma WholeSpelled(a: Text) returns (whole: Text, r: Text)
    ensures AllDigits(whole) && (|whole| > 1 && whole[0] == ZERO ==> whole[1] != ZERO)
    ensures (IsDigit(Head(a)) ==> whole != []) && a == whole + r
    ensures var b := AfterZero(a); r == if HasInteger(b) then AfterDigits(b) else b
  {
    var b := AfterZero(a);
    var zero: Text := if Head(a) == ZERO then [ZERO] else [];
    var d: Text := [];
    if HasInteger(b) {
      d := DigitsSplit(b);
    }
    whole, r := zero + d, if HasInteger(b) then AfterDigits(b) else b;
    assert a == zero + b && b == d + r;
  }

  lemma NumeralSpelled(s: Text) returns (n: Numeral)
    requires StartsNumber(s)
    ensures LaxNumeral(n) && s == NumeralText(n) + NumberRest(s)
  {
    var a := AfterMinus(s);
    var whole, r := WholeSpelled(a);
    var f := FractionSpelled(r);
    var v := if HasFraction(r) then AfterDigits(r[1..]) else r;
    var e := ExpSpelled(v);
    n := Numeral(Head(s) == MINUS, whole, f, e);
    assert s == (if n.minus then [MINUS] else []) + a;
    RegroupNumeral(if n.minus then [MINUS] else [], whole, FractionText(f), ExpText(e), NumberRest(s));
  }

  lemma RegroupNumeral(m: Text, a: Text, b: Text, c: Text, t: Text)
    ensures m + a + b + c + t == m + (a + (b + (c + t)))
  {
  }

  lemma OnePiece(p: Piece)
    ensures PiecesText([p]) == PieceText(p)
  {
    assert [p][1..] == [];
  }

  lemma TwoPieces(p: Piece, q: Piece)
    ensures PiecesText([p, q]) == PieceText(p) + PieceText(q)
  {
    assert [p, q][1..] == [q];
    OnePiece(q);
  }

  lemma {:induction false} PiecesJoin(a: seq<Piece>, b: seq<Piece>)
    ensures PiecesText(a + b) == PiecesText(a) + PiecesText(b)
  {
    if a == [] {
      assert a + b == b;
    } else {
      assert (a + b)[1..] == a[1..] + b;
      PiecesJoin(a[1..], b);
    }
  }

  // An escape is one piece, or two that were taken together.
  lemma EscapeSpelled(s: Text) returns (ps: seq<Piece>)
    requires Head(s) == BACKSLASH && EscapeAt(s).Yield?
    ensures LaxPieces(ps) && s == PiecesText(ps) + s[EscapeAt(s).used..]
  {
    var used := EscapeAt(s).used;
    if used == 2 {
      ps := [Letter(s[1])];
      OnePiece(ps[0]);
    } else if used == 6 {
      ps := [Code(s[2..6])];
      OnePiece(ps[0]);
    } else {
      ps := [Code(s[2..6]), Code(s[8..12])];
      TwoPieces(ps[0], ps[1]);
    }
  }

  // What is left to decode behind a byte or an escape.
  lemma FirstPieces(s: Text) returns (first: seq<Piece>, rest: Text)
    requires s != [] && s[0] != QUOTE && Decode(s).Done?
    ensures LaxPieces(first) && s == PiecesText(first) + rest && |rest| < |s| && Decode(rest).Done?
    ensures Decode(rest).closed == Decode(s).closed && Decode(rest).rest == Decode(s).rest
  {
    if s[0] == BACKSLASH {
      first := EscapeSpelled(s);
      rest := s[EscapeAt(s).used..];
    } else {
      first, rest := [Unescaped(s[0])], s[1..];
      OnePiece(first[0]);
      HeadAndTail(s);
    }
  }

  function Ending(d: Decoded): Text
    requires d.Done?
  {
    if d.closed then [QUOTE] + d.rest else []
  }

  lemma {:induction false} PiecesSpelled(s: Text) returns (ps: seq<Piece>)
    requires Decode(s).Done?
    ensures LaxPieces(ps) && s == PiecesText(ps) + Ending(Decode(s))
    decreases |s|
  {
    if s == [] {
      ps := [];
    } else if s[0] == QUOTE {
      ps := [];
      HeadAndTail(s);
      assert PiecesText([]) + s == s;
    } else {
      var first, rest := FirstPieces(s);
      var more := PiecesSpelled(rest);
      ps := first + more;
      PiecesJoin(first, more);
      Regroup(PiecesText(first), PiecesText(more), Ending(Decode(rest)));
    }
  }

  // A string that the text ends in without its closing quote.
  predicate OpenLiteral(s: Text) {
    Head(s) == QUOTE && Decode(s[1..]).Done? && !Decode(s[1..]).closed
  }

  lemma QuotedSpelled(s: Text) returns (ps: seq<Piece>)
    requires ParseString(s).Ok? && !OpenLiteral(s)
    ensures LaxPieces(ps) && s == QuotedText(ps) + ParseString(s).rest
  {
    ps := PiecesSpelled(s[1..]);
    HeadAndTail(s);
    RegroupQuoted(PiecesText(ps), ParseString(s).rest);
  }

  lemma RegroupQuoted(p: Text, t: Text)
    ensures [QUOTE] + (p + ([QUOTE] + t)) == [QUOTE] + (p + [QUOTE]) + t
  {
  }

  // ----- Values -----

  lemma WordSpelled(s: Text) returns (x: Syntax)
    requires NULL_WORD <= s || FALSE_WORD <= s || TRUE_WORD <= s
    ensures LaxSyntax(x) && ParseValue(s).Ok? && s == SyntaxText(x) + ParseValue(s).rest
  {
    if NULL_WORD <= s {
      x := NullWord;
      assert s == NULL_WORD + s[4..];
    } else if FALSE_WORD <= s {
      x := FalseWord;
      assert s == FALSE_WORD + s[5..];
    } else {
      x := TrueWord;
      assert s == TRUE_WORD + s[4..];
    }
  }

  lemma RegroupBrackets(a: TextByte, b: Text, c: TextByte, t: Text)
    ensures [a] + (b + ([c] + t)) == [a] + (b + [c]) + t
  {
  }

  lemma {:induction false} ValueSpelled(s: Text) returns (x: Syntax)
    requires ParseValue(s).Ok? && !OpenLiteral(s)
    ensures LaxSyntax(x) && s == SyntaxText(x) + ParseValue(s).rest
    decreases |s|, 0
  {
    if NULL_WORD <= s || FALSE_WORD <= s || TRUE_WORD <= s {
      x := WordSpelled(s);
    } else if Head(s) == QUOTE {
      var ps := QuotedSpelled(s);
      x := Quoted(ps);
    } else if StartsNumber(s) {
      var n := NumeralSpelled(s);
      x := Syntax.Number(n);
    } else if Head(s) == OPEN_BRACKET {
      x := ArraySpelled(s);
    } else {
      x := ObjectSpelled(s);
    }
  }

  // What the parser leaves behind an array.
  lemma ArrayRest(s: Text)
    requires Head(s) == OPEN_BRACKET && ParseValue(s).Ok?
    ensures var v := Skip(s[1..]);
            if Head(v) == CLOSE_BRACKET then ParseValue(s).rest == v[1..]
            else ParseItems(s[1..]).Ok? && ParseValue(s).rest == ParseItems(s[1..]).rest
  {
    NoWord(s);
    ItemsBehindWhite(s[1..]);
  }

  lemma {:induction false} ArraySpelled(s: Text) returns (x: Syntax)
    requires Head(s) == OPEN_BRACKET && ParseValue(s).Ok?
    ensures LaxSyntax(x) && s == SyntaxText(x) + ParseValue(s).rest
    decreases |s|, -1
  {
    ArrayRest(s);
    HeadAndTail(s);
    var t := s[1..];
    var v := Skip(t);
    if Head(v) == CLOSE_BRACKET {
      var w := WhiteSplit(t);
      x := EmptyArray(w);
      HeadAndTail(v);
      RegroupBrackets(OPEN_BRACKET, w, CLOSE_BRACKET, v[1..]);
    } else {
      var es := ItemsSpelled(t);
      x := ArrayOf(es);
      RegroupBrackets(OPEN_BRACKET, EntriesText(es), CLOSE_BRACKET, ParseItems(t).rest);
    }
  }

  // What the parser leaves behind an object.
  lemma ObjectRest(s: Text)
    requires Head(s) == OPEN_BRACE && ParseValue(s).Ok?
    ensures var v := Skip(s[1..]);
            if Head(v) == CLOSE_BRACE then ParseValue(s).rest == v[1..]
            else ParseMembers(s[1..]).Ok? && ParseValue(s).rest == ParseMembers(s[1..]).rest
  {
    NoWord(s);
    MembersBehindWhite(s[1..]);
  }

  lemma {:induction false} ObjectSpelled(s: Text) returns (x: Syntax)
    requires Head(s) == OPEN_BRACE && ParseValue(s).Ok?
    ensures LaxSyntax(x) && s == SyntaxText(x) + ParseValue(s).rest
    decreases |s|, -1
  {
    ObjectRest(s);
    HeadAndTail(s);
    var t := s[1..];
    var v := Skip(t);
    if Head(v) == CLOSE_BRACE {
      var w := WhiteSplit(t);
      x := EmptyObject(w);
      HeadAndTail(v);
      RegroupBrackets(OPEN_BRACE, w, CLOSE_BRACE, v[1..]);
    } else {
      var ms := MembersSpelled(t);
      x := ObjectOf(ms);
      RegroupBrackets(OPEN_BRACE, PairsText(ms), CLOSE_BRACE, ParseMembers(t).rest);
    }
  }

  // What stands in front of a comma or a bracket is closed.
  lemma SomethingFollows(v: Text)
    requires ParseValue(v).Ok? && Skip(ParseValue(v).rest) != []
    ensures !OpenLiteral(v)
  {
    if OpenLiteral(v) {
      NoWord(v);
    }
  }

  lemma OneEntryMore(e: Entry, es: seq<Entry>, end: Text)
    requires White(e.before) && LaxSyntax(e.value) && White(e.behind) && LaxEntries(es)
    ensures LaxEntries([e] + es)
    ensures EntriesText([e] + es) + end
         == if es == [] then e.before + (SyntaxText(e.value) + (e.behind + end))
            else e.before + (SyntaxText(e.value) + (e.behind + ([COMMA] + (EntriesText(es) + end))))
  {
    assert ([e] + es)[1..] == es;
    if es == [] {
      RegroupLast(e.before, SyntaxText(e.value), e.behind, end);
    } else {
      RegroupMore(e.before, SyntaxText(e.value), e.behind, [COMMA], EntriesText(es), end);
    }
  }

  lemma {:induction false} ItemsSpelled(s: Text) returns (es: seq<Entry>)
    requires ParseItems(s).Ok?
    ensures es != [] && LaxEntries(es) && s == EntriesText(es) + ([CLOSE_BRACKET] + ParseItems(s).rest)
    decreases |s|, 1
  {
    var v := Skip(s);
    var after := ParseValue(v).rest;
    var r := Skip(after);
    var w := WhiteSplit(s);
    SomethingFollows(v);
    var x := ValueSpelled(v);
    var b := WhiteSplit(after);
    var rest: seq<Entry> := [];
    if Head(r) == COMMA {
      rest := ItemsSpelled(r[1..]);
    }
    HeadAndTail(r);
    es := [Entry(w, x, b)] + rest;
    OneEntryMore(Entry(w, x, b), rest, [CLOSE_BRACKET] + ParseItems(s).rest);
  }

  lemma OnePairMore(m: Pair, ms: seq<Pair>, end: Text)
    requires LaxPairs([m]) && LaxPairs(ms)
    ensures LaxPairs([m] + ms)
    ensures PairsText([m] + ms) + end
         == if ms == [] then m.before + (NamedText(m) + (m.behind + end))
            else m.before + (NamedText(m) + (m.behind + ([COMMA] + (PairsText(ms) + end))))
  {
    assert ([m] + ms)[1..] == ms;
    if ms == [] {
      RegroupLast(m.before, NamedText(m), m.behind, end);
    } else {
      RegroupMore(m.before, NamedText(m), m.behind, [COMMA], PairsText(ms), end);
    }
  }

  // A name, a colon and a value, between white space that is given.
  lemma {:induction false} MemberSpelled(s: Text, w: Text, b: Text) returns (m: Pair)
    requires ParseMember(s).Ok? && Skip(ParseMember(s).rest) != [] && White(w) && White(b)
    ensures LaxPairs([m]) && m.before == w && m.behind == b && s == NamedText(m) + ParseMember(s).rest
    decreases |s|, 1
  {
    var after := ParseString(s).rest;
    var c := Skip(after);
    var v := Skip(c[1..]);
    var ps := QuotedSpelled(s);
    var w1 := WhiteSplit(after);
    var w2 := WhiteSplit(c[1..]);
    SomethingFollows(v);
    var x := ValueSpelled(v);
    HeadAndTail(c);
    m := Pair(w, ps, w1, w2, x, b);
    RegroupPair(m, ParseValue(v).rest);
  }

  lemma {:induction false} MembersSpelled(s: Text) returns (ms: seq<Pair>)
    requires ParseMembers(s).Ok?
    ensures ms != [] && LaxPairs(ms) && s == PairsText(ms) + ([CLOSE_BRACE] + ParseMembers(s).rest)
    decreases |s|, 2
  {
    var v := Skip(s);
    var after := ParseMember(v).rest;
    var r := Skip(after);
    var w := WhiteSplit(s);
    var b := WhiteSplit(after);
    var m := MemberSpelled(v, w, b);
    var rest: seq<Pair> := [];
    if Head(r) == COMMA {
      rest := MembersSpelled(r[1..]);
    }
    HeadAndTail(r);
    ms := [m] + rest;
    OnePairMore(m, rest, [CLOSE_BRACE] + ParseMembers(s).rest);
  }

  // ----- The language -----

  ghost predicate Spelled(s: Text, before: Text, x: Syntax, behind: Text) {
    White(before) && LaxSyntax(x) && White(behind) && s == before + (SyntaxText(x) + behind)
  }

  ghost predicate LeftOpen(s: Text, before: Text, ps: seq<Piece>) {
    White(before) && LaxPieces(ps) && s == before + ([QUOTE] + PiecesText(ps))
  }

  // Accepted to the end is exactly a value of the lax grammar between white space,
  // and a string left open behind white space.
  lemma AcceptedExactly(s: Text)
    ensures ParseText(s, true).Ok?
        <==> (exists before, x, behind :: Spelled(s, before, x, behind)) || exists before, ps :: LeftOpen(s, before, ps)
  {
    if ParseText(s, true).Ok? {
      AcceptedIsSpelled(s);
    }
    forall before, x, behind | Spelled(s, before, x, behind) ensures ParseText(s, true).Ok? {
      LaxIsAccepted(before, x, behind);
    }
    forall before, ps | LeftOpen(s, before, ps) ensures ParseText(s, true).Ok? {
      OpenIsAccepted(before, ps);
    }
  }

  lemma AcceptedIsSpelled(s: Text)
    requires ParseText(s, true).Ok?
    ensures (exists before, x, behind :: Spelled(s, before, x, behind)) || exists before, ps :: LeftOpen(s, before, ps)
  {
    var v := Skip(s);
    var before := WhiteSplit(s);
    if OpenLiteral(v) {
      var ps := PiecesSpelled(v[1..]);
      HeadAndTail(v);
      assert PiecesText(ps) + [] == PiecesText(ps);
      assert LeftOpen(s, before, ps);
    } else {
      var x := ValueSpelled(v);
      var behind := WhiteSplit(ParseValue(v).rest);
      assert behind + [] == behind;
      assert Spelled(s, before, x, behind);
    }
  }

  // What is read from a string left open is what is read up to there.
  lemma OpenIsAccepted(before: Text, ps: seq<Piece>)
    requires White(before) && LaxPieces(ps)
    ensures ParseText(before + ([QUOTE] + PiecesText(ps)), true) == Ok(String(PiecesLeft(ps)), [])
  {
    var v := [QUOTE] + PiecesText(ps);
    SkipTo(before, v);
    NoWord(v);
    assert v[1..] == PiecesText(ps) == PiecesText(ps) + [];
    PiecesRead(ps, []);
    assert PiecesLeft(ps) + [] == PiecesLeft(ps);
  }
}

/** Every text of the grammar is read to its end, as the value the grammar gives
    it. */
module GrammarRead {
  import opened Bytes
  import opened Unicode
  import opened Numbers
  import opened StringLiteral
  import opened JsonValues
  import opened Parser
  import opened RoundTrip
  import opened Grammar
  import opened LaxGrammar

  // ----- Numbers -----

  lemma TenfoldProduct(x: real, p: real)
    ensures x * 10.0 * p == x * (10.0 * p)
    ensures x / 10.0 * p == x * (p / 10.0)
  {
    assert x / 10.0 * 10.0 * (p / 10.0) == x / 10.0 * (10.0 * (p / 10.0));
  }

  lemma {:induction false} ProductMoves(x: real, e: int)
    ensures x * PowerOfTen(e) == Moved(x, e)
    decreases if e < 0 then -e else e
  {
    if e == 0 {
    } else if e > 0 {
      ProductMoves(x * 10.0, e - 1);
      TenfoldProduct(x, PowerOfTen(e - 1));
    } else {
      ProductMoves(x / 10.0, e + 1);
      TenfoldProduct(x, PowerOfTen(e + 1));
    }
  }

  lemma SignedProduct(x: real, p: real)
    ensures 1.0 * x * p == x * p && -1.0 * x * p == -(x * p)
  {
  }

  lemma ComposeMoves(minus: bool, digits: int, e: int)
    ensures Compose(minus, digits, e) == Signed(minus, Moved(digits as real, e))
  {
    SignedProduct(digits as real, PowerOfTen(e));
    ProductMoves(digits as real, e);
  }

  lemma {:induction false} WholeFolds(s: Text)
    requires AllDigits(s)
    ensures FoldDigits(s, 0) == WholeValue(s)
  {
    if s == [] {
    } else {
      var k := |s| - 1;
      assert s == s[..k] + [s[k]];
      WholeFolds(s[..k]);
      FoldLast(s[..k], s[k], 0);
    }
  }

  // The digits behind the point join the mantissa and move the point down.
  lemma {:induction false} FractionFolds(s: Text, n: int, e: int)
    requires AllDigits(s)
    ensures Moved(FoldDigits(s, n) as real, e - |s|) == Moved(n as real + FractionValue(s), e)
  {
    if s == [] {
    } else {
      var m := n * 10 + (s[0] - ZERO);
      FractionFolds(s[1..], m, e - 1);
      assert n as real + FractionValue(s) == (m as real + FractionValue(s[1..])) / 10.0;
      MovedDown(m as real + FractionValue(s[1..]), e);
    }
  }

  lemma MovedDown(x: real, e: int)
    ensures Moved(x, e - 1) == Moved(x / 10.0, e)
  {
  }

  lemma ComposedValue(n: Numeral)
    requires LaxNumeral(n)
    ensures Compose(n.minus, FoldDigits(n.fraction, WholeValue(n.whole)), ExpValue(n.exp) - |n.fraction|)
         == NumeralValue(n)
  {
    ComposeMoves(n.minus, FoldDigits(n.fraction, WholeValue(n.whole)), ExpValue(n.exp) - |n.fraction|);
    FractionFolds(n.fraction, WholeValue(n.whole), ExpValue(n.exp));
  }

  lemma ExpShape(e: Exp, t: Text)
    requires e.Exp?
    ensures var u := ExpText(e) + t;
            && u != [] && u[0] == e.letter
            && if e.sign.NoSign? then u[1..] == e.part + t
               else Head(u[1..]) == SignText(e.sign)[0] && u[1..][1..] == e.part + t
  {
    assert ExpText(e) + t == [e.letter] + (SignText(e.sign) + (e.part + t));
  }

  // Nothing in `t` would be taken for more of a number, not even of one that ends
  // in the letter of its exponent.
  predicate Delimits(t: Text) {
    EndsNumber(t) && Head(t) != PLUS && Head(t) != MINUS
  }

  lemma ExpRead(e: Exp, t: Text)
    requires Delimits(t) && LaxExp(e)
    ensures Exponent(ExpText(e) + t) == Scanned(ExpValue(e), 0, t)
    ensures !IsDigit(Head(ExpText(e) + t)) && Head(ExpText(e) + t) != DOT
  {
    if e.NoExp? {
      assert ExpText(e) + t == t;
    } else {
      ExpShape(e, t);
      WholeFolds(e.part);
      FoldAppended(e.part, t, 0);
    }
  }

  lemma FractionRead(s: Text, n: int, v: Text)
    requires AllDigits(s) && !IsDigit(Head(v)) && Head(v) != DOT
    ensures var r := FractionText(s) + v;
            && !IsDigit(Head(r)) && (HasFraction(r) <==> s != [])
            && if s == [] then r == v
               else FoldDigits(r[1..], n) == FoldDigits(s, n) && AfterDigits(r[1..]) == v && |r| == 1 + |s| + |v|
  {
    var r := FractionText(s) + v;
    if s == [] {
      assert r == v;
    } else {
      assert r[1..] == s + v;
      FoldAppended(s, v, n);
    }
  }

  // The digits in front of the point, and what stands behind them.
  ghost predicate WholeIs(u: Text, n: int, r: Text) {
    if HasInteger(u) then FoldDigits(u, 0) == n && AfterDigits(u) == r else n == 0 && u == r
  }

  lemma DigitsFirst(s: Text, r: Text)
    requires AllDigits(s) && !IsDigit(Head(r)) && (s != [] ==> s[0] != ZERO)
    ensures WholeIs(s + r, FoldDigits(s, 0), r) && AfterZero(s + r) == s + r
  {
    if s == [] {
      assert s + r == r;
    } else {
      FoldAppended(s, r, 0);
    }
  }

  lemma ZeroFirst(d: Text, r: Text)
    requires AllDigits(d) && !IsDigit(Head(r)) && (d != [] ==> d[0] != ZERO)
    ensures WholeIs(AfterZero([ZERO] + d + r), FoldDigits([ZERO] + d, 0), r)
  {
    assert ([ZERO] + d + r)[1..] == d + r && ([ZERO] + d)[1..] == d;
    DigitsFirst(d, r);
  }

  lemma WholeRead(whole: Text, r: Text)
    requires AllDigits(whole) && (|whole| > 1 && whole[0] == ZERO ==> whole[1] != ZERO) && !IsDigit(Head(r))
    ensures WholeIs(AfterZero(whole + r), WholeValue(whole), r)
  {
    WholeFolds(whole);
    if whole != [] && whole[0] == ZERO {
      HeadAndTail(whole);
      ZeroFirst(whole[1..], r);
    } else {
      DigitsFirst(whole, r);
    }
  }

  lemma MantissaRead(whole: Text, s: Text, v: Text)
    requires AllDigits(whole) && (|whole| > 1 && whole[0] == ZERO ==> whole[1] != ZERO)
    requires AllDigits(s) && !IsDigit(Head(v)) && Head(v) != DOT
    ensures Mantissa(AfterZero(whole + (FractionText(s) + v)))
         == Scanned(FoldDigits(s, WholeValue(whole)), -|s|, v)
  {
    FractionRead(s, WholeValue(whole), v);
    WholeRead(whole, FractionText(s) + v);
    MantissaFrom(AfterZero(whole + (FractionText(s) + v)), WholeValue(whole), s, v);
  }

  lemma MantissaFrom(u: Text, n: int, s: Text, v: Text)
    requires var r := FractionText(s) + v;
             && WholeIs(u, n, r) && (HasFraction(r) <==> s != [])
             && if s == [] then r == v
                else FoldDigits(r[1..], n) == FoldDigits(s, n) && AfterDigits(r[1..]) == v && |r| == 1 + |s| + |v|
    ensures Mantissa(u) == Scanned(FoldDigits(s, n), -|s|, v)
  {
  }

  lemma NumeralShape(n: Numeral, t: Text)
    requires LaxNumeral(n)
    ensures var u, v := NumeralText(n) + t, ExpText(n.exp) + t;
            && AfterMinus(u) == n.whole + (FractionText(n.fraction) + v) && (Head(u) == MINUS <==> n.minus)
            && StartsNumber(u)
  {
    var u, v := NumeralText(n) + t, ExpText(n.exp) + t;
    RegroupNumber(n, t);
    assert n.whole != [] ==> n.whole[0] in n.whole;
    if n.minus {
      HeadAndTail(u);
    }
  }

  lemma RegroupNumber(n: Numeral, t: Text)
    ensures var digits := n.whole + (FractionText(n.fraction) + (ExpText(n.exp) + t));
            NumeralText(n) + t == if n.minus then [MINUS] + digits else digits
  {
    RegroupFour(n.whole, FractionText(n.fraction), ExpText(n.exp), t);
  }

  lemma NumeralRead(n: Numeral, t: Text)
    requires LaxNumeral(n) && Delimits(t)
    ensures var u := NumeralText(n) + t;
            StartsNumber(u) && NumberRest(u) == t && NumberValue(u) == NumeralValue(n)
  {
    NumeralShape(n, t);
    ExpRead(n.exp, t);
    MantissaRead(n.whole, n.fraction, ExpText(n.exp) + t);
    ComposedValue(n);
  }

  // ----- Strings -----

  lemma UnescapedRead(c: TextByte, u: Text)
    requires LaxPiece(Unescaped(c))
    ensures Decode(PieceText(Unescaped(c)) + u) == Prepend([c], Decode(u))
  {
    assert ([c] + u)[1..] == u;
  }

  lemma LetterRead(c: TextByte, u: Text)
    requires LaxPiece(Letter(c))
    ensures Decode(PieceText(Letter(c)) + u) == Prepend([LetterValue(c)], Decode(u))
  {
    assert ([BACKSLASH, c] + u)[2..] == u;
  }

  lemma PlainEscape(h: Text, u: Text)
    requires LaxPiece(Code(h))
    ensures var s := [BACKSLASH, LOWER_U] + h + u;
            |s| >= 6 && FourPlain(s[2..]) && Hex4(s[2..]) == Hex4(h) && s[6..] == u
  {
    var s := [BACKSLASH, LOWER_U] + h + u;
    assert s[2..] == h + u;
    assert s[6..] == u;
  }

  // No second escape stands behind the first one.
  predicate StandsAlone(h: Text, u: Text) {
    High(Hex4(h)) ==> Head(u) != BACKSLASH || At(u, 1) != LOWER_U
  }

  lemma CodeRead(h: Text, u: Text)
    requires LaxPiece(Code(h)) && StandsAlone(h, u)
    ensures Decode(PieceText(Code(h)) + u) == Prepend(if Scalar(Hex4(h)) then Utf8(Hex4(h)) else [], Decode(u))
  {
    var s := [BACKSLASH, LOWER_U] + h + u;
    PlainEscape(h, u);
    assert At(s, 6) == Head(u) && At(s, 7) == At(u, 1);
  }

  lemma PairShape(h: Text, second: Text)
    requires |h| == 4 && |second| >= 6
    ensures var s := [BACKSLASH, LOWER_U] + h + second;
            && s[6] == second[0] && s[7] == second[1]
            && s[6..] == second && s[8..] == second[2..] && s[12..] == second[6..]
  {
  }

  lemma PairYields(h: Text, k: Text, u: Text)
    requires LaxPiece(Code(h)) && LaxPiece(Code(k)) && High(Hex4(h))
    ensures UnicodeEscape([BACKSLASH, LOWER_U] + h + ([BACKSLASH, LOWER_U] + k + u))
         == Yield(if Low(Hex4(k)) then Utf8(PairValue(Hex4(h), Hex4(k))) else [], 12)
  {
    var second := [BACKSLASH, LOWER_U] + k + u;
    PlainEscape(h, second);
    PlainEscape(k, u);
    PairShape(h, second);
    if Low(Hex4(k)) {
      PairsCombine(Hex4(h), Hex4(k));
    }
  }

  lemma PairRead(h: Text, k: Text, u: Text)
    requires LaxPiece(Code(h)) && LaxPiece(Code(k)) && High(Hex4(h))
    ensures Decode(PieceText(Code(h)) + (PieceText(Code(k)) + u))
         == Prepend(if Low(Hex4(k)) then Utf8(PairValue(Hex4(h), Hex4(k))) else [], Decode(u))
  {
    PairYields(h, k, u);
    PairShape(h, [BACKSLASH, LOWER_U] + k + u);
    PlainEscape(k, u);
  }

  lemma PairsCombine(hi: nat, lo: nat)
    requires High(hi) && Low(lo)
    ensures Combine(hi, lo) == PairValue(hi, lo)
  {
    assert hi == 0xD800 + (hi - 0xD800) && 0xD800 % 0x400 == 0;
    assert lo == 0xDC00 + (lo - 0xDC00) && 0xDC00 % 0x400 == 0;
  }

  // Only another escape with a code looks like one.
  lemma NextStandsOff(h: Text, ps: seq<Piece>, end: Text)
    requires LaxPieces(ps) && Head(end) != BACKSLASH
    requires ps != [] && ps[0].Code? ==> !High(Hex4(h))
    ensures StandsAlone(h, PiecesText(ps) + end)
  {
    if ps == [] {
      assert PiecesText(ps) + end == end;
    } else if !ps[0].Code? {
      assert ps[0] in ps;
      Regroup(PieceText(ps[0]), PiecesText(ps[1..]), end);
    }
  }

  // In front of the closing quote, or of the end of the text.
  lemma {:induction false} PiecesRead(ps: seq<Piece>, end: Text)
    requires LaxPieces(ps) && Head(end) != BACKSLASH
    ensures Decode(PiecesText(ps) + end) == Prepend(PiecesLeft(ps), Decode(end))
    decreases |ps|
  {
    if ps == [] {
      assert PiecesText(ps) + end == end;
      PrependNothing(Decode(end));
    } else if TakesTwo(ps) {
      assert ps[0] in ps && ps[1] in ps;
      PiecesRead(ps[2..], end);
      TwoPiecesFirst(ps, end);
      PairRead(ps[0].h, ps[1].h, PiecesText(ps[2..]) + end);
      PrependTwice(if StartsPair(ps) then Utf8(PairValue(Hex4(ps[0].h), Hex4(ps[1].h))) else [],
                   PiecesLeft(ps[2..]), Decode(end));
    } else {
      assert ps[0] in ps;
      PiecesRead(ps[1..], end);
      Regroup(PieceText(ps[0]), PiecesText(ps[1..]), end);
      PieceRead(ps, end);
      PrependTwice(FirstValue(ps[0]), PiecesLeft(ps[1..]), Decode(end));
    }
  }

  lemma PrependNothing(d: Decoded)
    ensures Prepend([], d) == d
  {
    if d.Done? {
      assert [] + d.value == d.value;
    }
  }

  lemma PrependTwice(a: Text, b: Text, d: Decoded)
    ensures Prepend(a, Prepend(b, d)) == Prepend(a + b, d)
  {
    if d.Done? {
      assert a + (b + d.value) == a + b + d.value;
    }
  }

  lemma TwoPiecesFirst(ps: seq<Piece>, end: Text)
    requires |ps| > 1
    ensures PiecesText(ps) + end == PieceText(ps[0]) + (PieceText(ps[1]) + (PiecesText(ps[2..]) + end))
  {
    assert ps[1..][1..] == ps[2..];
    Regroup(PieceText(ps[0]), PiecesText(ps[1..]), end);
    Regroup(PieceText(ps[1]), PiecesText(ps[2..]), end);
  }

  lemma PieceRead(ps: seq<Piece>, end: Text)
    requires ps != [] && !TakesTwo(ps) && LaxPieces(ps) && Head(end) != BACKSLASH
    ensures var u := PiecesText(ps[1..]) + end;
            Decode(PieceText(ps[0]) + u) == Prepend(FirstValue(ps[0]), Decode(u))
  {
    var u := PiecesText(ps[1..]) + end;
    assert ps[0] in ps;
    match ps[0]
    case Unescaped(c) => UnescapedRead(c, u);
    case Letter(c) => LetterRead(c, u);
    case Code(h) =>
      NextStandsOff(h, ps[1..], end);
      CodeRead(h, u);
  }

  lemma QuotedRead(ps: seq<Piece>, t: Text)
    requires LaxPieces(ps)
    ensures Head(QuotedText(ps) + t) == QUOTE && ParseString(QuotedText(ps) + t) == Ok(PiecesLeft(ps), t)
  {
    var end := [QUOTE] + t;
    assert (QuotedText(ps) + t)[1..] == PiecesText(ps) + end;
    assert end[1..] == t && PiecesLeft(ps) + [] == PiecesLeft(ps);
    PiecesRead(ps, end);
  }

  // ----- White space -----

  // White space in front of a byte that is none.
  lemma SkipTo(w: Text, u: Text)
    requires White(w) && Head(u) > SPACE
    ensures Skip(w + u) == u
  {
    SkipWhite(w, u);
  }

  // No value starts like white space, and none like the end of its container.
  lemma ValueStarts(x: Syntax, t: Text)
    requires LaxSyntax(x)
    ensures var h := Head(SyntaxText(x) + t); h > SPACE && h != CLOSE_BRACKET && h != CLOSE_BRACE
  {
    if x.Number? {
      NumeralStarts(x.n, t);
    }
  }

  lemma NumeralStarts(n: Numeral, t: Text)
    requires LaxNumeral(n)
    ensures StartsNumber(NumeralText(n) + t)
  {
    NumeralShape(n, t);
  }

  // ----- Values -----

  // An item between white space, at the end of the array or in front of a comma.
  lemma LastItemRead(w: Text, v: Text, j: Json, b: Text, t: Text)
    requires White(w) && White(b) && Head(v) > SPACE
    requires ParseValue(v + (b + ([CLOSE_BRACKET] + t))) == Ok(j, b + ([CLOSE_BRACKET] + t))
    ensures ParseItems(w + (v + (b + ([CLOSE_BRACKET] + t)))) == Ok([j], t)
  {
    SkipTo(w, v + (b + ([CLOSE_BRACKET] + t)));
    SkipTo(b, [CLOSE_BRACKET] + t);
    assert ([CLOSE_BRACKET] + t)[1..] == t;
  }

  lemma ItemBeforeRead(w: Text, v: Text, j: Json, b: Text, rest: Text, js: seq<Json>, t: Text)
    requires White(w) && White(b) && Head(v) > SPACE && ParseItems(rest) == Ok(js, t)
    requires ParseValue(v + (b + ([COMMA] + rest))) == Ok(j, b + ([COMMA] + rest))
    ensures ParseItems(w + (v + (b + ([COMMA] + rest)))) == Ok([j] + js, t)
  {
    SkipTo(w, v + (b + ([COMMA] + rest)));
    SkipTo(b, [COMMA] + rest);
    assert ([COMMA] + rest)[1..] == rest;
  }

  lemma Surrounded(w: Text, v: Text, b: Text, c: TextByte, rest: Text)
    requires White(w) && White(b) && Head(v) > SPACE && c > SPACE
    ensures var body := v + (b + ([c] + rest));
            Skip(w + body) == Skip(body) == body && Skip(b + ([c] + rest)) == [c] + rest
  {
    SkipTo(w, v + (b + ([c] + rest)));
    SkipTo(b, [c] + rest);
  }

  // And a member likewise.
  lemma LastMemberRead(w: Text, v: Text, m: Member, b: Text, t: Text)
    requires White(w) && White(b) && Head(v) > SPACE
    requires ParseMember(v + (b + ([CLOSE_BRACE] + t))) == Ok(m, b + ([CLOSE_BRACE] + t))
    ensures ParseMembers(w + (v + (b + ([CLOSE_BRACE] + t)))) == Ok([m], t)
  {
    var body := v + (b + ([CLOSE_BRACE] + t));
    Surrounded(w, v, b, CLOSE_BRACE, t);
    LastMember(w + body, body, m, b + ([CLOSE_BRACE] + t), t);
  }

  lemma MemberBeforeRead(w: Text, v: Text, m: Member, b: Text, rest: Text, ms: seq<Member>, t: Text)
    requires White(w) && White(b) && Head(v) > SPACE && ParseMembers(rest) == Ok(ms, t)
    requires ParseMember(v + (b + ([COMMA] + rest))) == Ok(m, b + ([COMMA] + rest))
    ensures ParseMembers(w + (v + (b + ([COMMA] + rest)))) == Ok([m] + ms, t)
  {
    var body := v + (b + ([COMMA] + rest));
    Surrounded(w, v, b, COMMA, rest);
    MemberBeforeComma(w + body, body, m, b + ([COMMA] + rest), rest, ms, t);
  }

  lemma NamedRead(m: Pair, j: Json, t: Text)
    requires LaxPairs([m]) && ParseValue(SyntaxText(m.value) + t) == Ok(j, t)
    ensures ParseMember(NamedText(m) + t) == Ok(Member(PiecesLeft(m.name), j), t)
    ensures Head(NamedText(m) + t) == QUOTE
  {
    var value := SyntaxText(m.value) + t;
    var c := [COLON] + (m.beforeValue + value);
    RegroupPair(m, t);
    QuotedRead(m.name, m.behindName + c);
    SkipTo(m.behindName, c);
    assert c[1..] == m.beforeValue + value;
    ValueStarts(m.value, t);
    SkipTo(m.beforeValue, value);
  }

  lemma RegroupPair(m: Pair, t: Text)
    ensures NamedText(m) + t
         == QuotedText(m.name) + (m.behindName + ([COLON] + (m.beforeValue + (SyntaxText(m.value) + t))))
  {
  }

  lemma RegroupLast(a: Text, b: Text, c: Text, d: Text)
    ensures a + (b + (c + [])) + d == a + (b + (c + d))
  {
  }

  lemma RegroupMore(a: Text, b: Text, c: Text, d: Text, e: Text, f: Text)
    ensures a + (b + (c + (d + e))) + f == a + (b + (c + (d + (e + f))))
  {
  }

  // What stands in front of a comma or a bracket ends there, white space or not.
  lemma EndsHere(b: Text, c: TextByte, rest: Text)
    requires White(b) && (c == COMMA || c == CLOSE_BRACKET || c == CLOSE_BRACE)
    ensures Delimits(b + ([c] + rest))
  {
  }

  lemma WordRead(x: Syntax, t: Text)
    requires x.NullWord? || x.FalseWord? || x.TrueWord?
    ensures ParseValue(SyntaxText(x) + t) == Ok(SyntaxLeft(x), t)
  {
    var u := SyntaxText(x) + t;
    if x.NullWord? {
      assert u[4..] == t;
    } else if x.FalseWord? {
      assert u[0] == FALSE_WORD[0] != NULL_WORD[0] && u[5..] == t;
    } else {
      assert u[0] == TRUE_WORD[0] != NULL_WORD[0] && u[0] != FALSE_WORD[0] && u[4..] == t;
    }
  }

  lemma EmptyShape(open: TextByte, w: Text, close: TextByte, t: Text)
    requires White(w) && close > SPACE
    ensures var u := [open] + (w + [close]) + t;
            Head(u) == open && Skip(u[1..]) == [close] + t && ([close] + t)[1..] == t
  {
    assert ([open] + (w + [close]) + t)[1..] == w + ([close] + t);
    SkipTo(w, [close] + t);
  }

  lemma EmptyArrayRead(w: Text, t: Text)
    requires White(w)
    ensures ParseValue([OPEN_BRACKET] + (w + [CLOSE_BRACKET]) + t) == Ok(Array([]), t)
  {
    EmptyShape(OPEN_BRACKET, w, CLOSE_BRACKET, t);
    ArrayForm([OPEN_BRACKET] + (w + [CLOSE_BRACKET]) + t, [CLOSE_BRACKET] + t);
  }

  lemma EmptyObjectRead(w: Text, t: Text)
    requires White(w)
    ensures ParseValue([OPEN_BRACE] + (w + [CLOSE_BRACE]) + t) == Ok(Object([]), t)
  {
    EmptyShape(OPEN_BRACE, w, CLOSE_BRACE, t);
    ObjectForm([OPEN_BRACE] + (w + [CLOSE_BRACE]) + t, [CLOSE_BRACE] + t);
  }

  lemma {:induction false} ValueRead(x: Syntax, t: Text)
    requires LaxSyntax(x) && Delimits(t)
    ensures ParseValue(SyntaxText(x) + t) == Ok(SyntaxLeft(x), t)
    decreases x, 1
  {
    var u := SyntaxText(x) + t;
    match x
    case Number(n) =>
      NumeralRead(n, t);
      NoWord(u);
    case Quoted(ps) =>
      QuotedRead(ps, t);
      NoWord(u);
    case ArrayOf(items) =>
      EntriesRead(items, t);
      Bracketed(items, t);
    case ObjectOf(members) =>
      PairsRead(members, t);
      Braced(members, t);
    case EmptyArray(w) => EmptyArrayRead(w, t);
    case EmptyObject(w) => EmptyObjectRead(w, t);
    case _ => WordRead(x, t);
  }

  lemma LastEntryText(e: Entry, t: Text)
    requires LaxEntries([e])
    ensures EntriesText([e]) + ([CLOSE_BRACKET] + t)
         == e.before + (SyntaxText(e.value) + (e.behind + ([CLOSE_BRACKET] + t)))
    ensures EntriesLeft([e]) == [SyntaxLeft(e.value)]
  {
    RegroupLast(e.before, SyntaxText(e.value), e.behind, [CLOSE_BRACKET] + t);
  }

  lemma FirstEntryText(es: seq<Entry>, t: Text)
    requires |es| > 1
    ensures EntriesText(es) + ([CLOSE_BRACKET] + t)
         == es[0].before + (SyntaxText(es[0].value) + (es[0].behind +
              ([COMMA] + (EntriesText(es[1..]) + ([CLOSE_BRACKET] + t)))))
  {
    var e := es[0];
    RegroupMore(e.before, SyntaxText(e.value), e.behind, [COMMA], EntriesText(es[1..]), [CLOSE_BRACKET] + t);
  }

  // White space in front of the first item or member changes nothing.
  lemma ItemsBehindWhite(s: Text)
    ensures ParseItems(Skip(s)) == ParseItems(s)
  {
  }

  lemma MembersBehindWhite(s: Text)
    ensures ParseMembers(Skip(s)) == ParseMembers(s)
  {
  }

  lemma ValueBehindWhite(w: Text, x: Syntax, t: Text)
    requires White(w) && LaxSyntax(x)
    ensures Head(Skip(w + (SyntaxText(x) + t))) != CLOSE_BRACKET
  {
    ValueStarts(x, t);
    SkipTo(w, SyntaxText(x) + t);
  }

  // The array is not taken for an empty one.
  lemma EntriesStart(es: seq<Entry>, t: Text)
    requires es != [] && LaxEntries(es)
    ensures Head(Skip(EntriesText(es) + ([CLOSE_BRACKET] + t))) != CLOSE_BRACKET
  {
    var e, end := es[0], [CLOSE_BRACKET] + t;
    if |es| == 1 {
      assert es == [e];
      LastEntryText(e, t);
      ValueBehindWhite(e.before, e.value, e.behind + end);
    } else {
      FirstEntryText(es, t);
      ValueBehindWhite(e.before, e.value, e.behind + ([COMMA] + (EntriesText(es[1..]) + end)));
    }
  }

  lemma Bracketed(items: seq<Entry>, t: Text)
    requires items != [] && LaxEntries(items)
    requires ParseItems(EntriesText(items) + ([CLOSE_BRACKET] + t)) == Ok(EntriesLeft(items), t)
    ensures ParseValue([OPEN_BRACKET] + (EntriesText(items) + [CLOSE_BRACKET]) + t) == Ok(Array(EntriesLeft(items)), t)
  {
    var u := [OPEN_BRACKET] + (EntriesText(items) + [CLOSE_BRACKET]) + t;
    var body := EntriesText(items) + ([CLOSE_BRACKET] + t);
    assert u[1..] == body;
    EntriesStart(items, t);
    ItemsBehindWhite(body);
    ArrayForm(u, Skip(body));
  }

  lemma {:induction false} EntriesRead(es: seq<Entry>, t: Text)
    requires es != [] && LaxEntries(es)
    ensures ParseItems(EntriesText(es) + ([CLOSE_BRACKET] + t)) == Ok(EntriesLeft(es), t)
    decreases es, 0
  {
    var e, v, end := es[0], SyntaxText(es[0].value), [CLOSE_BRACKET] + t;
    ValueStarts(e.value, []);
    assert v + [] == v;
    if |es| == 1 {
      assert es == [e];
      LastEntryText(e, t);
      EndsHere(e.behind, CLOSE_BRACKET, t);
      ValueRead(e.value, e.behind + end);
      LastItemRead(e.before, v, SyntaxLeft(e.value), e.behind, t);
    } else {
      var rest := EntriesText(es[1..]) + end;
      FirstEntryText(es, t);
      EntriesRead(es[1..], t);
      EndsHere(e.behind, COMMA, rest);
      ValueRead(e.value, e.behind + ([COMMA] + rest));
      ItemBeforeRead(e.before, v, SyntaxLeft(e.value), e.behind, rest, EntriesLeft(es[1..]), t);
    }
  }

  lemma LastPairText(m: Pair, t: Text)
    requires LaxPairs([m])
    ensures PairsText([m]) + ([CLOSE_BRACE] + t)
         == m.before + (NamedText(m) + (m.behind + ([CLOSE_BRACE] + t)))
    ensures PairsLeft([m]) == [Member(PiecesLeft(m.name), SyntaxLeft(m.value))]
  {
    RegroupLast(m.before, NamedText(m), m.behind, [CLOSE_BRACE] + t);
  }

  lemma FirstPairText(ms: seq<Pair>, t: Text)
    requires |ms| > 1
    ensures PairsText(ms) + ([CLOSE_BRACE] + t)
         == ms[0].before + (NamedText(ms[0]) + (ms[0].behind + ([COMMA] + (PairsText(ms[1..]) + ([CLOSE_BRACE] + t)))))
  {
    RegroupMore(ms[0].before, NamedText(ms[0]), ms[0].behind, [COMMA], PairsText(ms[1..]), [CLOSE_BRACE] + t);
  }

  lemma NameBehindWhite(m: Pair, t: Text)
    requires White(m.before)
    ensures Head(Skip(m.before + (NamedText(m) + t))) == QUOTE
  {
    assert Head(NamedText(m) + t) == QUOTE;
    SkipTo(m.before, NamedText(m) + t);
  }

  lemma PairsStart(ms: seq<Pair>, t: Text)
    requires ms != [] && LaxPairs(ms)
    ensures Head(Skip(PairsText(ms) + ([CLOSE_BRACE] + t))) == QUOTE
  {
    var m, end := ms[0], [CLOSE_BRACE] + t;
    if |ms| == 1 {
      assert ms == [m];
      LastPairText(m, t);
      NameBehindWhite(m, m.behind + end);
    } else {
      FirstPairText(ms, t);
      NameBehindWhite(m, m.behind + ([COMMA] + (PairsText(ms[1..]) + end)));
    }
  }

  lemma Braced(members: seq<Pair>, t: Text)
    requires members != [] && LaxPairs(members)
    requires ParseMembers(PairsText(members) + ([CLOSE_BRACE] + t)) == Ok(PairsLeft(members), t)
    ensures ParseValue([OPEN_BRACE] + (PairsText(members) + [CLOSE_BRACE]) + t) == Ok(Object(PairsLeft(members)), t)
  {
    var u := [OPEN_BRACE] + (PairsText(members) + [CLOSE_BRACE]) + t;
    var body := PairsText(members) + ([CLOSE_BRACE] + t);
    assert u[1..] == body;
    PairsStart(members, t);
    MembersBehindWhite(body);
    ObjectForm(u, Skip(body));
  }

  lemma {:induction false} PairsRead(ms: seq<Pair>, t: Text)
    requires ms != [] && LaxPairs(ms)
    ensures ParseMembers(PairsText(ms) + ([CLOSE_BRACE] + t)) == Ok(PairsLeft(ms), t)
    decreases ms, 0
  {
    var m, v, end := ms[0], NamedText(ms[0]), [CLOSE_BRACE] + t;
    var j := Member(PiecesLeft(m.name), SyntaxLeft(m.value));
    if |ms| == 1 {
      assert ms == [m];
      LastPairText(m, t);
      EndsHere(m.behind, CLOSE_BRACE, t);
      ValueRead(m.value, m.behind + end);
      NamedRead(m, j.value, m.behind + end);
      LastMemberRead(m.before, v, j, m.behind, t);
    } else {
      var rest := PairsText(ms[1..]) + end;
      FirstPairText(ms, t);
      PairsRead(ms[1..], t);
      EndsHere(m.behind, COMMA, rest);
      ValueRead(m.value, m.behind + ([COMMA] + rest));
      NamedRead(m, j.value, m.behind + ([COMMA] + rest));
      MemberBeforeRead(m.before, v, j, m.behind, rest, PairsLeft(ms[1..]), t);
    }
  }

  // Every JSON text, between white space, is accepted to its end; and it is read
  // as the value it stands for, unless a character is lost in one of its strings.
  lemma GrammarIsAccepted(before: Text, x: Syntax, behind: Text)
    requires Ws(before) && IsSyntax(x) && Ws(behind)
    ensures ParseText(before + (SyntaxText(x) + behind), true) == Ok(SyntaxLeft(x), [])
    ensures SyntaxLeft(x) == SyntaxValue(x) <==> !SyntaxLoses(x)
  {
    SyntaxIsLax(x);
    LaxIsAccepted(before, x, behind);
    ReadUnlessLost(x);
  }

  lemma LaxIsAccepted(before: Text, x: Syntax, behind: Text)
    requires White(before) && LaxSyntax(x) && White(behind)
    ensures ParseText(before + (SyntaxText(x) + behind), true) == Ok(SyntaxLeft(x), [])
  {
    ValueStarts(x, behind);
    SkipTo(before, SyntaxText(x) + behind);
    ValueRead(x, behind);
    assert behind + [] == behind;
    SkipWhite(behind, []);
  }

  // The one character that is lost by itself: a C string cannot hold a zero.
  lemma ZeroIsLost()
    ensures var x := Quoted([Code([ZERO, ZERO, ZERO, ZERO])]);
            IsSyntax(x) && ParseText(SyntaxText(x), true) == Ok(String([]), [])
  {
    var ps := [Code([ZERO, ZERO, ZERO, ZERO])];
    var x := Quoted(ps);
    assert Hex4(ps[0].h) == 0 && ps[1..] == [];
    assert PiecesLeft(ps) == FirstValue(ps[0]) + PiecesLeft([]) == [];
    assert [] + (SyntaxText(x) + []) == SyntaxText(x);
    GrammarIsAccepted([], x, []);
  }

  // And one that is lost behind half a pair: the A of `\uD83D\u0041`.
  lemma LetterIsLost()
    ensures var ps := [Code([68, 56, 51, 68]), Code([ZERO, ZERO, 52, 49])];
            && IsSyntax(Quoted(ps)) && Loses(ps) && PiecesValue(ps) == [UPPER_A]
            && ParseText(SyntaxText(Quoted(ps)), true) == Ok(String([]), [])
  {
    var ps := [Code([68, 56, 51, 68]), Code([ZERO, ZERO, 52, 49])];
    var x := Quoted(ps);
    assert Hex4(ps[0].h) == 0xD83D && Hex4(ps[1].h) == 0x41;
    assert ps[2..] == [] && ps[1..][1..] == [];
    assert PiecesLeft([]) == [] == PiecesValue([]) && PiecesValue(ps[1..]) == FirstValue(ps[1]) + [] == [UPPER_A];
    assert [] + (SyntaxText(x) + []) == SyntaxText(x);
    GrammarIsAccepted([], x, []);
  }

  // So is a pair behind another half: all of `\uD83D\uD83D\uDE00`.
  lemma PairIsLost()
    ensures var h, k := Code([68, 56, 51, 68]), Code([68, 69, ZERO, ZERO]);
            PiecesLeft([h, h, k]) == [] && PiecesValue([h, h, k]) == Utf8(0x1F600)
  {
    var h, k := Code([68, 56, 51, 68]), Code([68, 69, ZERO, ZERO]);
    assert Hex4(h.h) == 0xD83D && Hex4(k.h) == 0xDE00;
    assert [h, h, k][1..] == [h, k] && [h, h, k][2..] == [k] && [h, k][2..] == [] && [k][1..] == [];
    assert PiecesValue([h, k]) == Utf8(0x1F600) + PiecesValue([]) == Utf8(0x1F600);
    assert PiecesLeft([k]) == FirstValue(k) + PiecesLeft([]) == [];
  }
}

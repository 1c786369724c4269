/** What minifying does to a text the parser accepts: the same value is read
    from what is left, provided its literal is closed. */
module MinifyParsed {
  import opened Bytes
  import opened Numbers
  import opened StringLiteral
  import opened JsonValues
  import opened Parser
  import opened Minifier
  import opened MinifyPrinted

  // ----- Numbers: exchanging what stands behind one -----

  predicate NumberByte(c: Byte) {
    IsDigit(c) || c == DOT || c == LOWER_E || c == UPPER_E || c == PLUS || c == MINUS
  }

  // `s` with its last `k` bytes exchanged for `m`.
  function Swap(s: Text, k: nat, m: Text): Text
    requires k <= |s|
  {
    s[..|s| - k] + m
  }

  lemma SwapSteps(s: Text, k: nat, m: Text)
    requires k <= |s|
    ensures k == |s| ==> Swap(s, k, m) == m
    ensures k < |s| ==> Head(Swap(s, k, m)) == s[0] && Swap(s, k, m)[1..] == Swap(s[1..], k, m)
  {
  }

  lemma {:induction false} DigitsSwap(s: Text, k: nat, m: Text, n: int)
    requires k <= |AfterDigits(s)| && !IsDigit(Head(m))
    ensures AfterDigits(Swap(s, k, m)) == Swap(AfterDigits(s), k, m)
    ensures FoldDigits(Swap(s, k, m), n) == FoldDigits(s, n)
  {
    SwapSteps(s, k, m);
    if !IsDigit(Head(s)) {
    } else {
      DigitsSwap(s[1..], k, m, n * 10 + (s[0] - ZERO));
    }
  }

  lemma SignAndZeroSwap(s: Text, k: nat, m: Text)
    requires k <= |AfterZero(AfterMinus(s))| && !NumberByte(Head(m))
    ensures AfterZero(AfterMinus(Swap(s, k, m))) == Swap(AfterZero(AfterMinus(s)), k, m)
    ensures k < |s| ==> Head(Swap(s, k, m)) == Head(s)
  {
    SwapSteps(s, k, m);
    SwapSteps(AfterMinus(s), k, m);
  }

  lemma FractionSwap(r: Text, k: nat, m: Text, n: int)
    requires !NumberByte(Head(m))
    requires k <= (if HasFraction(r) then |AfterDigits(r[1..])| else |r|)
    ensures HasFraction(Swap(r, k, m)) == HasFraction(r)
    ensures HasFraction(r) ==>
              AfterDigits(Swap(r, k, m)[1..]) == Swap(AfterDigits(r[1..]), k, m)
              && FoldDigits(Swap(r, k, m)[1..], n) == FoldDigits(r[1..], n)
  {
    SwapSteps(r, k, m);
    if k < |r| {
      SwapSteps(r[1..], k, m);
      if HasFraction(r) {
        DigitsSwap(r[1..], k, m, n);
      }
    }
  }

  lemma MantissaSwap(s: Text, k: nat, m: Text)
    requires k <= |Mantissa(s).rest| && !NumberByte(Head(m))
    ensures Mantissa(Swap(s, k, m)) == Scanned(Mantissa(s).digits, Mantissa(s).scale, Swap(Mantissa(s).rest, k, m))
  {
    SwapSteps(s, k, m);
    var n := if HasInteger(s) then FoldDigits(s, 0) else 0;
    var r := if HasInteger(s) then AfterDigits(s) else s;
    if HasInteger(s) {
      DigitsSwap(s, k, m, 0);
    }
    FractionSwap(r, k, m, n);
  }

  lemma ExponentSwap(s: Text, k: nat, m: Text)
    requires k <= |Exponent(s).rest| && !NumberByte(Head(m))
    ensures Exponent(Swap(s, k, m)) == Scanned(Exponent(s).digits, 0, Swap(Exponent(s).rest, k, m))
  {
    SwapSteps(s, k, m);
    if HasExponent(s) {
      var r := s[1..];
      SwapSteps(r, k, m);
      if Head(r) == PLUS || Head(r) == MINUS {
        DigitsSwap(r[1..], k, m, 0);
      } else {
        DigitsSwap(r, k, m, 0);
      }
    }
  }

  lemma NumberFromParts(s: Text, m: Scanned, e: Scanned)
    requires Mantissa(AfterZero(AfterMinus(s))) == m && Exponent(m.rest) == e
    ensures NumberRest(s) == e.rest
    ensures NumberValue(s) == Compose(Head(s) == MINUS, m.digits, m.scale + e.digits)
  {
  }

  lemma PartsSwap(s: Text, k: nat, m: Text, b: Scanned, e: Scanned)
    requires b == Mantissa(AfterZero(AfterMinus(s))) && e == Exponent(b.rest)
    requires k == |e.rest| && !NumberByte(Head(m))
    ensures k <= |s| && k <= |b.rest|
    ensures Mantissa(AfterZero(AfterMinus(Swap(s, k, m)))) == Scanned(b.digits, b.scale, Swap(b.rest, k, m))
    ensures Exponent(Swap(b.rest, k, m)) == Scanned(e.digits, 0, m)
  {
    var a := AfterZero(AfterMinus(s));
    SignAndZeroSwap(s, k, m);
    MantissaSwap(a, k, m);
    ExponentSwap(b.rest, k, m);
    SwapSteps(e.rest, k, m);
  }

  lemma NumberSwap(s: Text, m: Text)
    requires StartsNumber(s) && !NumberByte(Head(m))
    ensures var u := Swap(s, |NumberRest(s)|, m);
            StartsNumber(u) && NumberRest(u) == m && NumberValue(u) == NumberValue(s)
  {
    var b := Mantissa(AfterZero(AfterMinus(s)));
    var e := Exponent(b.rest);
    var u := Swap(s, |e.rest|, m);
    PartsSwap(s, |e.rest|, m, b, e);
    NumberProgress(s);
    SwapSteps(s, |e.rest|, m);
    NumberFromParts(s, b, e);
    NumberFromParts(u, Scanned(b.digits, b.scale, Swap(b.rest, |e.rest|, m)), Scanned(e.digits, 0, m));
  }

  // `r` is `s` after a run of bytes that can stand in a number.
  predicate NumberRun(r: Text, s: Text) {
    r == s || (s != [] && NumberByte(s[0]) && NumberRun(r, s[1..]))
  }

  lemma {:induction false} NumberRunTransitive(a: Text, b: Text, c: Text)
    requires NumberRun(a, b) && NumberRun(b, c)
    ensures NumberRun(a, c)
  {
    if b == c {
    } else {
      NumberRunTransitive(a, b, c[1..]);
    }
  }

  lemma {:induction false} DigitsRun(s: Text)
    ensures NumberRun(AfterDigits(s), s)
  {
    if !IsDigit(Head(s)) {
    } else {
      DigitsRun(s[1..]);
    }
  }

  lemma MantissaRun(s: Text)
    ensures NumberRun(Mantissa(s).rest, s)
  {
    DigitsRun(s);
    var r := if HasInteger(s) then AfterDigits(s) else s;
    if HasFraction(r) {
      DigitsRun(r[1..]);
      NumberRunTransitive(AfterDigits(r[1..]), r, s);
    }
  }

  lemma ExponentRun(s: Text)
    ensures NumberRun(Exponent(s).rest, s)
  {
    if HasExponent(s) {
      DigitsRun(s[1..]);
      if Head(s[1..]) == PLUS || Head(s[1..]) == MINUS {
        DigitsRun(s[1..][1..]);
      }
    }
  }

  lemma WholeNumberRun(s: Text)
    ensures NumberRun(NumberRest(s), s)
  {
    var a := AfterZero(AfterMinus(s));
    assert NumberRun(a, AfterMinus(s)) && NumberRun(AfterMinus(s), s);
    MantissaRun(a);
    ExponentRun(Mantissa(a).rest);
    NumberRunTransitive(NumberRest(s), Mantissa(a).rest, a);
    NumberRunTransitive(NumberRest(s), a, AfterMinus(s));
    NumberRunTransitive(NumberRest(s), AfterMinus(s), s);
  }

  lemma {:induction false} RunIsKept(r: Text, s: Text)
    requires NumberRun(r, s)
    ensures |r| <= |s| && Minify(s) == Keep(s[..|s| - |r|], Minify(r))
  {
    if r == s {
      KeepNothing(Minify(r));
    } else {
      RunIsKept(r, s[1..]);
      KeepTwiceIsOnce([s[0]], s[1..][..|s| - 1 - |r|], Minify(r));
      assert [s[0]] + s[1..][..|s| - 1 - |r|] == s[..|s| - |r|];
    }
  }

  // ----- White space -----

  // Minifying and stepping over white space can be done in either order, as
  // long as no comment opens behind the white space.
  lemma {:induction false} MinifySkip(s: Text)
    requires Head(Skip(s)) != SLASH
    ensures Minify(s).Left? == Minify(Skip(s)).Left?
    ensures Minify(s).Left? ==> Skip(Minify(s).text) == Minify(Skip(s)).text
    ensures Minify(s).Left? ==> Head(Minify(s).text) <= SPACE || Head(Minify(s).text) == Head(Skip(s))
  {
    if s != [] && s[0] <= SPACE {
      MinifySkip(s[1..]);
      if !IsBlank(s[0]) {
        ControlByte(s);
      }
    } else if s != [] && Minify(s).Left? {
      MinifyHead(s);
      assert Skip(Minify(s).text) == Minify(s).text;
    }
  }

  lemma ControlByte(s: Text)
    requires s != [] && s[0] <= SPACE && !IsBlank(s[0])
    ensures Together(Minify(s), Minify(s[1..]))
    ensures Minify(s).Left? ==> Head(Minify(s).text) == s[0] && Skip(Minify(s).text) == Skip(Minify(s[1..]).text)
  {
    if Minify(s).Left? {
      assert Minify(s).text[1..] == Minify(s[1..]).text;
    }
  }

  lemma MinifyHead(s: Text)
    requires s != [] && s[0] > SPACE && s[0] != SLASH && Minify(s).Left?
    ensures Minify(s).text != [] && Minify(s).text[0] == s[0]
  {
  }

  // ----- Values -----

  // What may stand behind a value that belongs to an accepted text.
  predicate Delimits(s: Text) {
    Head(s) == 0 || Head(s) == COMMA || Head(s) == CLOSE_BRACKET || Head(s) == CLOSE_BRACE
  }

  // False exactly on a string value whose closing quote is missing.
  predicate ClosedLiteral(s: Text) {
    Head(s) == QUOTE ==> SpanOf(s[1..]).Closed?
  }

  // `m` is what minifying made of `s`, and likewise `q` of `r`.
  predicate Together(m: Minified, q: Minified) {
    m.Left? <==> q.Left?
  }

  lemma StringMinified(s: Text)
    requires ParseString(s).Ok?
    ensures !ClosedLiteral(s) ==> Minify(s).Overrun? && ParseString(s).rest == []
    ensures ClosedLiteral(s) ==> Together(Minify(s), Minify(ParseString(s).rest))
    ensures ClosedLiteral(s) && Minify(s).Left? ==>
              Head(Minify(s).text) == QUOTE
              && ParseString(Minify(s).text) == Ok(ParseString(s).value, Minify(ParseString(s).rest).text)
  {
    DecodeStopsAtQuote(s[1..]);
    if SpanOf(s[1..]).Closed? {
      var n := SpanOf(s[1..]).n;
      DropTwice(s, 1, n + 1);
      assert Minify(s) == Keep(s[..n + 2], Minify(s[n + 2..]));
      if Minify(s).Left? {
        ClosedLiteralParses(s, n, Minify(s[n + 2..]).text);
      }
    }
  }

  lemma ClosedLiteralParses(s: Text, n: nat, m: Text)
    requires ParseString(s).Ok? && SpanOf(s[1..]) == Closed(n)
    ensures n + 2 <= |s| && Head(s[..n + 2] + m) == QUOTE
    ensures ParseString(s[..n + 2] + m) == Ok(ParseString(s).value, m)
  {
    DecodeIsLocal(s[1..], n, m);
    CutBehind(s, n + 2, 1, m);
  }

  lemma WordMinified(s: Text, word: Text, j: Json)
    requires (word == NULL_WORD && j == Null) || (word == FALSE_WORD && j == False) || (word == TRUE_WORD && j == True)
    requires word <= s
    ensures Minify(s) == Keep(word, Minify(s[|word|..]))
    ensures ParseValue(s) == Ok(j, s[|word|..])
    ensures Minify(s).Left? ==> ParseValue(Minify(s).text) == Ok(j, Minify(s[|word|..]).text)
  {
    assert s == word + s[|word|..];
    PlainIsKept(word, s[|word|..]);
    WordParses(s, word, j);
    if Minify(s).Left? {
      WordParses(Minify(s).text, word, j);
      assert Minify(s).text[|word|..] == Minify(s[|word|..]).text;
    }
  }

  lemma WordParses(s: Text, word: Text, j: Json)
    requires (word == NULL_WORD && j == Null) || (word == FALSE_WORD && j == False) || (word == TRUE_WORD && j == True)
    requires word <= s
    ensures ParseValue(s) == Ok(j, s[|word|..])
  {
    assert s[0] == word[0];
    assert NULL_WORD[0] == 110 && FALSE_WORD[0] == 102 && TRUE_WORD[0] == 116;
  }

  lemma NumberMinified(s: Text)
    requires StartsNumber(s) && Delimits(Skip(NumberRest(s)))
    ensures Together(Minify(s), Minify(NumberRest(s)))
    ensures Minify(s).Left? ==> ParseValue(Minify(s).text) == Ok(Number(NumberValue(s)), Minify(NumberRest(s)).text)
  {
    var r := NumberRest(s);
    WholeNumberRun(s);
    RunIsKept(r, s);
    MinifySkip(r);
    if Minify(s).Left? {
      NumberSwap(s, Minify(r).text);
      NumberParses(Swap(s, |r|, Minify(r).text));
    }
  }

  lemma NumberParses(s: Text)
    requires StartsNumber(s)
    ensures ParseValue(s) == Ok(Number(NumberValue(s)), NumberRest(s))
  {
    NoWord(s);
  }

  lemma {:induction false} ValueMinified(s: Text)
    requires ParseValue(s).Ok? && Delimits(Skip(ParseValue(s).rest))
    ensures !ClosedLiteral(s) ==> Minify(s).Overrun? && ParseValue(s).rest == []
    ensures ClosedLiteral(s) ==> Together(Minify(s), Minify(ParseValue(s).rest))
    ensures ClosedLiteral(s) && Minify(s).Left? ==>
              ParseValue(Minify(s).text) == Ok(ParseValue(s).value, Minify(ParseValue(s).rest).text)
    decreases |s|, 1
  {
    if NULL_WORD <= s {
      WordMinified(s, NULL_WORD, Null);
    } else if FALSE_WORD <= s {
      WordMinified(s, FALSE_WORD, False);
    } else if TRUE_WORD <= s {
      WordMinified(s, TRUE_WORD, True);
    } else if Head(s) == QUOTE {
      StringMinified(s);
      if ClosedLiteral(s) && Minify(s).Left? {
        NoWord(Minify(s).text);
      }
    } else if StartsNumber(s) {
      NumberMinified(s);
    } else if Head(s) == OPEN_BRACKET {
      ArrayMinified(s);
    } else {
      ObjectMinified(s);
    }
  }

  // A structural byte is kept, and stepping over what follows it commutes.
  lemma AfterPunctuation(s: Text, v: Text)
    requires s != [] && v == Skip(s[1..]) && Head(v) != SLASH
    requires s[0] == COMMA || s[0] == COLON || s[0] == OPEN_BRACKET || s[0] == CLOSE_BRACKET
          || s[0] == OPEN_BRACE || s[0] == CLOSE_BRACE
    ensures Together(Minify(s), Minify(s[1..])) && Together(Minify(s), Minify(v))
    ensures Minify(s).Left? ==>
              Minify(s).text == [s[0]] + Minify(s[1..]).text
              && Minify(s).text[1..] == Minify(s[1..]).text
              && Skip(Minify(s[1..]).text) == Minify(v).text
  {
    MinifySkip(s[1..]);
  }

  lemma ClosingByte(s: Text)
    requires Head(s) == CLOSE_BRACKET || Head(s) == CLOSE_BRACE
    ensures Together(Minify(s), Minify(s[1..]))
    ensures Minify(s).Left? ==> Head(Minify(s).text) == s[0] && Minify(s).text[1..] == Minify(s[1..]).text
  {
  }

  lemma ArrayMinified(s: Text)
    requires Head(s) == OPEN_BRACKET && ParseValue(s).Ok?
    ensures Together(Minify(s), Minify(ParseValue(s).rest))
    ensures Minify(s).Left? ==> ParseValue(Minify(s).text) == Ok(ParseValue(s).value, Minify(ParseValue(s).rest).text)
    decreases |s|, 0
  {
    var v := Skip(s[1..]);
    NoWord(s);
    ArrayForm(s, v);
    AfterPunctuation(s, v);
    if Head(v) == CLOSE_BRACKET {
      ClosingByte(v);
    } else {
      ItemsMinified(v);
    }
    if Minify(s).Left? {
      MinifyHead(v);
      ArrayForm(Minify(s).text, Minify(v).text);
    }
  }

  lemma ObjectMinified(s: Text)
    requires Head(s) == OPEN_BRACE && ParseValue(s).Ok?
    ensures Together(Minify(s), Minify(ParseValue(s).rest))
    ensures Minify(s).Left? ==> ParseValue(Minify(s).text) == Ok(ParseValue(s).value, Minify(ParseValue(s).rest).text)
    decreases |s|, 0
  {
    var v := Skip(s[1..]);
    NoWord(s);
    ObjectForm(s, v);
    AfterPunctuation(s, v);
    if Head(v) == CLOSE_BRACE {
      ClosingByte(v);
    } else {
      MembersMinified(v);
    }
    if Minify(s).Left? {
      MinifyHead(v);
      ObjectForm(Minify(s).text, Minify(v).text);
    }
  }

  // A value and the white space on both sides of it.
  lemma PaddedValueMinified(s: Text)
    requires var p := ParseValue(Skip(s)); p.Ok? && Delimits(Skip(p.rest)) && Skip(p.rest) != []
    ensures var p := ParseValue(Skip(s));
            && Together(Minify(s), Minify(Skip(p.rest)))
            && (Minify(s).Left? ==>
                  Minify(p.rest).Left?
                  && ParseValue(Skip(Minify(s).text)) == Ok(p.value, Minify(p.rest).text)
                  && Skip(Minify(p.rest).text) == Minify(Skip(p.rest)).text)
    decreases |s|, 2
  {
    MinifySkip(s);
    ValueMinified(Skip(s));
    MinifySkip(ParseValue(Skip(s)).rest);
  }

  lemma {:induction false} ItemsMinified(s: Text)
    requires ParseItems(s).Ok?
    ensures Head(Skip(s)) != SLASH && Together(Minify(s), Minify(ParseItems(s).rest))
    ensures Minify(s).Left? ==> ParseItems(Minify(s).text) == Ok(ParseItems(s).value, Minify(ParseItems(s).rest).text)
    decreases |s|, 3
  {
    var r := Skip(ParseValue(Skip(s)).rest);
    PaddedValueMinified(s);
    if Head(r) == COMMA {
      ItemsMinified(r[1..]);
      AfterPunctuation(r, Skip(r[1..]));
    } else {
      ClosingByte(r);
    }
  }

  // A name, its colon and its value, up to what stands behind the value.
  lemma MemberMinified(s: Text)
    requires var p := ParseMember(Skip(s)); p.Ok? && Delimits(Skip(p.rest)) && Skip(p.rest) != []
    ensures var p := ParseMember(Skip(s));
            && Together(Minify(s), Minify(Skip(p.rest)))
            && (Minify(s).Left? ==>
                  Minify(p.rest).Left?
                  && ParseMember(Skip(Minify(s).text)) == Ok(p.value, Minify(p.rest).text)
                  && Skip(Minify(p.rest).text) == Minify(Skip(p.rest)).text)
    decreases |s|, 4
  {
    var v := Skip(s);
    var after := ParseString(v).rest;
    var c := Skip(after);
    MinifySkip(s);
    StringMinified(v);
    MinifySkip(after);
    assert |c| < |s| && ParseMember(v).rest == ParseValue(Skip(c[1..])).rest;
    PaddedValueMinified(c[1..]);
    ColonMinified(c);
  }

  lemma ColonMinified(c: Text)
    requires Head(c) == COLON
    ensures Together(Minify(c), Minify(c[1..]))
    ensures Minify(c).Left? ==> Head(Minify(c).text) == COLON && Minify(c).text[1..] == Minify(c[1..]).text
  {
  }

  lemma {:induction false} MembersMinified(s: Text)
    requires ParseMembers(s).Ok?
    ensures Head(Skip(s)) != SLASH && Together(Minify(s), Minify(ParseMembers(s).rest))
    ensures Minify(s).Left? ==>
              ParseMembers(Minify(s).text) == Ok(ParseMembers(s).value, Minify(ParseMembers(s).rest).text)
    decreases |s|, 5
  {
    var r := Skip(ParseMember(Skip(s)).rest);
    MemberMinified(s);
    if Head(r) == COMMA {
      MembersMinified(r[1..]);
      AfterPunctuation(r, Skip(r[1..]));
    } else {
      ClosingByte(r);
    }
  }

  // ----- The law -----

  // On a text the parser accepts to its end, `cJSON_Minify` stays inside the
  // buffer exactly when the text is not a string with its quote left open, and
  // then the same value is read from what it leaves.
  lemma MinifyPreservesMeaning(s: Text)
    requires ParseText(s, true).Ok?
    ensures Minify(s).Left? <==> ClosedLiteral(Skip(s))
    ensures Minify(s).Left? ==> ParseText(Minify(s).text, true) == ParseText(s, true)
  {
    var r := ParseValue(Skip(s)).rest;
    MinifySkip(s);
    ValueMinified(Skip(s));
    MinifySkip(r);
  }

  // A string without its closing quote is accepted, and overruns.
  lemma OpenLiteralOverruns()
    ensures ParseText([QUOTE, LOWER_A], true) == Ok(String([LOWER_A]), [])
    ensures Minify([QUOTE, LOWER_A]).Overrun?
  {
    var s: Text := [QUOTE, LOWER_A];
    assert s[1..] == [LOWER_A] && s[1..][1..] == [];
    assert Decode(s[1..][1..]) == Done([], [], false);
    assert Decode(s[1..]) == Done([LOWER_A], [], false);
    NoWord(s);
    assert SpanOf(s[1..][1..]) == Open;
  }
}

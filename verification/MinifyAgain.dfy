/** When a second `cJSON_Minify` changes nothing. */
module MinifyAgain {
  import opened Bytes
  import opened Numbers
  import opened StringLiteral
  import opened Parser
  import opened Minifier
  import opened MinifyParsed

  // Nothing left to remove: no blank and no comment outside literals, and
  // every literal closed.
  predicate Compact(t: Text)
    decreases |t|
  {
    t == [] ||
    (&& !IsBlank(t[0]) && !LineComment(t) && !BlockComment(t)
     && if t[0] == QUOTE
        then SpanOf(t[1..]).Closed? && Compact(t[SpanOf(t[1..]).n + 2..])
        else Compact(t[1..]))
  }

  lemma {:induction false} MinifyShrinks(t: Text)
    requires Minify(t).Left?
    ensures |Minify(t).text| <= |t|
    ensures |Minify(t).text| == |t| ==> Compact(t)
    decreases |t|
  {
    if t == [] {
    } else {
      var n := if t[0] == QUOTE then SpanOf(t[1..]).n + 2 else 1;
      var r := if LineComment(t) then DropLine(t) else if BlockComment(t) then DropBlock(t).text else t[n..];
      MinifyShrinks(r);
    }
  }

  lemma {:induction false} CompactIsFixed(t: Text)
    requires Compact(t)
    ensures Minify(t) == Left(t)
    decreases |t|
  {
    if t == [] {
    } else {
      var n := if t[0] == QUOTE then SpanOf(t[1..]).n + 2 else 1;
      CompactIsFixed(t[n..]);
      assert t[..n] + t[n..] == t;
    }
  }

  // A text is left as it is exactly when it is compact.
  lemma FixedMeansCompact(t: Text)
    ensures Minify(t) == Left(t) <==> Compact(t)
  {
    if Compact(t) {
      CompactIsFixed(t);
    } else if Minify(t) == Left(t) {
      MinifyShrinks(t);
    }
  }

  // The first byte behind blanks and comments, zero where there is none.
  function FirstKept(s: Text): nat
    decreases |s|
  {
    if s == [] then 0
    else if IsBlank(s[0]) then FirstKept(s[1..])
    else if LineComment(s) then FirstKept(DropLine(s))
    else if BlockComment(s) then
      match DropBlock(s)
      case Left(r) => FirstKept(r)
      case Overrun => 0
    else s[0]
  }

  // That byte leads what is left of the text.
  lemma {:induction false} FirstKeptLeads(s: Text)
    requires Minify(s).Left?
    ensures Head(Minify(s).text) == FirstKept(s)
    decreases |s|
  {
    if s == [] {
    } else if IsBlank(s[0]) {
      FirstKeptLeads(s[1..]);
    } else if LineComment(s) {
      FirstKeptLeads(DropLine(s));
    } else if BlockComment(s) {
      FirstKeptLeads(DropBlock(s).text);
    }
  }

  // Somewhere outside comments and literals a slash stands in front of blanks
  // and comments, and behind them a slash or a star: the two come together and
  // open a comment that was not there.
  predicate Joins(s: Text)
    decreases |s|
  {
    if s == [] then false
    else if IsBlank(s[0]) then Joins(s[1..])
    else if LineComment(s) then Joins(DropLine(s))
    else if BlockComment(s) then DropBlock(s).Left? && Joins(DropBlock(s).text)
    else if s[0] == QUOTE then SpanOf(s[1..]).Closed? && Joins(s[SpanOf(s[1..]).n + 2..])
    else (s[0] == SLASH && (FirstKept(s[1..]) == SLASH || FirstKept(s[1..]) == STAR)) || Joins(s[1..])
  }

  lemma {:induction false} SpanIsLocal(s: Text, n: nat, t: Text)
    requires SpanOf(s) == Closed(n)
    ensures SpanOf(s[..n + 1] + t) == Closed(n)
    decreases |s|
  {
    var u := s[..n + 1] + t;
    if s[0] == QUOTE {
    } else {
      var k := if s[0] == BACKSLASH then 2 else 1;
      CutBehind(s, n + 1, k, t);
      SpanIsLocal(s[k..], n - k, t);
    }
  }

  lemma LiteralStaysClosed(s: Text, m: Text)
    requires Head(s) == QUOTE && SpanOf(s[1..]).Closed?
    ensures var q := s[..SpanOf(s[1..]).n + 2] + m;
            Head(q) == QUOTE && SpanOf(q[1..]) == SpanOf(s[1..]) && q[SpanOf(s[1..]).n + 2..] == m
  {
    var n := SpanOf(s[1..]).n;
    CutBehind(s, n + 2, 1, m);
    SpanIsLocal(s[1..], n, m);
  }

  lemma {:induction false} CompactUnlessJoined(s: Text)
    requires Minify(s).Left?
    ensures Compact(Minify(s).text) <==> !Joins(s)
    decreases |s|
  {
    if s == [] {
    } else if IsBlank(s[0]) {
      CompactUnlessJoined(s[1..]);
    } else if LineComment(s) {
      CompactUnlessJoined(DropLine(s));
    } else if BlockComment(s) {
      CompactUnlessJoined(DropBlock(s).text);
    } else if s[0] == QUOTE {
      var n := SpanOf(s[1..]).n;
      CompactUnlessJoined(s[n + 2..]);
      LiteralStaysClosed(s, Minify(s[n + 2..]).text);
    } else {
      CompactUnlessJoined(s[1..]);
      FirstKeptLeads(s[1..]);
      assert Minify(s).text[1..] == Minify(s[1..]).text;
    }
  }

  // The exact condition under which minifying twice is minifying once.
  lemma MinifyTwice(s: Text)
    requires Minify(s).Left?
    ensures Minify(Minify(s).text) == Minify(s) <==> !Joins(s)
  {
    CompactUnlessJoined(s);
    FixedMeansCompact(Minify(s).text);
  }

  // "/ /x" loses its blank and becomes a comment, which goes the second time.
  lemma SecondMinifyCanRemoveMore()
    ensures Minify([SLASH, SPACE, SLASH, LOWER_A]) == Left([SLASH, SLASH, LOWER_A])
    ensures Minify([SLASH, SLASH, LOWER_A]) == Left([])
  {
    var s: Text := [SLASH, SPACE, SLASH, LOWER_A];
    assert s[1..] == [SPACE, SLASH, LOWER_A];
    assert s[1..][1..] == [SLASH, LOWER_A];
    assert s[1..][1..][1..] == [LOWER_A];
    assert s[1..][1..][1..][1..] == [];
    assert Minify([LOWER_A]) == Left([LOWER_A]) by { var a: Text := [LOWER_A]; assert a[1..] == []; }
    assert Minify([SLASH, LOWER_A]) == Left([SLASH, LOWER_A]);
    assert Minify(s[1..]) == Minify(s[1..][1..]);
    var t: Text := [SLASH, SLASH, LOWER_A];
    assert t[1..][1..] == [LOWER_A] && t[1..][1..][1..] == [];
    assert DropLine([LOWER_A]) == [];
    assert DropLine(t[1..]) == DropLine(t[1..][1..]) == [];
    assert DropLine(t) == [];
  }

  // ----- Accepted texts -----

  // No slash stands outside a literal.
  predicate SlashFree(s: Text)
    decreases |s|
  {
    s == [] ||
    (if s[0] == QUOTE
     then SpanOf(s[1..]).Closed? ==> SlashFree(s[SpanOf(s[1..]).n + 2..])
     else s[0] != SLASH && SlashFree(s[1..]))
  }

  lemma {:induction false} SlashFreeNeverJoins(s: Text)
    requires SlashFree(s) && Minify(s).Left?
    ensures !Joins(s)
    decreases |s|
  {
    if s == [] {
    } else {
      SlashFreeNeverJoins(s[if s[0] == QUOTE then SpanOf(s[1..]).n + 2 else 1..]);
    }
  }

  // `r` is `s` after whole literals and bytes that are neither quotes nor slashes.
  predicate Eaten(r: Text, s: Text)
    decreases |s|
  {
    r == s ||
    (s != [] &&
     if s[0] == QUOTE then Decode(s[1..]).Done? && Eaten(r, Decode(s[1..]).rest)
     else s[0] != SLASH && Eaten(r, s[1..]))
  }

  lemma {:induction false} EatenTransitive(a: Text, b: Text, c: Text)
    requires Eaten(a, b) && Eaten(b, c)
    ensures Eaten(a, c)
    decreases |c|
  {
    if b == c {
    } else {
      EatenTransitive(a, b, if c[0] == QUOTE then Decode(c[1..]).rest else c[1..]);
    }
  }

  lemma {:induction false} EatenLeavesSlashes(r: Text, s: Text)
    requires Eaten(r, s)
    ensures SlashFree(r) ==> SlashFree(s)
    decreases |s|
  {
    if r == s {
    } else {
      if s[0] == QUOTE {
        DecodeStopsAtQuote(s[1..]);
        EatenLeavesSlashes(r, Decode(s[1..]).rest);
        if SpanOf(s[1..]).Closed? {
          DropTwice(s, 1, SpanOf(s[1..]).n + 1);
        }
      } else {
        EatenLeavesSlashes(r, s[1..]);
      }
    }
  }

  lemma {:induction false} RunIsEaten(r: Text, s: Text)
    requires NumberRun(r, s)
    ensures Eaten(r, s)
  {
    if r == s {
    } else {
      RunIsEaten(r, s[1..]);
    }
  }

  lemma {:induction false} SkipEats(s: Text)
    ensures Eaten(Skip(s), s)
  {
    if s == [] || s[0] > SPACE {
    } else {
      SkipEats(s[1..]);
    }
  }

  lemma WordEats(s: Text, word: Text)
    requires word <= s && (word == NULL_WORD || word == FALSE_WORD || word == TRUE_WORD)
    ensures Eaten(s[|word|..], s)
  {
    PlainEats(s, |word|);
  }

  lemma {:induction false} PlainEats(s: Text, k: nat)
    requires k <= |s| && forall i | 0 <= i < k :: s[i] != QUOTE && s[i] != SLASH
    ensures Eaten(s[k..], s)
  {
    if k > 0 {
      PlainEats(s[1..], k - 1);
      assert s[1..][k - 1..] == s[k..];
    } else {
      assert s[0..] == s;
    }
  }

  // From `s` over a token to `after`, white space, and one more byte.
  lemma EatOn(after: Text, s: Text)
    requires Eaten(after, s)
    ensures Eaten(Skip(after), s)
    ensures Skip(after) != [] && Skip(after)[0] != QUOTE && Skip(after)[0] != SLASH ==> Eaten(Skip(after)[1..], s)
  {
    SkipEats(after);
    EatenTransitive(Skip(after), after, s);
    if Skip(after) != [] && Skip(after)[0] != QUOTE && Skip(after)[0] != SLASH {
      EatenTransitive(Skip(after)[1..], Skip(after), s);
    }
  }

  lemma {:induction false} ValueEats(s: Text)
    requires ParseValue(s).Ok?
    ensures Eaten(ParseValue(s).rest, s)
    decreases |s|, 0
  {
    if NULL_WORD <= s {
      WordEats(s, NULL_WORD);
    } else if FALSE_WORD <= s {
      WordEats(s, FALSE_WORD);
    } else if TRUE_WORD <= s {
      WordEats(s, TRUE_WORD);
    } else if Head(s) == QUOTE {
    } else if StartsNumber(s) {
      WholeNumberRun(s);
      RunIsEaten(NumberRest(s), s);
    } else {
      var v := Skip(s[1..]);
      EatOn(s[1..], s);
      if Head(s) == OPEN_BRACKET && Head(v) != CLOSE_BRACKET {
        ItemsEat(v);
        EatenTransitive(ParseItems(v).rest, v, s);
      } else if Head(s) == OPEN_BRACE && Head(v) != CLOSE_BRACE {
        MembersEat(v);
        EatenTransitive(ParseMembers(v).rest, v, s);
      }
    }
  }

  lemma {:induction false} ItemsEat(s: Text)
    requires ParseItems(s).Ok?
    ensures Eaten(ParseItems(s).rest, s)
    decreases |s|, 1
  {
    var after := ParseValue(Skip(s)).rest;
    SkipEats(s);
    ValueEats(Skip(s));
    EatenTransitive(after, Skip(s), s);
    EatOn(after, s);
    var r := Skip(after);
    if Head(r) == COMMA {
      ItemsEat(r[1..]);
      EatenTransitive(ParseItems(r[1..]).rest, r[1..], s);
    }
  }

  lemma {:induction false} MemberEats(s: Text)
    requires ParseMember(s).Ok?
    ensures Eaten(ParseMember(s).rest, s)
    decreases |s|, 1
  {
    var c := Skip(ParseString(s).rest);
    EatOn(ParseString(s).rest, s);
    EatOn(c[1..], s);
    var v := Skip(c[1..]);
    ValueEats(v);
    EatenTransitive(ParseValue(v).rest, v, s);
  }

  lemma {:induction false} MembersEat(s: Text)
    requires ParseMembers(s).Ok?
    ensures Eaten(ParseMembers(s).rest, s)
    decreases |s|, 2
  {
    var after := ParseMember(Skip(s)).rest;
    SkipEats(s);
    MemberEats(Skip(s));
    EatenTransitive(after, Skip(s), s);
    EatOn(after, s);
    var r := Skip(after);
    if Head(r) == COMMA {
      MembersEat(r[1..]);
      EatenTransitive(ParseMembers(r[1..]).rest, r[1..], s);
    }
  }

  // What `cJSON_Minify` leaves of an accepted text is left alone the next time.
  lemma AcceptedMinifiesOnce(s: Text)
    requires ParseText(s, true).Ok? && Minify(s).Left?
    ensures Minify(Minify(s).text) == Minify(s)
  {
    var v := Skip(s);
    var r := ParseValue(v).rest;
    SkipEats(s);
    ValueEats(v);
    EatenTransitive(r, v, s);
    EatOn(r, s);
    EatenLeavesSlashes([], s);
    SlashFreeNeverJoins(s);
    MinifyTwice(s);
  }
}

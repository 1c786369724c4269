/** The pointers the parser hands back, on success and on failure, point into
    the text it was given. */
module Progress {
  import opened Bytes
  import opened Numbers
  import opened StringLiteral
  import opened Parser

  // `r` is `s` after some bytes were stepped over.
  predicate Within(r: Text, s: Text) {
    r == s || (s != [] && Within(r, s[1..]))
  }

  lemma {:induction false} WithinIsDrop(r: Text, s: Text)
    ensures Within(r, s) <==> |r| <= |s| && r == s[|s| - |r|..]
  {
    if s == [] {
    } else {
      WithinIsDrop(r, s[1..]);
      if |r| < |s| {
        assert s[1..][|s| - 1 - |r|..] == s[|s| - |r|..];
      } else if |r| == |s| {
        assert s[0..] == s;
      }
    }
  }

  lemma {:induction false} WithinTransitive(a: Text, b: Text, c: Text)
    requires Within(a, b) && Within(b, c)
    ensures Within(a, c)
  {
    if b == c {
    } else {
      WithinTransitive(a, b, c[1..]);
    }
  }

  lemma {:induction false} DropWithin(s: Text, k: nat)
    requires k <= |s|
    ensures Within(s[k..], s)
  {
    if k == 0 {
      assert s[0..] == s;
    } else {
      DropWithin(s[1..], k - 1);
      assert s[1..][k - 1..] == s[k..];
    }
  }

  lemma {:induction false} SkipWithin(s: Text)
    ensures Within(Skip(s), s)
  {
    if s == [] || s[0] > SPACE {
    } else {
      SkipWithin(s[1..]);
    }
  }

  lemma {:induction false} DigitsWithin(s: Text)
    ensures Within(AfterDigits(s), s)
  {
    if !IsDigit(Head(s)) {
    } else {
      DigitsWithin(s[1..]);
    }
  }

  lemma MantissaWithin(s: Text)
    ensures Within(Mantissa(s).rest, s)
  {
    DigitsWithin(s);
    var r := if HasInteger(s) then AfterDigits(s) else s;
    if HasFraction(r) {
      DigitsWithin(r[1..]);
      WithinTransitive(AfterDigits(r[1..]), r, s);
    }
  }

  lemma ExponentWithin(s: Text)
    ensures Within(Exponent(s).rest, s)
  {
    if HasExponent(s) {
      DigitsWithin(s[1..]);
      if Head(s[1..]) == PLUS || Head(s[1..]) == MINUS {
        DigitsWithin(s[1..][1..]);
      }
    }
  }

  lemma NumberWithin(s: Text)
    ensures Within(NumberRest(s), s)
  {
    var a := AfterZero(AfterMinus(s));
    assert Within(a, AfterMinus(s)) && Within(AfterMinus(s), s);
    MantissaWithin(a);
    ExponentWithin(Mantissa(a).rest);
    WithinTransitive(NumberRest(s), Mantissa(a).rest, a);
    WithinTransitive(NumberRest(s), a, AfterMinus(s));
    WithinTransitive(NumberRest(s), AfterMinus(s), s);
  }

  lemma {:induction false} DecodeWithin(s: Text)
    ensures Decode(s).Done? ==> Within(Decode(s).rest, s)
    decreases |s|
  {
    if s != [] && s[0] != QUOTE && (s[0] == BACKSLASH ==> EscapeAt(s).Yield?) {
      var k := if s[0] == BACKSLASH then EscapeAt(s).used else 1;
      DecodeWithin(s[k..]);
      DropWithin(s, k);
      if Decode(s).Done? {
        WithinTransitive(Decode(s).rest, s[k..], s);
      }
    }
  }

  // Where a call leaves the pointer, if it leaves one.
  predicate PointsInto<T>(p: Parsed<T>, s: Text) {
    && (p.Ok? ==> Within(p.rest, s))
    && (p.Fail? ==> Within(p.at, s))
  }

  lemma LaterPointsInto<T>(p: Parsed<T>, r: Text, s: Text)
    requires PointsInto(p, r) && Within(r, s)
    ensures PointsInto(p, s)
  {
    if p.Ok? {
      WithinTransitive(p.rest, r, s);
    } else if p.Fail? {
      WithinTransitive(p.at, r, s);
    }
  }

  // What follows a value or member: `c` behind white space, and the byte after.
  lemma Behind(after: Text, s: Text)
    requires Within(after, s)
    ensures Within(Skip(after), s)
    ensures Skip(after) != [] ==> Within(Skip(after)[1..], s)
  {
    SkipWithin(after);
    WithinTransitive(Skip(after), after, s);
    if Skip(after) != [] {
      WithinTransitive(Skip(after)[1..], Skip(after), s);
    }
  }

  lemma StringPointsInto(s: Text)
    ensures PointsInto(ParseString(s), s)
  {
    if Head(s) == QUOTE {
      DecodeWithin(s[1..]);
    }
  }

  lemma {:induction false} ValuePointsInto(s: Text)
    ensures PointsInto(ParseValue(s), s)
    decreases |s|, 0
  {
    if NULL_WORD <= s || TRUE_WORD <= s {
      DropWithin(s, 4);
    } else if FALSE_WORD <= s {
      DropWithin(s, 5);
    } else if Head(s) == QUOTE {
      StringPointsInto(s);
    } else if StartsNumber(s) {
      NumberWithin(s);
    } else if s != [] {
      var v := Skip(s[1..]);
      Behind(s[1..], s);
      ItemsPointInto(v);
      LaterPointsInto(ParseItems(v), v, s);
      MembersPointInto(v);
      LaterPointsInto(ParseMembers(v), v, s);
    }
  }

  lemma {:induction false} ItemsPointInto(s: Text)
    ensures PointsInto(ParseItems(s), s)
    decreases |s|, 1
  {
    SkipWithin(s);
    ValuePointsInto(Skip(s));
    var p := ParseValue(Skip(s));
    LaterPointsInto(p, Skip(s), s);
    if p.Ok? {
      Behind(p.rest, s);
      var r := Skip(p.rest);
      if Head(r) == COMMA {
        ItemsPointInto(r[1..]);
        LaterPointsInto(ParseItems(r[1..]), r[1..], s);
      }
    }
  }

  lemma {:induction false} MemberPointsInto(s: Text)
    ensures PointsInto(ParseMember(s), s)
    decreases |s|, 1
  {
    StringPointsInto(s);
    var p := ParseString(s);
    if p.Ok? {
      Behind(p.rest, s);
      var c := Skip(p.rest);
      if Head(c) == COLON {
        Behind(c[1..], s);
        var v := Skip(c[1..]);
        ValuePointsInto(v);
        LaterPointsInto(ParseValue(v), v, s);
      }
    }
  }

  lemma {:induction false} MembersPointInto(s: Text)
    ensures PointsInto(ParseMembers(s), s)
    decreases |s|, 2
  {
    SkipWithin(s);
    MemberPointsInto(Skip(s));
    var p := ParseMember(Skip(s));
    LaterPointsInto(p, Skip(s), s);
    if p.Ok? {
      Behind(p.rest, s);
      var r := Skip(p.rest);
      if Head(r) == COMMA {
        MembersPointInto(r[1..]);
        LaterPointsInto(ParseMembers(r[1..]), r[1..], s);
      }
    }
  }

  // On every text with complete escapes the parser either accepts, having
  // consumed at least a byte, or fails at a position of the text.
  lemma ParserStaysInText(s: Text, toEnd: bool)
    requires CompleteEscapes(s)
    ensures match ParseText(s, toEnd)
            case Ok(_, rest) => |rest| < |s| && rest == s[|s| - |rest|..]
            case Fail(at) => |at| <= |s| && at == s[|s| - |at|..]
            case Incomplete => false
  {
    CompleteTextsAreDecided(s, toEnd);
    SkipWithin(s);
    ValuePointsInto(Skip(s));
    var p := ParseValue(Skip(s));
    LaterPointsInto(p, Skip(s), s);
    if p.Ok? {
      Behind(p.rest, s);
      WithinIsDrop(p.rest, s);
      WithinIsDrop(Skip(p.rest), s);
    } else if p.Fail? {
      WithinIsDrop(p.at, s);
    }
  }
}

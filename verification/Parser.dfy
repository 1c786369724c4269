/** The recursive-descent parser, as functions on the text that is left.

    A result is a value and the pointer behind it, a failure at a pointer, or
    `Incomplete`: an escape sequence that the text (or its literal) cuts short,
    where the C code steps over bytes it has not looked at. */
module Parser {
  import opened Bytes
  import opened Numbers
  import opened StringLiteral
  import opened JsonValues

  datatype Parsed<+T> = Ok(value: T, rest: Text) | Fail(at: Text) | Incomplete {
    predicate IsFailure() {
      !Ok?
    }

    function PropagateFailure<U>(): Parsed<U>
      requires !Ok?
    {
      match this
      case Fail(at) => Fail(at)
      case Incomplete => Incomplete
    }

    function Extract(): (T, Text)
      requires Ok?
    {
      (value, rest)
    }
  }

  // Success moves the pointer on.
  predicate Advances<T>(p: Parsed<T>, s: Text) {
    p.Ok? ==> |p.rest| < |s|
  }

  // `parse_string`, on the opening quote or on whatever stands in its place.
  function ParseString(s: Text): (p: Parsed<Text>)
    ensures Advances(p, s)
  {
    if Head(s) != QUOTE then Fail(s)
    else
      match Decode(s[1..])
      case Done(v, r, _) => Ok(v, r)
      case CutShort => Incomplete
  }

  // `parse_value`.
  function ParseValue(s: Text): (p: Parsed<Json>)
    ensures Advances(p, s)
    decreases |s|, 0
  {
    if NULL_WORD <= s then Ok(Null, s[4..])
    else if FALSE_WORD <= s then Ok(False, s[5..])
    else if TRUE_WORD <= s then Ok(True, s[4..])
    else if Head(s) == QUOTE then
      var (v, r) :- ParseString(s);
      Ok(String(v), r)
    else if StartsNumber(s) then
      NumberProgress(s);
      Ok(Number(NumberValue(s)), NumberRest(s))
    else if Head(s) == OPEN_BRACKET then
      var v := Skip(s[1..]);
      if Head(v) == CLOSE_BRACKET then Ok(Array([]), v[1..])
      else
        var (items, r) :- ParseItems(v);
        Ok(Array(items), r)
    else if Head(s) == OPEN_BRACE then
      var v := Skip(s[1..]);
      if Head(v) == CLOSE_BRACE then Ok(Object([]), v[1..])
      else
        var (members, r) :- ParseMembers(v);
        Ok(Object(members), r)
    else Fail(s)
  }

  lemma NoWord(s: Text)
    requires Head(s) != 110 && Head(s) != 102 && Head(s) != 116
    ensures !(NULL_WORD <= s) && !(FALSE_WORD <= s) && !(TRUE_WORD <= s)
  {
    assert NULL_WORD[0] == 110 && FALSE_WORD[0] == 102 && TRUE_WORD[0] == 116;
  }

  // How a bracketed value is read, once what stands behind the bracket is known.
  lemma ArrayForm(s: Text, v: Text)
    requires Head(s) == OPEN_BRACKET && v == Skip(s[1..])
    ensures Head(v) == CLOSE_BRACKET ==> ParseValue(s) == Ok(Array([]), v[1..])
    ensures Head(v) != CLOSE_BRACKET && ParseItems(v).Ok? ==>
              ParseValue(s) == Ok(Array(ParseItems(v).value), ParseItems(v).rest)
  {
    NoWord(s);
  }

  lemma ObjectForm(s: Text, v: Text)
    requires Head(s) == OPEN_BRACE && v == Skip(s[1..])
    ensures Head(v) == CLOSE_BRACE ==> ParseValue(s) == Ok(Object([]), v[1..])
    ensures Head(v) != CLOSE_BRACE && ParseMembers(v).Ok? ==>
              ParseValue(s) == Ok(Object(ParseMembers(v).value), ParseMembers(v).rest)
  {
    NoWord(s);
  }

  // The rest of `parse_array`, from an item that must be there to the `]`.
  function ParseItems(s: Text): (p: Parsed<seq<Json>>)
    ensures Advances(p, s)
    decreases |s|, 1
  {
    var (j, after) :- ParseValue(Skip(s));
    var r := Skip(after);
    if Head(r) == COMMA then
      var (js, q) :- ParseItems(r[1..]);
      Ok([j] + js, q)
    else if Head(r) == CLOSE_BRACKET then Ok([j], r[1..])
    else Fail(r)
  }

  // One `name : value`; the name goes through `parse_string`.
  function ParseMember(s: Text): (p: Parsed<Member>)
    ensures Advances(p, s)
    decreases |s|, 1
  {
    var (name, after) :- ParseString(s);
    var c := Skip(after);
    if Head(c) != COLON then Fail(c)
    else
      var (j, r) :- ParseValue(Skip(c[1..]));
      Ok(Member(name, j), r)
  }

  // The rest of `parse_object`, from a member that must be there to the `}`.
  function ParseMembers(s: Text): (p: Parsed<seq<Member>>)
    ensures Advances(p, s)
    decreases |s|, 2
  {
    var (m, after) :- ParseMember(Skip(s));
    var r := Skip(after);
    if Head(r) == COMMA then
      var (ms, q) :- ParseMembers(r[1..]);
      Ok([m] + ms, q)
    else if Head(r) == CLOSE_BRACE then Ok([m], r[1..])
    else Fail(r)
  }

  // `cJSON_ParseWithOpts`; with `toEnd` nothing but white space may follow.
  function ParseText(s: Text, toEnd: bool): (p: Parsed<Json>)
    ensures Advances(p, s) && (p.Ok? && toEnd ==> p.rest == [])
  {
    var (j, r) :- ParseValue(Skip(s));
    if !toEnd then Ok(j, r)
    else if Skip(r) != [] then Fail(Skip(r))
    else Ok(j, [])
  }

  // ----- Which texts have only complete escapes -----

  // One left-to-right scan: inside a literal every backslash is followed by a
  // byte, and every `\u` by four bytes of the same literal.
  predicate CompleteFrom(s: Text, inside: bool)
    decreases |s|
  {
    if s == [] then true
    else if !inside then CompleteFrom(s[1..], s[0] == QUOTE)
    else if s[0] != BACKSLASH then CompleteFrom(s[1..], s[0] != QUOTE)
    else |s| >= 2 && (s[1] == LOWER_U ==> FourPlain(s[2..])) && CompleteFrom(s[2..], true)
  }

  predicate CompleteEscapes(s: Text) {
    CompleteFrom(s, false)
  }

  lemma InsidePlainRun(s: Text, k: nat)
    requires k <= |s| && forall i | 0 <= i < k :: s[i] != QUOTE && s[i] != BACKSLASH
    ensures CompleteFrom(s, true) == CompleteFrom(s[k..], true)
  {
    if k > 0 {
      InsidePlainRun(s[1..], k - 1);
      assert s[1..][k - 1..] == s[k..];
    } else {
      assert s[0..] == s;
    }
  }

  lemma OutsideRun(s: Text, k: nat)
    requires k <= |s| && forall i | 0 <= i < k :: s[i] != QUOTE
    ensures CompleteFrom(s, false) == CompleteFrom(s[k..], false)
  {
    if k > 0 {
      OutsideRun(s[1..], k - 1);
      assert s[1..][k - 1..] == s[k..];
    } else {
      assert s[0..] == s;
    }
  }

  lemma CutIsIncomplete(s: Text)
    requires Head(s) == BACKSLASH && EscapeAt(s).Cut?
    ensures !CompleteFrom(s, true)
  {
    if |s| >= 2 && FourPlain(s[2..]) {
      InsidePlainRun(s[2..], 4);
      assert s[2..][4..] == s[6..];
      assert s[6..][2..] == s[8..];
    }
  }

  lemma YieldKeepsCompleteness(s: Text)
    requires Head(s) == BACKSLASH && EscapeAt(s).Yield?
    ensures CompleteFrom(s, true) == CompleteFrom(s[EscapeAt(s).used..], true)
  {
    var used := EscapeAt(s).used;
    if used >= 6 {
      InsidePlainRun(s[2..], 4);
      assert s[2..][4..] == s[6..];
      if used == 12 {
        assert s[6] == BACKSLASH;
        assert s[6..][2..] == s[8..];
        InsidePlainRun(s[8..], 4);
        assert s[8..][4..] == s[12..];
      }
    }
  }

  // A literal can be read exactly when its own escapes are complete.
  lemma {:induction false} LiteralCompleteness(s: Text)
    ensures CompleteFrom(s, true) <==> Decode(s).Done? && CompleteFrom(Decode(s).rest, false)
    decreases |s|
  {
    if s == [] || s[0] == QUOTE {
    } else {
      if s[0] != BACKSLASH {
        LiteralCompleteness(s[1..]);
      } else if EscapeAt(s).Cut? {
        CutIsIncomplete(s);
      } else {
        YieldKeepsCompleteness(s);
        LiteralCompleteness(s[EscapeAt(s).used..]);
      }
    }
  }

  lemma {:induction false} SkipKeepsCompleteness(s: Text)
    ensures CompleteEscapes(s) == CompleteEscapes(Skip(s))
  {
    if s == [] || s[0] > SPACE {
    } else {
      SkipKeepsCompleteness(s[1..]);
    }
  }

  lemma {:induction false} DigitsKeepCompleteness(s: Text)
    ensures CompleteEscapes(s) == CompleteEscapes(AfterDigits(s))
  {
    if !IsDigit(Head(s)) {
    } else {
      DigitsKeepCompleteness(s[1..]);
    }
  }

  lemma ExponentKeepsCompleteness(s: Text)
    ensures CompleteEscapes(s) == CompleteEscapes(Exponent(s).rest)
  {
    if HasExponent(s) {
      var r := s[1..];
      DigitsKeepCompleteness(r);
      if Head(r) == PLUS || Head(r) == MINUS {
        assert CompleteEscapes(r) == CompleteEscapes(r[1..]);
        DigitsKeepCompleteness(r[1..]);
      }
    }
  }

  lemma MantissaKeepsCompleteness(s: Text)
    ensures CompleteEscapes(s) == CompleteEscapes(Mantissa(s).rest)
  {
    DigitsKeepCompleteness(s);
    var r := if HasInteger(s) then AfterDigits(s) else s;
    if HasFraction(r) {
      assert CompleteEscapes(r) == CompleteEscapes(r[1..]);
      DigitsKeepCompleteness(r[1..]);
    }
  }

  lemma NumberKeepsCompleteness(s: Text)
    ensures CompleteEscapes(s) == CompleteEscapes(NumberRest(s))
  {
    var a := AfterMinus(s);
    assert CompleteEscapes(s) == CompleteEscapes(a);
    assert CompleteEscapes(a) == CompleteEscapes(AfterZero(a));
    MantissaKeepsCompleteness(AfterZero(a));
    ExponentKeepsCompleteness(Mantissa(AfterZero(a)).rest);
  }

  lemma {:induction false} ValueCompleteness(s: Text)
    ensures ParseValue(s).Ok? ==> CompleteEscapes(s) == CompleteEscapes(ParseValue(s).rest)
    ensures ParseValue(s).Incomplete? ==> !CompleteEscapes(s)
    decreases |s|, 0
  {
    if NULL_WORD <= s {
      OutsideRun(s, 4);
    } else if FALSE_WORD <= s {
      OutsideRun(s, 5);
    } else if TRUE_WORD <= s {
      OutsideRun(s, 4);
    } else if Head(s) == QUOTE {
      LiteralCompleteness(s[1..]);
    } else if StartsNumber(s) {
      NumberKeepsCompleteness(s);
    } else if Head(s) == OPEN_BRACKET || Head(s) == OPEN_BRACE {
      SkipKeepsCompleteness(s[1..]);
      ItemsCompleteness(Skip(s[1..]));
      MembersCompleteness(Skip(s[1..]));
    }
  }

  lemma {:induction false} ItemsCompleteness(s: Text)
    ensures ParseItems(s).Ok? ==> CompleteEscapes(s) == CompleteEscapes(ParseItems(s).rest)
    ensures ParseItems(s).Incomplete? ==> !CompleteEscapes(s)
    decreases |s|, 1
  {
    SkipKeepsCompleteness(s);
    ValueCompleteness(Skip(s));
    var p := ParseValue(Skip(s));
    if p.Ok? {
      SkipKeepsCompleteness(p.rest);
      var r := Skip(p.rest);
      if Head(r) == COMMA {
        ItemsCompleteness(r[1..]);
      }
    }
  }

  lemma {:induction false} MemberCompleteness(s: Text)
    ensures ParseMember(s).Ok? ==> CompleteEscapes(s) == CompleteEscapes(ParseMember(s).rest)
    ensures ParseMember(s).Incomplete? ==> !CompleteEscapes(s)
    decreases |s|, 1
  {
    if Head(s) == QUOTE {
      LiteralCompleteness(s[1..]);
      var d := Decode(s[1..]);
      if d.Done? {
        SkipKeepsCompleteness(d.rest);
        var c := Skip(d.rest);
        if Head(c) == COLON {
          SkipKeepsCompleteness(c[1..]);
          ValueCompleteness(Skip(c[1..]));
        }
      }
    }
  }

  lemma {:induction false} MembersCompleteness(s: Text)
    ensures ParseMembers(s).Ok? ==> CompleteEscapes(s) == CompleteEscapes(ParseMembers(s).rest)
    ensures ParseMembers(s).Incomplete? ==> !CompleteEscapes(s)
    decreases |s|, 2
  {
    SkipKeepsCompleteness(s);
    MemberCompleteness(Skip(s));
    var p := ParseMember(Skip(s));
    if p.Ok? {
      SkipKeepsCompleteness(p.rest);
      var r := Skip(p.rest);
      if Head(r) == COMMA {
        MembersCompleteness(r[1..]);
      }
    }
  }

  // A text whose escapes are complete is accepted or rejected at a position;
  // and a text that is accepted to its end has only complete escapes.
  lemma CompleteTextsAreDecided(s: Text, toEnd: bool)
    ensures CompleteEscapes(s) ==> !ParseText(s, toEnd).Incomplete?
    ensures ParseText(s, true).Ok? ==> CompleteEscapes(s)
  {
    SkipKeepsCompleteness(s);
    ValueCompleteness(Skip(s));
    var p := ParseValue(Skip(s));
    if p.Ok? {
      SkipKeepsCompleteness(p.rest);
    }
  }
}

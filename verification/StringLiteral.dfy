/** JSON string literals: reading them (`parse_string`) and writing them
    (`print_string_ptr`). Every `s` below starts just after the opening quote. */
module StringLiteral {
  import opened Bytes
  import opened Unicode

  // ----- Reading -----

  // What one backslash sequence yields and how far the pointer moves;
  // `Cut` when the sequence is not all there.
  datatype Escape = Yield(out: Text, used: nat) | Cut

  // Four bytes follow that neither end the literal nor start an escape.
  predicate FourPlain(s: Text) {
    |s| >= 4 && forall i | 0 <= i < 4 :: s[i] != QUOTE && s[i] != BACKSLASH
  }

  function UnicodeEscape(s: Text): (e: Escape)
    requires |s| >= 2
    ensures e.Yield? ==> 6 <= e.used <= |s| && |e.out| <= e.used - 2
  {
    if !FourPlain(s[2..]) then Cut
    else
      var uc := Hex4(s[2..]);
      if 0xDC00 <= uc <= 0xDFFF || uc == 0 then Yield([], 6)
      else if 0xD800 <= uc <= 0xDBFF then
        if At(s, 6) != BACKSLASH || At(s, 7) != LOWER_U then Yield([], 6)
        else if !FourPlain(s[8..]) then Cut
        else
          var uc2 := Hex4(s[8..]);
          if uc2 < 0xDC00 || uc2 > 0xDFFF then Yield([], 12)
          else Yield(Utf8(Combine(uc, uc2)), 12)
      else Yield(Utf8(uc), 6)
  }

  // The byte a one-letter escape stands for; any other letter stands for itself.
  function Simple(c: TextByte): TextByte {
    if c == LOWER_B then BACKSPACE
    else if c == LOWER_F then FORM_FEED
    else if c == LOWER_N then NEWLINE
    else if c == LOWER_R then RETURN
    else if c == LOWER_T then TAB
    else c
  }

  function EscapeAt(s: Text): (e: Escape)
    requires Head(s) == BACKSLASH
    ensures e.Yield? ==> 2 <= e.used <= |s|
  {
    if |s| < 2 then Cut
    else if s[1] == LOWER_U then UnicodeEscape(s)
    else Yield([Simple(s[1])], 2)
  }

  datatype Decoded = Done(value: Text, rest: Text, closed: bool) | CutShort

  function Prepend(out: Text, d: Decoded): Decoded {
    match d
    case Done(v, rest, closed) => Done(out + v, rest, closed)
    case CutShort => CutShort
  }

  // The second pass of `parse_string`. A literal that the text ends in is
  // accepted too: the pointer then stays on the terminator.
  function Decode(s: Text): (d: Decoded)
    ensures d.Done? ==> |d.rest| <= |s| && (d.closed ==> |d.rest| < |s|) && (!d.closed ==> d.rest == [])
    decreases |s|
  {
    if s == [] then Done([], [], false)
    else if s[0] == QUOTE then Done([], s[1..], true)
    else if s[0] != BACKSLASH then Prepend([s[0]], Decode(s[1..]))
    else
      match EscapeAt(s)
      case Cut => CutShort
      case Yield(out, used) => Prepend(out, Decode(s[used..]))
  }

  // The first pass: one for each plain byte and one for each backslash pair.
  function Measure(s: Text): nat
    decreases |s|
  {
    if s == [] || s[0] == QUOTE then 0
    else if s[0] == BACKSLASH then 1 + (if |s| < 2 then 0 else Measure(s[2..]))
    else 1 + Measure(s[1..])
  }

  // How many raw bytes stand before the closing quote.
  datatype Span = Closed(n: nat) | Open | Dangling

  function Extend(k: nat, sp: Span): Span {
    match sp
    case Closed(n) => Closed(k + n)
    case _ => sp
  }

  function SpanOf(s: Text): (sp: Span)
    ensures sp.Closed? ==> sp.n < |s| && s[sp.n] == QUOTE
    decreases |s|
  {
    if s == [] then Open
    else if s[0] == QUOTE then Closed(0)
    else if s[0] == BACKSLASH then
      if |s| < 2 then Dangling else Extend(2, SpanOf(s[2..]))
    else Extend(1, SpanOf(s[1..]))
  }

  lemma PlainRun(s: Text, k: nat)
    requires k <= |s|
    requires forall i | 0 <= i < k :: s[i] != QUOTE && s[i] != BACKSLASH
    ensures Measure(s) == k + Measure(s[k..])
    ensures SpanOf(s) == Extend(k, SpanOf(s[k..]))
  {
    if k > 0 {
      PlainRun(s[1..], k - 1);
      Shift(s, 1, k - 1);
    } else {
      assert s[0..] == s;
    }
  }

  lemma UnicodeInStep(s: Text)
    requires Head(s) == BACKSLASH && |s| >= 2 && FourPlain(s[2..])
    ensures |s| >= 6 && Measure(s) == 5 + Measure(s[6..]) && SpanOf(s) == Extend(6, SpanOf(s[6..]))
  {
    PlainRun(s[2..], 4);
    Shift(s, 2, 4);
  }

  // Both passes walk over an escape sequence in step, and the buffer sized by
  // the first pass has room for what the second one writes.
  lemma EscapeInStep(s: Text)
    requires Head(s) == BACKSLASH && EscapeAt(s).Yield?
    ensures var e := EscapeAt(s);
            |e.out| + Measure(s[e.used..]) <= Measure(s) && SpanOf(s) == Extend(e.used, SpanOf(s[e.used..]))
  {
    var used := EscapeAt(s).used;
    if used >= 6 {
      UnicodeInStep(s);
      if used == 12 {
        Shift(s, 6, 2);
        UnicodeInStep(s[6..]);
        Shift(s, 6, 6);
      }
    }
  }

  lemma {:induction false} DecodeFits(s: Text)
    requires Decode(s).Done?
    ensures |Decode(s).value| <= Measure(s)
    decreases |s|
  {
    if s == [] || s[0] == QUOTE {
    } else {
      if s[0] != BACKSLASH {
        DecodeFits(s[1..]);
      } else {
        EscapeInStep(s);
        DecodeFits(s[EscapeAt(s).used..]);
      }
    }
  }

  // Where the second pass stops is where a scan for the closing quote stops.
  lemma {:induction false} DecodeStopsAtQuote(s: Text)
    requires Decode(s).Done?
    ensures Decode(s).closed ==> SpanOf(s).Closed? && Decode(s).rest == s[SpanOf(s).n + 1..]
    ensures !Decode(s).closed ==> SpanOf(s).Open?
    decreases |s|
  {
    if s == [] || s[0] == QUOTE {
    } else {
      var k := if s[0] != BACKSLASH then 1 else EscapeAt(s).used;
      if s[0] == BACKSLASH {
        EscapeInStep(s);
      }
      DecodeStopsAtQuote(s[k..]);
      if SpanOf(s[k..]).Closed? {
        assert s[k..][SpanOf(s[k..]).n + 1..] == s[k + SpanOf(s[k..]).n + 1..];
      }
    }
  }

  lemma FourAgree(s: Text, u: Text, k: nat)
    requires k + 4 <= |s| && k + 4 <= |u| && s[k..k + 4] == u[k..k + 4]
    ensures FourPlain(s[k..]) == FourPlain(u[k..]) && Hex4(s[k..]) == Hex4(u[k..])
  {
    assert forall i | 0 <= i < 4 :: s[k..][i] == s[k..k + 4][i] && u[k..][i] == u[k..k + 4][i];
  }

  lemma UnicodeEscapeIsLocal(s: Text, u: Text, m: nat)
    requires |s| >= 2 && UnicodeEscape(s).Yield? && m <= |s| && m <= |u| && s[..m] == u[..m]
    requires UnicodeEscape(s).used < m && (At(s, 6) == BACKSLASH ==> 8 <= m)
    ensures UnicodeEscape(u) == UnicodeEscape(s)
  {
    assert forall i | 0 <= i < m :: u[i] == s[..m][i] == s[i];
    FourAgree(s, u, 2);
    if UnicodeEscape(s).used == 12 {
      FourAgree(s, u, 8);
    }
  }

  // An escape inside a closed literal never looks past its closing quote.
  lemma EscapeIsLocal(s: Text, u: Text, n: nat)
    requires Head(s) == BACKSLASH && EscapeAt(s).Yield? && SpanOf(s) == Closed(n) && n < |u| && s[..n + 1] == u[..n + 1]
    ensures EscapeAt(s).used <= n && Head(u) == BACKSLASH && EscapeAt(u) == EscapeAt(s)
  {
    EscapeInStep(s);
    assert forall i | 0 <= i <= n :: u[i] == s[..n + 1][i] == s[i];
    if s[1] == LOWER_U {
      if EscapeAt(s).used == 6 && At(s, 6) == BACKSLASH {
        assert SpanOf(s[6..]) == Extend(2, SpanOf(s[6..][2..]));
      }
      UnicodeEscapeIsLocal(s, u, n + 1);
    }
  }

  lemma CutBehind(s: Text, m: nat, k: nat, t: Text)
    requires 0 < k <= m <= |s|
    ensures (s[..m] + t)[k..] == s[k..][..m - k] + t && (s[..m] + t)[0] == s[0]
  {
  }

  lemma AgreeBehind(s: Text, u: Text, m: nat, k: nat)
    requires k < m <= |s| && m <= |u| && s[..m] == u[..m]
    ensures s[k..][..m - k] == u[k..][..m - k] && s[0] == u[0] && u[k..][m - k..] == u[m..]
  {
    assert forall i | 0 <= i < m :: u[i] == s[..m][i] == s[i];
  }

  // Two texts that start with the same byte or escape differ as their rests do.
  lemma DecodeAlike(s: Text, u: Text, k: nat)
    requires s != [] && u != [] && u[0] == s[0] != QUOTE && k <= |s| && k <= |u|
    requires if s[0] == BACKSLASH then EscapeAt(u) == EscapeAt(s) && EscapeAt(s).Yield? && k == EscapeAt(s).used
             else k == 1
    requires Decode(s[k..]).Done? && Decode(u[k..]).Done? && Decode(u[k..]).value == Decode(s[k..]).value
    ensures Decode(s).Done? && Decode(u) == Done(Decode(s).value, Decode(u[k..]).rest, Decode(u[k..]).closed)
  {
  }

  // They do start alike if they agree up to the closing quote.
  lemma FirstAgrees(s: Text, u: Text, n: nat) returns (k: nat)
    requires Decode(s).Done? && SpanOf(s) == Closed(n) && n < |u| && s[..n + 1] == u[..n + 1] && s[0] != QUOTE
    ensures 0 < k <= n && u[0] == s[0] && Decode(s[k..]).Done? && SpanOf(s[k..]) == Closed(n - k)
    ensures if s[0] == BACKSLASH then EscapeAt(u) == EscapeAt(s) && EscapeAt(s).Yield? && k == EscapeAt(s).used
            else k == 1
  {
    k := 1;
    AgreeBehind(s, u, n + 1, 0);
    if s[0] == BACKSLASH {
      k := EscapeAt(s).used;
      EscapeInStep(s);
      EscapeIsLocal(s, u, n);
    }
  }

  lemma {:induction false} DecodeAgrees(s: Text, u: Text, n: nat)
    requires Decode(s).Done? && SpanOf(s) == Closed(n) && n < |u| && s[..n + 1] == u[..n + 1]
    ensures Decode(u) == Done(Decode(s).value, u[n + 1..], true)
    decreases |s|
  {
    if s[0] == QUOTE {
      AgreeBehind(s, u, n + 1, 0);
    } else {
      var k := FirstAgrees(s, u, n);
      AgreeBehind(s, u, n + 1, k);
      DecodeAgrees(s[k..], u[k..], n - k);
      DecodeAlike(s, u, k);
    }
  }

  lemma DecodeIsLocal(s: Text, n: nat, t: Text)
    requires Decode(s).Done? && SpanOf(s) == Closed(n)
    ensures Decode(s[..n + 1] + t) == Done(Decode(s).value, t, true)
  {
    var u := s[..n + 1] + t;
    assert u[..n + 1] == s[..n + 1] && u[n + 1..] == t;
    DecodeAgrees(s, u, n);
  }

  // ----- Writing -----

  predicate HasShortForm(c: TextByte) {
    c == QUOTE || c == BACKSLASH || c == BACKSPACE || c == FORM_FEED || c == NEWLINE || c == RETURN || c == TAB
  }

  function HexDigit(d: nat): TextByte
    requires d < 16
  {
    if d < 10 then ZERO + d else LOWER_A + d - 10
  }

  // `sprintf(.., "u%04x", c)` for a byte.
  function UText(c: Byte): (r: Text)
    ensures |r| == 5
  {
    [LOWER_U, ZERO, ZERO, HexDigit(c / 16), HexDigit(c % 16)]
  }

  function EscapeLetter(c: TextByte): Text {
    if c == BACKSPACE then [LOWER_B]
    else if c == FORM_FEED then [LOWER_F]
    else if c == NEWLINE then [LOWER_N]
    else if c == RETURN then [LOWER_R]
    else if c == TAB then [LOWER_T]
    else if c == QUOTE || c == BACKSLASH then [c]
    else UText(c)
  }

  function EscapeByte(c: TextByte): Text {
    if c > 31 && c != QUOTE && c != BACKSLASH then [c] else [BACKSLASH] + EscapeLetter(c)
  }

  function EscapeAll(s: Text): Text {
    if s == [] then [] else EscapeByte(s[0]) + EscapeAll(s[1..])
  }

  // `print_string_ptr` on a non-null pointer.
  function Literal(s: Text): Text {
    [QUOTE] + EscapeAll(s) + [QUOTE]
  }

  // The measuring pass of `print_string_ptr`.
  function EscapedLength(s: Text): nat {
    if s == [] then 0
    else (if HasShortForm(s[0]) then 2 else if s[0] < 32 then 6 else 1) + EscapedLength(s[1..])
  }

  // The buffer of `EscapedLength + 3` bytes is filled to the last one: two
  // quotes, the escaped text and the terminator.
  lemma {:induction false} LiteralFitsExactly(s: Text)
    ensures |Literal(s)| + 1 == EscapedLength(s) + 3
  {
    if s == [] {
    } else {
      LiteralFitsExactly(s[1..]);
    }
  }

  // A control byte without a short form, behind its backslash and `u`.
  lemma ControlByteReadsBack(c: TextByte, u: Text)
    requires c < 32 && |u| >= 6 && u[2..][..4] == [ZERO, ZERO, HexDigit(c / 16), HexDigit(c % 16)]
    ensures UnicodeEscape(u) == Yield([c], 6)
  {
    assert Hex4(u[2..]) == c;
    assert Utf8(c) == [c];
  }

  lemma UTextParts(c: TextByte, t: Text)
    ensures var u := [BACKSLASH] + UText(c) + t;
            && |u| >= 6 && u[0] == BACKSLASH && u[1] == LOWER_U && u[6..] == t
            && u[2..][..4] == [ZERO, ZERO, HexDigit(c / 16), HexDigit(c % 16)]
  {
  }

  lemma EscapeByteReadsBack(c: TextByte, t: Text)
    ensures Decode(EscapeByte(c) + t) == Prepend([c], Decode(t))
  {
    var u := EscapeByte(c) + t;
    if c > 31 && c != QUOTE && c != BACKSLASH {
      assert u[1..] == t;
    } else if HasShortForm(c) {
      assert u[2..] == t;
    } else {
      UTextParts(c, t);
      ControlByteReadsBack(c, u);
    }
  }

  // Escaping then reading back is the identity, and the literal is consumed
  // to its closing quote whatever follows it.
  lemma {:induction false} LiteralReadsBack(s: Text, t: Text)
    ensures Decode(EscapeAll(s) + [QUOTE] + t) == Done(s, t, true)
  {
    if s == [] {
      assert (EscapeAll(s) + [QUOTE] + t)[1..] == t;
    } else {
      var u := EscapeAll(s[1..]) + [QUOTE] + t;
      RegroupFour(EscapeByte(s[0]), EscapeAll(s[1..]), [QUOTE], t);
      Regroup(EscapeAll(s[1..]), [QUOTE], t);
      EscapeByteReadsBack(s[0], u);
      LiteralReadsBack(s[1..], t);
    }
  }

  // ----- Unicode escapes: section 7 of RFC 8259 against RFC 3629 -----

  lemma SpelledEscape(h: Text, v: nat, t: Text)
    requires |h| == 4 && FourHex(h) && Hex4(h) == v
    ensures var u := [BACKSLASH, LOWER_U] + h + t;
            |u| >= 6 && FourPlain(u[2..]) && Hex4(u[2..]) == v && u[6..] == t
  {
    var u := [BACKSLASH, LOWER_U] + h + t;
    assert u[2..] == h + t;
    assert u[6..] == t;
  }

  lemma BasicPlaneEscape(v: nat, h: Text, t: Text)
    requires Scalar(v) && v < 0x10000 && Spells(h, v)
    ensures Decode([BACKSLASH, LOWER_U] + h + t) == Prepend(Utf8(v), Decode(t))
    ensures Utf8Value(Utf8(v)) == v && WellFormedUtf8(Utf8(v))
  {
    SpelledIsRead(h, v);
    SpelledEscape(h, v, t);
    Utf8Inverts(v);
  }

  lemma PairEscape(hi: Text, lo: Text, t: Text)
    requires |hi| == 4 && FourHex(hi) && 0xD800 <= Hex4(hi) <= 0xDBFF
    requires |lo| == 4 && FourHex(lo) && 0xDC00 <= Hex4(lo) <= 0xDFFF
    ensures Decode([BACKSLASH, LOWER_U] + hi + ([BACKSLASH, LOWER_U] + lo + t))
         == Prepend(Utf8(Combine(Hex4(hi), Hex4(lo))), Decode(t))
  {
    var second := [BACKSLASH, LOWER_U] + lo + t;
    var u := [BACKSLASH, LOWER_U] + hi + second;
    SpelledEscape(hi, Hex4(hi), second);
    SpelledEscape(lo, Hex4(lo), t);
    assert u[6..] == second && u[8..] == second[2..] && u[12..] == second[6..];
  }

  lemma SurrogatePairEscape(v: nat, hi: Text, lo: Text, t: Text)
    requires 0x10000 <= v <= 0x10FFFF && Spells(hi, HighHalf(v)) && Spells(lo, LowHalf(v))
    ensures Decode([BACKSLASH, LOWER_U] + hi + ([BACKSLASH, LOWER_U] + lo + t)) == Prepend(Utf8(v), Decode(t))
    ensures Utf8Value(Utf8(v)) == v && WellFormedUtf8(Utf8(v))
  {
    SpelledIsRead(hi, HighHalf(v));
    SpelledIsRead(lo, LowHalf(v));
    HalvesCombine(v);
    PairEscape(hi, lo, t);
    Utf8Inverts(v);
  }
}

/** Minifying a printed text, in either layout, leaves the compact layout. */
module MinifyPrinted {
  import opened Bytes
  import opened Numbers
  import opened StringLiteral
  import opened JsonValues
  import opened Printer
  import opened Minifier

  // Bytes that are copied wherever they stand.
  predicate Plain(p: Text) {
    forall i | 0 <= i < |p| :: !IsBlank(p[i]) && p[i] != SLASH && p[i] != QUOTE
  }

  predicate Blank(w: Text) {
    forall i | 0 <= i < |w| :: IsBlank(w[i])
  }

  lemma {:induction false} PlainIsKept(p: Text, t: Text)
    requires Plain(p)
    ensures Minify(p + t) == Keep(p, Minify(t))
  {
    if p == [] {
      assert p + t == t;
    } else {
      assert (p + t)[1..] == p[1..] + t;
      PlainIsKept(p[1..], t);
      KeepTwiceIsOnce([p[0]], p[1..], Minify(t));
      assert [p[0]] + p[1..] == p;
    }
  }

  lemma {:induction false} BlankIsDropped(w: Text, t: Text)
    requires Blank(w)
    ensures Minify(w + t) == Minify(t)
  {
    if w == [] {
      assert w + t == t;
    } else {
      assert (w + t)[1..] == w[1..] + t;
      BlankIsDropped(w[1..], t);
    }
  }

  // A closed literal is copied whole, whatever it holds.
  lemma LiteralIsKept(q: Text, n: nat, t: Text)
    requires |q| == n + 2 && q[0] == QUOTE && SpanOf(q[1..] + t) == Closed(n)
    ensures Minify(q + t) == Keep(q, Minify(t))
  {
    var u := q + t;
    assert u[1..] == q[1..] + t;
    assert u[..n + 2] == q && u[n + 2..] == t;
  }

  lemma PrintedLiteralIsKept(s: Text, t: Text)
    ensures Minify(Literal(s) + t) == Keep(Literal(s), Minify(t))
  {
    var q := Literal(s);
    var u := EscapeAll(s) + [QUOTE] + t;
    assert q[1..] + t == u;
    LiteralReadsBack(s, t);
    DecodeStopsAtQuote(u);
    var n := SpanOf(u).n;
    assert |u[n + 1..]| == |t|;
    LiteralIsKept(q, n, t);
  }

  lemma TabsAreBlank(n: int)
    ensures Blank(Tabs(n))
  {
    assert forall i | 0 <= i < |Tabs(n)| :: Tabs(n)[i] in Tabs(n);
  }

  // What a printer output `u` must satisfy next to its compact form `c`.
  ghost predicate MinifiesTo(u: Text, c: Text, t: Text) {
    Minify(u + t) == Keep(c, Minify(t))
  }

  lemma PlainMinifies(p: Text, t: Text)
    requires Plain(p)
    ensures MinifiesTo(p, p, t)
  {
    PlainIsKept(p, t);
  }

  lemma BlankMinifies(w: Text, t: Text)
    requires Blank(w)
    ensures MinifiesTo(w, [], t)
  {
    BlankIsDropped(w, t);
    if Minify(t).Left? {
      assert [] + Minify(t).text == Minify(t).text;
    }
  }

  lemma Append(u: Text, c: Text, v: Text, d: Text, t: Text)
    requires MinifiesTo(u, c, v + t) && MinifiesTo(v, d, t)
    ensures MinifiesTo(u + v, c + d, t)
  {
    assert u + v + t == u + (v + t);
    KeepTwiceIsOnce(c, d, Minify(t));
  }

  lemma {:induction false} ValueMinifies(j: Json, depth: nat, fmt: bool, t: Text)
    requires Printable(j)
    ensures MinifiesTo(Print(j, depth, fmt), Print(j, depth, false), t)
    decreases j, 1
  {
    match j
    case Null => PlainMinifies(NULL_WORD, t);
    case False => PlainMinifies(FALSE_WORD, t);
    case True => PlainMinifies(TRUE_WORD, t);
    case Number(d) => DecimalIsPlain(d.Floor); PlainMinifies(Decimal(d.Floor), t);
    case String(s) => PrintedLiteralIsKept(s, t);
    case Array(items) =>
      var u := if items == [] then [] else PrintItems(items, depth + 1, fmt);
      var c := if items == [] then [] else PrintItems(items, depth + 1, false);
      PlainMinifies([CLOSE_BRACKET], t);
      if items == [] {
        PlainMinifies([], [CLOSE_BRACKET] + t);
      } else {
        ItemsMinify(items, depth + 1, fmt, [CLOSE_BRACKET] + t);
      }
      Bracketed([OPEN_BRACKET], u, c, [CLOSE_BRACKET], t);
    case Object(members) =>
      if members == [] {
        EmptyObjectMinifies(depth, fmt, t);
      } else {
        ObjectMinifies(members, depth, fmt, t);
      }
  }

  lemma DecimalIsPlain(n: int)
    ensures Plain(Decimal(n))
  {
    assert forall i | 0 <= i < |Decimal(n)| :: Decimal(n)[i] in Decimal(n);
  }

  lemma Bracketed(open: Text, u: Text, c: Text, close: Text, t: Text)
    requires Plain(open) && MinifiesTo(u, c, close + t) && MinifiesTo(close, close, t)
    ensures MinifiesTo(open + u + close, open + c + close, t)
  {
    PlainMinifies(open, u + (close + t));
    Append(open, open, u, c, close + t);
    Append(open + u, open + c, close, close, t);
  }

  lemma EmptyObjectMinifies(depth: nat, fmt: bool, t: Text)
    ensures MinifiesTo(Print(Object([]), depth, fmt), Print(Object([]), depth, false), t)
  {
    var w := Only(fmt, [NEWLINE] + Tabs(depth - 1));
    TabsAreBlank(depth - 1);
    BlankMinifies(w, [CLOSE_BRACE] + t);
    PlainMinifies([CLOSE_BRACE], t);
    Bracketed([OPEN_BRACE], w, [], [CLOSE_BRACE], t);
  }

  lemma {:induction false} ItemsMinify(items: seq<Json>, depth: nat, fmt: bool, t: Text)
    requires items != [] && AllPrintable(items)
    ensures MinifiesTo(PrintItems(items, depth, fmt), PrintItems(items, depth, false), t)
    decreases items, 0
  {
    if |items| == 1 {
      ValueMinifies(items[0], depth, fmt, t);
      assert Print(items[0], depth, fmt) + [] == Print(items[0], depth, fmt);
      assert Print(items[0], depth, false) + [] == Print(items[0], depth, false);
    } else {
      var rest, compact := PrintItems(items[1..], depth, fmt), PrintItems(items[1..], depth, false);
      ItemsMinify(items[1..], depth, fmt, t);
      BlankMinifies(Only(fmt, [SPACE]), rest + t);
      PlainMinifies([COMMA], Only(fmt, [SPACE]) + (rest + t));
      Append([COMMA], [COMMA], Only(fmt, [SPACE]), [], rest + t);
      Append(Separator(fmt), Separator(false), rest, compact, t);
      ValueMinifies(items[0], depth, fmt, Separator(fmt) + rest + t);
      Append(Print(items[0], depth, fmt), Print(items[0], depth, false),
        Separator(fmt) + rest, Separator(false) + compact, t);
    }
  }

  lemma ObjectMinifies(members: seq<Member>, depth: nat, fmt: bool, t: Text)
    requires members != [] && Printable(Object(members))
    ensures MinifiesTo(Print(Object(members), depth, fmt), Print(Object(members), depth, false), t)
    decreases members, 1
  {
    var u, c := PrintMembers(members, depth + 1, fmt), PrintMembers(members, depth + 1, false);
    var w := Only(fmt, Tabs(depth));
    TabsAreBlank(depth);
    PlainMinifies([CLOSE_BRACE], t);
    BlankMinifies(w, [CLOSE_BRACE] + t);
    MembersMinify(members, depth + 1, fmt, w + ([CLOSE_BRACE] + t));
    Append(u, c, w, [], [CLOSE_BRACE] + t);
    BlankMinifies(Only(fmt, [NEWLINE]), u + w + ([CLOSE_BRACE] + t));
    Append(Only(fmt, [NEWLINE]), [], u + w, c + [], [CLOSE_BRACE] + t);
    Bracketed([OPEN_BRACE], Only(fmt, [NEWLINE]) + (u + w), [] + (c + []), [CLOSE_BRACE], t);
    RegroupBody([OPEN_BRACE], Only(fmt, [NEWLINE]), u, w, [CLOSE_BRACE]);
    RegroupBody([OPEN_BRACE], [], c, [], [CLOSE_BRACE]);
  }

  lemma RegroupBody(a: Text, b: Text, c: Text, d: Text, e: Text)
    ensures a + (b + (c + d)) + e == a + b + c + d + e
  {
  }

  lemma LabelMinifies(name: Text, depth: nat, fmt: bool, t: Text)
    ensures MinifiesTo(Label(name, depth, fmt), Label(name, depth, false), t)
  {
    var w, v := Only(fmt, Tabs(depth)), Only(fmt, [TAB]);
    TabsAreBlank(depth);
    BlankMinifies(v, t);
    PlainMinifies([COLON], v + t);
    PrintedLiteralIsKept(name, [COLON] + (v + t));
    BlankMinifies(w, Literal(name) + ([COLON] + (v + t)));
    Append(w, [], Literal(name), Literal(name), [COLON] + (v + t));
    Append(w + Literal(name), [] + Literal(name), [COLON], [COLON], v + t);
    Append(w + Literal(name) + [COLON], [] + Literal(name) + [COLON], v, [], t);
  }

  // What follows the value of a member, up to the end of the list.
  function AfterValue(members: seq<Member>, depth: nat, fmt: bool): Text
    requires members != [] && MembersPrintable(members)
  {
    if |members| == 1 then Only(fmt, [NEWLINE])
    else [COMMA] + Only(fmt, [NEWLINE]) + PrintMembers(members[1..], depth, fmt)
  }

  lemma {:induction false} MembersMinify(members: seq<Member>, depth: nat, fmt: bool, t: Text)
    requires members != [] && MembersPrintable(members)
    ensures MinifiesTo(PrintMembers(members, depth, fmt), PrintMembers(members, depth, false), t)
    decreases members, 0
  {
    var m := members[0];
    var nl := Only(fmt, [NEWLINE]);
    var after, compact := AfterValue(members, depth, fmt), AfterValue(members, depth, false);
    if |members| == 1 {
      BlankMinifies(nl, t);
    } else {
      var rest, tight := PrintMembers(members[1..], depth, fmt), PrintMembers(members[1..], depth, false);
      MembersMinify(members[1..], depth, fmt, t);
      BlankMinifies(nl, rest + t);
      PlainMinifies([COMMA], nl + (rest + t));
      Append([COMMA], [COMMA], nl, [], rest + t);
      Append([COMMA] + nl, [COMMA] + [], rest, tight, t);
    }
    var named, value := Label(m.name, depth, fmt), Print(m.value, depth, fmt);
    ValueMinifies(m.value, depth, fmt, after + t);
    LabelMinifies(m.name, depth, fmt, value + (after + t));
    Append(named, Label(m.name, depth, false), value, Print(m.value, depth, false), after + t);
    Append(named + value, Label(m.name, depth, false) + Print(m.value, depth, false), after, compact, t);
  }

  // `cJSON_Minify` on the output of `cJSON_Print` gives, byte for byte, the
  // output of `cJSON_PrintUnformatted`, and leaves that one as it is.
  lemma PrintedMinifiesToCompact(j: Json, fmt: bool)
    requires Printable(j)
    ensures Minify(Print(j, 0, fmt)) == Left(Print(j, 0, false))
  {
    ValueMinifies(j, 0, fmt, []);
    assert Print(j, 0, fmt) + [] == Print(j, 0, fmt);
    assert Print(j, 0, false) + [] == Print(j, 0, false);
  }
}

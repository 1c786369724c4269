/** Parsing what was printed gives the value back, in both layouts. */
module RoundTrip {
  import opened Bytes
  import opened Numbers
  import opened StringLiteral
  import opened JsonValues
  import opened Parser
  import opened Printer

  predicate White(w: Text) {
    forall i | 0 <= i < |w| :: w[i] <= SPACE
  }

  lemma {:induction false} SkipWhite(w: Text, t: Text)
    requires White(w)
    ensures Skip(w + t) == Skip(t)
  {
    if w == [] {
      assert w + t == t;
    } else {
      assert (w + t)[1..] == w[1..] + t;
      SkipWhite(w[1..], t);
    }
  }

  lemma TabsAreWhite(n: int)
    ensures White(Tabs(n))
  {
    assert forall i | 0 <= i < |Tabs(n)| :: Tabs(n)[i] in Tabs(n);
  }

  // White space before a printed value is stepped over, and no more.
  lemma SkipToValue(w: Text, j: Json, depth: nat, fmt: bool, t: Text)
    requires Printable(j) && White(w)
    ensures Skip(w + (Print(j, depth, fmt) + t)) == Print(j, depth, fmt) + t
  {
    SkipWhite(w, Print(j, depth, fmt) + t);
    PrintStarts(j, depth, fmt);
  }

  // The parser stops exactly behind a printed value, whatever follows it, as
  // long as that does not continue a number.
  lemma {:induction false} ValueReadsBack(j: Json, depth: nat, fmt: bool, t: Text)
    requires Printable(j) && EndsNumber(t)
    ensures ParseValue(Print(j, depth, fmt) + t) == Ok(j, t)
    decreases j, 1
  {
    var u := Print(j, depth, fmt) + t;
    match j
    case Null => assert u[4..] == t;
    case False => assert u[0] == FALSE_WORD[0] != NULL_WORD[0] && u[5..] == t;
    case True => assert u[0] == TRUE_WORD[0] != NULL_WORD[0] && u[0] != FALSE_WORD[0] && u[4..] == t;
    case Number(d) => DecimalReadsBack(d.Floor, t);
    case String(s) =>
      assert u[1..] == EscapeAll(s) + [QUOTE] + t;
      LiteralReadsBack(s, t);
    case Array(items) => ArrayReadsBack(items, depth, fmt, t);
    case Object(members) => ObjectReadsBack(members, depth, fmt, t);
  }

  lemma {:induction false} ArrayReadsBack(items: seq<Json>, depth: nat, fmt: bool, t: Text)
    requires Printable(Array(items))
    ensures ParseValue(Print(Array(items), depth, fmt) + t) == Ok(Array(items), t)
    decreases items, 3
  {
    var u := Print(Array(items), depth, fmt) + t;
    if items == [] {
      assert u[1..] == [CLOSE_BRACKET] + t;
      ArrayForm(u, Skip(u[1..]));
    } else {
      var body := PrintItems(items, depth + 1, fmt) + ([CLOSE_BRACKET] + t);
      assert u == [OPEN_BRACKET] + body;
      ItemsStart(items, depth + 1, fmt, t);
      ItemsReadBack(items, depth + 1, fmt, [], t);
      assert [] + body == body;
      Bracketed(body, items, t);
    }
  }

  lemma Bracketed(body: Text, items: seq<Json>, t: Text)
    requires Skip(body) == body && Head(body) != CLOSE_BRACKET && ParseItems(body) == Ok(items, t)
    ensures ParseValue([OPEN_BRACKET] + body) == Ok(Array(items), t)
  {
    assert ([OPEN_BRACKET] + body)[1..] == body;
    ArrayForm([OPEN_BRACKET] + body, body);
  }

  // Printed items do not start with white space or the end of the array.
  lemma ItemsStart(items: seq<Json>, depth: nat, fmt: bool, t: Text)
    requires items != [] && AllPrintable(items)
    ensures var body := PrintItems(items, depth, fmt) + ([CLOSE_BRACKET] + t);
            Skip(body) == body && Head(body) != CLOSE_BRACKET
  {
    var body := PrintItems(items, depth, fmt) + ([CLOSE_BRACKET] + t);
    ItemsSplit(items, depth, fmt, t);
    SkipToValue([], items[0], depth, fmt, AfterItem(items, depth, fmt, t));
    assert [] + body == body;
    PrintStarts(items[0], depth, fmt);
  }

  // What stands behind the first item, and behind the first member's value.
  function AfterItem(items: seq<Json>, depth: nat, fmt: bool, t: Text): Text
    requires items != [] && AllPrintable(items)
  {
    if |items| == 1 then [CLOSE_BRACKET] + t
    else [COMMA] + (Only(fmt, [SPACE]) + (PrintItems(items[1..], depth, fmt) + ([CLOSE_BRACKET] + t)))
  }

  lemma NameStarts(m: Member, depth: nat, fmt: bool, t: Text)
    requires Printable(m.value)
    ensures Skip(FromName(m, depth, fmt, t)) == FromName(m, depth, fmt, t)
    ensures Head(FromName(m, depth, fmt, t)) == QUOTE
  {
    assert FromName(m, depth, fmt, t)[0] == Literal(m.name)[0] == QUOTE;
  }

  lemma ItemsSplit(items: seq<Json>, depth: nat, fmt: bool, t: Text)
    requires items != [] && AllPrintable(items)
    ensures PrintItems(items, depth, fmt) + ([CLOSE_BRACKET] + t)
         == Print(items[0], depth, fmt) + AfterItem(items, depth, fmt, t)
  {
    var first, end := Print(items[0], depth, fmt), [CLOSE_BRACKET] + t;
    if |items| == 1 {
      RegroupItems(first, [], [], [], end);
      assert [] + ([] + ([] + end)) == end;
      assert PrintItems(items, depth, fmt) == first + ([] + [] + []);
    } else {
      RegroupItems(first, [COMMA], Only(fmt, [SPACE]), PrintItems(items[1..], depth, fmt), end);
    }
  }

  lemma RegroupItems(a: Text, b: Text, c: Text, d: Text, e: Text)
    ensures a + (b + c + d) + e == a + (b + (c + (d + e)))
  {
  }

  lemma HeadAndTail<T>(s: seq<T>)
    requires s != []
    ensures s == [s[0]] + s[1..] && (|s| == 1 ==> s == [s[0]])
  {
  }

  lemma LastItem(j: Json, depth: nat, fmt: bool, w: Text, t: Text)
    requires Printable(j) && White(w)
    requires ParseValue(Print(j, depth, fmt) + ([CLOSE_BRACKET] + t)) == Ok(j, [CLOSE_BRACKET] + t)
    ensures ParseItems(w + (Print(j, depth, fmt) + ([CLOSE_BRACKET] + t))) == Ok([j], t)
  {
    SkipToValue(w, j, depth, fmt, [CLOSE_BRACKET] + t);
    assert ([CLOSE_BRACKET] + t)[1..] == t;
  }

  lemma ItemBeforeComma(j: Json, depth: nat, fmt: bool, w: Text, rest: Text, js: seq<Json>, t: Text)
    requires Printable(j) && White(w) && ParseItems(rest) == Ok(js, t)
    requires ParseValue(Print(j, depth, fmt) + ([COMMA] + rest)) == Ok(j, [COMMA] + rest)
    ensures ParseItems(w + (Print(j, depth, fmt) + ([COMMA] + rest))) == Ok([j] + js, t)
  {
    SkipToValue(w, j, depth, fmt, [COMMA] + rest);
    assert ([COMMA] + rest)[1..] == rest;
  }

  lemma {:induction false} ItemsReadBack(items: seq<Json>, depth: nat, fmt: bool, w: Text, t: Text)
    requires items != [] && AllPrintable(items)
    requires White(w)
    ensures ParseItems(w + (PrintItems(items, depth, fmt) + ([CLOSE_BRACKET] + t))) == Ok(items, t)
    decreases items, 2
  {
    ItemsSplit(items, depth, fmt, t);
    ValueReadsBack(items[0], depth, fmt, AfterItem(items, depth, fmt, t));
    if |items| == 1 {
      HeadAndTail(items);
      LastItem(items[0], depth, fmt, w, t);
    } else {
      HeadAndTail(items);
      ItemsReadBack(items[1..], depth, fmt, Only(fmt, [SPACE]), t);
      var rest := Only(fmt, [SPACE]) + (PrintItems(items[1..], depth, fmt) + ([CLOSE_BRACKET] + t));
      ItemBeforeComma(items[0], depth, fmt, w, rest, items[1..], t);
    }
  }

  lemma {:induction false} ObjectReadsBack(members: seq<Member>, depth: nat, fmt: bool, t: Text)
    requires Printable(Object(members))
    ensures ParseValue(Print(Object(members), depth, fmt) + t) == Ok(Object(members), t)
    decreases members, 4
  {
    if members == [] {
      EmptyObjectReadsBack(depth, fmt, t);
    } else {
      var w := Only(fmt, [NEWLINE]);
      var v := Only(fmt, Tabs(depth));
      var ms := PrintMembers(members, depth + 1, fmt);
      var closing := v + ([CLOSE_BRACE] + t);
      TabsAreWhite(depth);
      RegroupObject([OPEN_BRACE], w, ms, v, [CLOSE_BRACE], t);
      SkippedMembers(members, depth + 1, fmt, v, t);
      MembersReadBack(members, depth + 1, fmt, [], v, t);
      assert [] + (ms + closing) == ms + closing;
      Opened(w, ms + closing, members, t);
    }
  }

  lemma RegroupObject(a: Text, b: Text, c: Text, d: Text, e: Text, f: Text)
    ensures a + b + c + d + e + f == a + (b + (c + (d + (e + f))))
  {
  }

  lemma Opened(w: Text, body: Text, members: seq<Member>, t: Text)
    requires White(w) && Head(Skip(body)) == QUOTE && ParseMembers(Skip(body)) == Ok(members, t)
    ensures ParseValue([OPEN_BRACE] + (w + body)) == Ok(Object(members), t)
  {
    SkipWhite(w, body);
    assert ([OPEN_BRACE] + (w + body))[1..] == w + body;
    ObjectForm([OPEN_BRACE] + (w + body), Skip(body));
  }

  lemma EmptyObjectReadsBack(depth: nat, fmt: bool, t: Text)
    ensures ParseValue(Print(Object([]), depth, fmt) + t) == Ok(Object([]), t)
  {
    var u := Print(Object([]), depth, fmt) + t;
    var w := Only(fmt, [NEWLINE] + Tabs(depth - 1));
    TabsAreWhite(depth - 1);
    assert u[1..] == w + ([CLOSE_BRACE] + t);
    SkipWhite(w, [CLOSE_BRACE] + t);
    assert ([CLOSE_BRACE] + t)[1..] == t;
  }

  // A printed member list is not taken for an empty object, and skipping its
  // indentation first changes nothing.
  lemma SkippedMembers(members: seq<Member>, depth: nat, fmt: bool, v: Text, t: Text)
    requires members != [] && MembersPrintable(members)
    ensures var body := PrintMembers(members, depth, fmt) + (v + ([CLOSE_BRACE] + t));
            Head(Skip(body)) == QUOTE && ParseMembers(Skip(body)) == ParseMembers(body)
  {
    var after := AfterMember(members, depth, fmt, v, t);
    MembersSplit(members, depth, fmt, v, t);
    TabsAreWhite(depth);
    NameStarts(members[0], depth, fmt, after);
    SkipWhite(Only(fmt, Tabs(depth)), FromName(members[0], depth, fmt, after));
  }

  function FromName(m: Member, depth: nat, fmt: bool, t: Text): Text
    requires Printable(m.value)
  {
    Literal(m.name) + ([COLON] + (Only(fmt, [TAB]) + (Print(m.value, depth, fmt) + t)))
  }

  lemma MemberReadsBack(m: Member, depth: nat, fmt: bool, t: Text)
    requires Printable(m.value)
    requires ParseValue(Print(m.value, depth, fmt) + t) == Ok(m.value, t)
    ensures ParseMember(FromName(m, depth, fmt, t)) == Ok(m, t)
  {
    var value := Only(fmt, [TAB]) + (Print(m.value, depth, fmt) + t);
    var c := [COLON] + value;
    LiteralParses(m.name, c);
    assert c[1..] == value;
    SkipToValue(Only(fmt, [TAB]), m.value, depth, fmt, t);
  }

  lemma LiteralParses(s: Text, t: Text)
    ensures ParseString(Literal(s) + t) == Ok(s, t)
  {
    var u := Literal(s) + t;
    assert u[1..] == EscapeAll(s) + [QUOTE] + t;
    LiteralReadsBack(s, t);
  }

  function AfterMember(members: seq<Member>, depth: nat, fmt: bool, v: Text, t: Text): Text
    requires members != [] && MembersPrintable(members)
  {
    if |members| == 1 then Only(fmt, [NEWLINE]) + (v + ([CLOSE_BRACE] + t))
    else [COMMA] + (Only(fmt, [NEWLINE]) + (PrintMembers(members[1..], depth, fmt) + (v + ([CLOSE_BRACE] + t))))
  }

  lemma MembersSplit(members: seq<Member>, depth: nat, fmt: bool, v: Text, t: Text)
    requires members != [] && MembersPrintable(members)
    ensures PrintMembers(members, depth, fmt) + (v + ([CLOSE_BRACE] + t))
         == Only(fmt, Tabs(depth)) + FromName(members[0], depth, fmt, AfterMember(members, depth, fmt, v, t))
  {
    var m := members[0];
    var nl := Only(fmt, [NEWLINE]);
    var value := Print(m.value, depth, fmt);
    var end := v + ([CLOSE_BRACE] + t);
    var named := Label(m.name, depth, fmt);
    if |members| == 1 {
      RegroupFour(named, value, nl, end);
      RegroupNamed(Only(fmt, Tabs(depth)), Literal(m.name), [COLON], Only(fmt, [TAB]), value + (nl + end));
    } else {
      var ms := PrintMembers(members[1..], depth, fmt);
      RegroupFour([COMMA], nl, ms, end);
      RegroupFour(named, value, [COMMA] + nl + ms, end);
      RegroupNamed(Only(fmt, Tabs(depth)), Literal(m.name), [COLON], Only(fmt, [TAB]),
                   value + ([COMMA] + nl + ms + end));
    }
  }

  lemma RegroupNamed(a: Text, b: Text, c: Text, d: Text, e: Text)
    ensures a + b + c + d + e == a + (b + (c + (d + e)))
  {
  }

  lemma AfterLastMember(fmt: bool, v: Text, t: Text)
    requires White(v)
    ensures Skip(Only(fmt, [NEWLINE]) + (v + ([CLOSE_BRACE] + t))) == [CLOSE_BRACE] + t
    ensures EndsNumber(Only(fmt, [NEWLINE]) + (v + ([CLOSE_BRACE] + t)))
  {
    SkipWhite(Only(fmt, [NEWLINE]), v + ([CLOSE_BRACE] + t));
    SkipWhite(v, [CLOSE_BRACE] + t);
  }

  lemma LastMember(u: Text, body: Text, m: Member, after: Text, t: Text)
    requires Skip(u) == Skip(body) == body && ParseMember(body) == Ok(m, after) && Skip(after) == [CLOSE_BRACE] + t
    ensures ParseMembers(u) == Ok([m], t)
  {
  }

  lemma MemberBeforeComma(u: Text, body: Text, m: Member, after: Text, rest: Text, ms: seq<Member>, t: Text)
    requires Skip(u) == Skip(body) == body && ParseMember(body) == Ok(m, after) && Skip(after) == [COMMA] + rest
    requires ParseMembers(rest) == Ok(ms, t)
    ensures ParseMembers(u) == Ok([m] + ms, t)
  {
    assert ([COMMA] + rest)[1..] == rest;
  }

  // The pointer reaches a member behind white space and stops behind its value.
  lemma FirstMember(m: Member, depth: nat, fmt: bool, w: Text, after: Text)
    requires Printable(m.value) && White(w)
    requires ParseValue(Print(m.value, depth, fmt) + after) == Ok(m.value, after)
    ensures var body := FromName(m, depth, fmt, after);
            Skip(w + (Only(fmt, Tabs(depth)) + body)) == Skip(body) == body && ParseMember(body) == Ok(m, after)
  {
    var tabs, body := Only(fmt, Tabs(depth)), FromName(m, depth, fmt, after);
    NameStarts(m, depth, fmt, after);
    TabsAreWhite(depth);
    SkipWhite(w, tabs + body);
    SkipWhite(tabs, body);
    MemberReadsBack(m, depth, fmt, after);
  }

  // A printed member list and what closes its object.
  function MembersText(members: seq<Member>, depth: nat, fmt: bool, v: Text, t: Text): Text
    requires members != [] && MembersPrintable(members)
  {
    PrintMembers(members, depth, fmt) + (v + ([CLOSE_BRACE] + t))
  }

  lemma {:induction false} MembersReadBack(members: seq<Member>, depth: nat, fmt: bool, w: Text, v: Text, t: Text)
    requires members != [] && MembersPrintable(members)
    requires White(w) && White(v)
    ensures ParseMembers(w + MembersText(members, depth, fmt, v, t)) == Ok(members, t)
    decreases members, 2
  {
    var after := AfterMember(members, depth, fmt, v, t);
    AfterLastMember(fmt, v, t);
    ValueReadsBack(members[0].value, depth, fmt, after);
    if |members| == 1 {
      LastReadsBack(members, depth, fmt, w, v, t);
    } else {
      MembersReadBack(members[1..], depth, fmt, Only(fmt, [NEWLINE]), v, t);
      MoreReadBack(members, depth, fmt, w, v, t);
    }
  }

  lemma LastReadsBack(members: seq<Member>, depth: nat, fmt: bool, w: Text, v: Text, t: Text)
    requires |members| == 1 && Printable(members[0].value) && White(w) && White(v)
    requires var after := AfterMember(members, depth, fmt, v, t);
             ParseValue(Print(members[0].value, depth, fmt) + after) == Ok(members[0].value, after)
    ensures ParseMembers(w + MembersText(members, depth, fmt, v, t)) == Ok(members, t)
  {
    var m, after := members[0], AfterMember(members, depth, fmt, v, t);
    MembersSplit(members, depth, fmt, v, t);
    AfterLastMember(fmt, v, t);
    LastTextReadsBack(m, depth, fmt, w, after, t);
    assert members == [m];
  }

  lemma LastTextReadsBack(m: Member, depth: nat, fmt: bool, w: Text, after: Text, t: Text)
    requires Printable(m.value) && White(w) && Skip(after) == [CLOSE_BRACE] + t
    requires ParseValue(Print(m.value, depth, fmt) + after) == Ok(m.value, after)
    ensures ParseMembers(w + (Only(fmt, Tabs(depth)) + FromName(m, depth, fmt, after))) == Ok([m], t)
  {
    var body := FromName(m, depth, fmt, after);
    FirstMember(m, depth, fmt, w, after);
    assert ([CLOSE_BRACE] + t)[1..] == t;
    LastMember(w + (Only(fmt, Tabs(depth)) + body), body, m, after, t);
  }

  lemma MoreReadBack(members: seq<Member>, depth: nat, fmt: bool, w: Text, v: Text, t: Text)
    requires |members| > 1 && MembersPrintable(members) && White(w)
    requires var after := AfterMember(members, depth, fmt, v, t);
             ParseValue(Print(members[0].value, depth, fmt) + after) == Ok(members[0].value, after)
    requires ParseMembers(Only(fmt, [NEWLINE]) + MembersText(members[1..], depth, fmt, v, t)) == Ok(members[1..], t)
    ensures ParseMembers(w + MembersText(members, depth, fmt, v, t)) == Ok(members, t)
  {
    var m, ms := members[0], members[1..];
    var rest := Only(fmt, [NEWLINE]) + MembersText(ms, depth, fmt, v, t);
    assert ParseMembers(w + MembersText(members, depth, fmt, v, t)) == Ok([m] + ms, t) by {
      MembersSplit(members, depth, fmt, v, t);
      MoreTextReadsBack(m, depth, fmt, w, rest, ms, t);
    }
    HeadAndTail(members);
  }

  lemma MoreTextReadsBack(m: Member, depth: nat, fmt: bool, w: Text, rest: Text, ms: seq<Member>, t: Text)
    requires Printable(m.value) && White(w) && ParseMembers(rest) == Ok(ms, t)
    requires ParseValue(Print(m.value, depth, fmt) + ([COMMA] + rest)) == Ok(m.value, [COMMA] + rest)
    ensures ParseMembers(w + (Only(fmt, Tabs(depth)) + FromName(m, depth, fmt, [COMMA] + rest))) == Ok([m] + ms, t)
  {
    var body := FromName(m, depth, fmt, [COMMA] + rest);
    FirstMember(m, depth, fmt, w, [COMMA] + rest);
    MemberBeforeComma(w + (Only(fmt, Tabs(depth)) + body), body, m, [COMMA] + rest, rest, ms, t);
  }

  // `cJSON_ParseWithOpts(cJSON_Print(v), .., 1)` and the same for
  // `cJSON_PrintUnformatted` rebuild `v`.
  lemma PrintedTextReadsBack(j: Json, fmt: bool)
    requires Printable(j)
    ensures ParseText(Print(j, 0, fmt), true) == Ok(j, [])
  {
    var u := Print(j, 0, fmt);
    assert u + [] == u && [] + u == u;
    SkipToValue([], j, 0, fmt, []);
    ValueReadsBack(j, 0, fmt, []);
  }

  // So distinct values are printed as distinct texts, whatever the layout.
  lemma PrintIsInjective(j: Json, k: Json, f: bool, g: bool)
    requires Printable(j) && Printable(k) && Print(j, 0, f) == Print(k, 0, g)
    ensures j == k
  {
    PrintedTextReadsBack(j, f);
    PrintedTextReadsBack(k, g);
  }
}

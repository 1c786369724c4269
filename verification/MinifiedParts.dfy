/** What `cJSON_Minify` leaves of any text, by the parts the text is made of:
    blanks, comments, literals and single bytes. Stated without its loop. */
module MinifiedParts {
  import opened Bytes
  import opened StringLiteral
  import opened Minifier

  // ----- Where comments end -----

  predicate EndsComment(s: Text, k: nat) {
    k + 1 < |s| && s[k] == '*' as int && s[k + 1] == '/' as int
  }

  predicate NoEnd(s: Text) {
    forall i | 0 <= i < |s| :: !EndsComment(s, i)
  }

  // A block comment ends behind the first `*/`, if there is one.
  lemma {:induction false} BlockDropped(s: Text, k: nat)
    requires EndsComment(s, k) && forall i | 0 <= i < k :: !EndsComment(s, i)
    ensures DropBlock(s) == Left(s[k + 2..])
  {
    if k == 0 {
    } else {
      assert !EndsComment(s, 0);
      forall i | 0 <= i < k - 1 ensures !EndsComment(s[1..], i) {
        assert !EndsComment(s, i + 1);
      }
      BlockDropped(s[1..], k - 1);
      Shift(s, 1, k + 1);
    }
  }

  lemma {:induction false} BlockOpen(s: Text)
    ensures DropBlock(s).Overrun? <==> NoEnd(s)
  {
    if s == [] {
    } else {
      BlockOpen(s[1..]);
      if EndsComment(s, 0) {
      } else if DropBlock(s[1..]).Overrun? {
        forall k | 0 <= k < |s| ensures !EndsComment(s, k) {
          assert k > 0 ==> !EndsComment(s[1..], k - 1);
        }
      } else {
        var k :| 0 <= k < |s| - 1 && EndsComment(s[1..], k);
        assert EndsComment(s, k + 1);
      }
    }
  }

  // A line comment ends in front of the first line break, or with the text.
  lemma {:induction false} LineDropped(s: Text, k: nat)
    requires k <= |s| && (forall i | 0 <= i < k :: s[i] != '\n' as int) && (k < |s| ==> s[k] == '\n' as int)
    ensures DropLine(s) == s[k..]
  {
    if k == 0 {
      assert s[0..] == s;
    } else {
      LineDropped(s[1..], k - 1);
      Shift(s, 1, k - 1);
    }
  }

  // ----- The parts of a text -----

  // Inside a literal: a byte, or a backslash and the byte it covers.
  datatype Raw = Plain(c: TextByte) | Covered(c: TextByte)

  datatype Part =
    | Blank(c: TextByte)
    | Line(body: Text) // behind `//`
    | Block(body: Text) // between `/` and `*/`
    | Quoted(raws: seq<Raw>)
    | Other(c: TextByte)

  predicate IsBlankByte(c: Byte) {
    c == ' ' as int || c == '\t' as int || c == '\r' as int || c == '\n' as int
  }

  // The search for the end starts at the slash of the opener, so that `/*/` is
  // a whole comment; any other has its star at the front of its body.
  predicate IsPart(p: Part) {
    match p
    case Blank(c) => IsBlankByte(c)
    case Line(body) => forall c | c in body :: c != '\n' as int
    case Block(body) => (body == [] || body[0] == '*' as int) && NoEnd(body)
    case Quoted(raws) => forall r | r in raws :: r.Plain? ==> r.c != '"' as int && r.c != '\\' as int
    case Other(c) => !IsBlankByte(c) && c != '"' as int
  }

  // What may stand behind a part: a line comment goes on up to the line break,
  // and a slash in front of a slash or star is no part of its own.
  predicate MayFollow(p: Part, rest: Text) {
    match p
    case Line(_) => rest == [] || rest[0] == '\n' as int
    case Other(c) => c == '/' as int && rest != [] ==> rest[0] != '/' as int && rest[0] != '*' as int
    case _ => true
  }

  function RawText(raws: seq<Raw>): Text {
    if raws == [] then []
    else (if raws[0].Plain? then [raws[0].c] else [BACKSLASH, raws[0].c]) + RawText(raws[1..])
  }

  function PartText(p: Part): Text {
    match p
    case Blank(c) => [c]
    case Line(body) => [SLASH, SLASH] + body
    case Block(body) => [SLASH] + (body + [STAR, SLASH])
    case Quoted(raws) => [QUOTE] + (RawText(raws) + [QUOTE])
    case Other(c) => [c]
  }

  predicate Goes(p: Part) {
    p.Blank? || p.Line? || p.Block?
  }

  function PartsText(ps: seq<Part>): Text {
    if ps == [] then [] else PartText(ps[0]) + PartsText(ps[1..])
  }

  // The parts that stay.
  function KeptText(ps: seq<Part>): Text {
    if ps == [] then [] else (if Goes(ps[0]) then [] else PartText(ps[0])) + KeptText(ps[1..])
  }

  predicate AreParts(ps: seq<Part>, tail: Text) {
    ps == [] || (IsPart(ps[0]) && MayFollow(ps[0], PartsText(ps[1..]) + tail) && AreParts(ps[1..], tail))
  }

  // A literal without its closing quote, perhaps with a backslash at the end.
  predicate OpenWith(s: Text, raws: seq<Raw>) {
    IsPart(Quoted(raws)) && (s == [QUOTE] + RawText(raws) || s == [QUOTE] + (RawText(raws) + [BACKSLASH]))
  }

  ghost predicate OpenLiteral(s: Text) {
    exists raws :: OpenWith(s, raws)
  }

  predicate OpenBlock(s: Text) {
    |s| > 1 && s[0] == '/' as int && s[1] == '*' as int && NoEnd(s)
  }

  // ----- What is left -----

  lemma FirstRaw(r: Raw, raws: seq<Raw>, t: Text)
    ensures RawText([r] + raws) + t == (if r.Plain? then [r.c] else [BACKSLASH, r.c]) + (RawText(raws) + t)
  {
    assert ([r] + raws)[1..] == raws;
  }

  // The end of a literal is its first quote that is not covered.
  lemma {:induction false} RawSpan(raws: seq<Raw>, t: Text)
    requires IsPart(Quoted(raws))
    ensures SpanOf(RawText(raws) + t) == Extend(|RawText(raws)|, SpanOf(t))
  {
    if raws == [] {
      assert RawText(raws) + t == t;
    } else {
      var u, rest := RawText(raws) + t, RawText(raws[1..]) + t;
      assert raws[0] in raws && raws == [raws[0]] + raws[1..];
      FirstRaw(raws[0], raws[1..], t);
      assert u[if raws[0].Plain? then 1 else 2..] == rest;
      RawSpan(raws[1..], t);
    }
  }

  lemma QuotedMinified(raws: seq<Raw>, t: Text)
    requires IsPart(Quoted(raws))
    ensures var u := PartText(Quoted(raws));
            Minify(u + t) == Keep(u, Minify(t))
  {
    var u := PartText(Quoted(raws));
    Regroup([QUOTE], RawText(raws) + [QUOTE], t);
    Regroup(RawText(raws), [QUOTE], t);
    RawSpan(raws, [QUOTE] + t);
    assert (u + t)[1..] == RawText(raws) + ([QUOTE] + t);
    assert (u + t)[..|u|] == u && (u + t)[|u|..] == t;
  }

  lemma LineMinified(body: Text, t: Text)
    requires IsPart(Line(body)) && MayFollow(Line(body), t)
    ensures Minify(PartText(Line(body)) + t) == Minify(t)
  {
    var u := PartText(Line(body)) + t;
    forall i | 0 <= i < |body| + 2 ensures u[i] != '\n' as int {
      assert i >= 2 ==> u[i] == body[i - 2] && body[i - 2] in body;
    }
    LineDropped(u, |body| + 2);
    assert u[|body| + 2..] == t;
  }

  lemma BlockMinified(body: Text, t: Text)
    requires IsPart(Block(body))
    ensures Minify(PartText(Block(body)) + t) == Minify(t)
  {
    var u := PartText(Block(body)) + t;
    var k := |body| + 1;
    assert u[0] == '/' as int && u[k] == '*' as int && u[k + 1] == '/' as int && u[1] == '*' as int;
    forall i | 0 <= i < k ensures !EndsComment(u, i) {
      if i > 0 {
        assert u[i] == body[i - 1];
        assert i < |body| ==> u[i + 1] == body[i];
        assert !EndsComment(body, i - 1);
      }
    }
    BlockDropped(u, k);
    assert u[k + 2..] == t;
  }

  lemma PartMinified(p: Part, t: Text)
    requires IsPart(p) && MayFollow(p, t)
    ensures Minify(PartText(p) + t) == if Goes(p) then Minify(t) else Keep(PartText(p), Minify(t))
  {
    match p
    case Blank(c) => assert ([c] + t)[1..] == t;
    case Line(body) => LineMinified(body, t);
    case Block(body) => BlockMinified(body, t);
    case Quoted(raws) => QuotedMinified(raws, t);
    case Other(c) => assert ([c] + t)[1..] == t;
  }

  // Comments and blanks go, everything else stays as it is and in its order.
  lemma {:induction false} PartsMinified(ps: seq<Part>, tail: Text)
    requires AreParts(ps, tail)
    ensures Minify(PartsText(ps) + tail) == Keep(KeptText(ps), Minify(tail))
  {
    if ps == [] {
      assert PartsText(ps) + tail == tail;
      KeepNothing(Minify(tail));
    } else {
      var rest := PartsText(ps[1..]) + tail;
      Regroup(PartText(ps[0]), PartsText(ps[1..]), tail);
      PartMinified(ps[0], rest);
      PartsMinified(ps[1..], tail);
      if Goes(ps[0]) {
        assert KeptText(ps) == KeptText(ps[1..]);
      } else {
        KeepTwiceIsOnce(PartText(ps[0]), KeptText(ps[1..]), Minify(tail));
      }
    }
  }

  lemma OpenOverruns(s: Text)
    requires OpenLiteral(s) || OpenBlock(s)
    ensures Minify(s).Overrun?
  {
    if OpenBlock(s) {
      BlockOpen(s);
    } else {
      var raws :| OpenWith(s, raws);
      assert s[1..] == RawText(raws) + [] || s[1..] == RawText(raws) + [BACKSLASH];
      RawSpan(raws, []);
      RawSpan(raws, [BACKSLASH]);
    }
  }

  // ----- Every text has parts -----

  lemma {:induction false} LineSplit(s: Text) returns (body: Text, t: Text)
    ensures s == body + t && (forall c | c in body :: c != '\n' as int) && (t == [] || t[0] == '\n' as int)
  {
    if s == [] || s[0] == NEWLINE {
      body, t := [], s;
    } else {
      body, t := LineSplit(s[1..]);
      body := [s[0]] + body;
    }
  }

  lemma {:induction false} FirstEnd(s: Text) returns (k: nat)
    requires !NoEnd(s)
    ensures EndsComment(s, k) && forall i | 0 <= i < k :: !EndsComment(s, i)
  {
    k := 0;
    if !EndsComment(s, 0) {
      var j :| 0 <= j < |s| && EndsComment(s, j);
      assert EndsComment(s[1..], j - 1);
      k := FirstEnd(s[1..]);
      forall i | 0 <= i < k + 1 ensures !EndsComment(s, i) {
        assert i > 0 ==> !EndsComment(s[1..], i - 1);
      }
      k := k + 1;
    }
  }

  lemma {:induction false} RawSplit(s: Text) returns (raws: seq<Raw>, t: Text)
    ensures IsPart(Quoted(raws)) && s == RawText(raws) + t && (t == [] || t == [BACKSLASH] || t[0] == QUOTE)
    decreases |s|
  {
    if s == [] || s[0] == QUOTE || s == [BACKSLASH] {
      raws, t := [], s;
    } else {
      var r := if s[0] == BACKSLASH then Covered(s[1]) else Plain(s[0]);
      raws, t := RawSplit(s[if s[0] == BACKSLASH then 2 else 1..]);
      FirstRaw(r, raws, t);
      raws := [r] + raws;
    }
  }

  lemma BlockSplit(s: Text) returns (p: Part, t: Text)
    requires |s| > 1 && s[0] == SLASH && s[1] == STAR && !OpenBlock(s)
    ensures IsPart(p) && MayFollow(p, t) && s == PartText(p) + t
  {
    var k := FirstEnd(s);
    var body := s[1..k];
    forall i | 0 <= i < |body| ensures !EndsComment(body, i) {
      assert !EndsComment(s, i + 1);
    }
    p, t := Block(body), s[k + 2..];
    assert s == [SLASH] + (body + [STAR, SLASH]) + t;
  }

  lemma QuotedSplit(s: Text) returns (p: Part, t: Text)
    requires Head(s) == QUOTE && !OpenLiteral(s)
    ensures IsPart(p) && MayFollow(p, t) && s == PartText(p) + t
  {
    var raws, u := RawSplit(s[1..]);
    assert s == [QUOTE] + (RawText(raws) + u);
    assert u == [] ==> RawText(raws) + u == RawText(raws);
    assert !OpenWith(s, raws);
    p, t := Quoted(raws), u[1..];
    assert u == [QUOTE] + t;
    assert s == [QUOTE] + (RawText(raws) + [QUOTE]) + t;
  }

  lemma FirstPart(s: Text) returns (p: Part, t: Text)
    requires s != [] && !OpenLiteral(s) && !OpenBlock(s)
    ensures IsPart(p) && MayFollow(p, t) && s == PartText(p) + t
  {
    if IsBlankByte(s[0]) {
      p, t := Blank(s[0]), s[1..];
    } else if LineComment(s) {
      var body;
      body, t := LineSplit(s[2..]);
      p := Line(body);
      assert s == [SLASH, SLASH] + body + t;
    } else if BlockComment(s) {
      p, t := BlockSplit(s);
    } else if s[0] == QUOTE {
      p, t := QuotedSplit(s);
    } else {
      p, t := Other(s[0]), s[1..];
    }
  }

  lemma {:induction false} Parted(s: Text) returns (ps: seq<Part>, tail: Text)
    ensures AreParts(ps, tail) && s == PartsText(ps) + tail && (tail == [] || OpenLiteral(tail) || OpenBlock(tail))
    decreases |s|
  {
    if s == [] || OpenLiteral(s) || OpenBlock(s) {
      ps, tail := [], s;
    } else {
      var p, t := FirstPart(s);
      var rest;
      rest, tail := Parted(t);
      Regroup(PartText(p), PartsText(rest), tail);
      ps := [p] + rest;
      assert ps[1..] == rest;
    }
  }

  // ----- The law -----

  // `s` is made of these parts and ends with them.
  predicate MadeOf(s: Text, ps: seq<Part>) {
    AreParts(ps, []) && s == PartsText(ps)
  }

  // What is left of a text are the parts that stay, whichever way it is taken
  // apart; and the minifier overruns exactly where a text has no parts up to its
  // end, which is where a literal or a block comment is left open.
  lemma MinifiedExactly(s: Text)
    ensures forall ps | MadeOf(s, ps) :: Minify(s) == Left(KeptText(ps))
    ensures Minify(s).Left? <==> exists ps :: MadeOf(s, ps)
  {
    forall ps | MadeOf(s, ps) ensures Minify(s) == Left(KeptText(ps)) {
      PartsMinified(ps, []);
      assert PartsText(ps) + [] == s && KeptText(ps) + [] == KeptText(ps);
    }
    var ps, tail := Parted(s);
    PartsMinified(ps, tail);
    if tail == [] {
      assert PartsText(ps) + tail == PartsText(ps);
      assert MadeOf(s, ps);
    } else {
      OpenOverruns(tail);
    }
  }

  lemma RegroupComment(c: Text, t: Text)
    ensures [SLASH, STAR] + c + [STAR, SLASH] + t == [SLASH] + ([STAR] + c + [STAR, SLASH]) + t
    ensures c != [] ==>
              [SLASH] + ([STAR] + c + [STAR, SLASH]) + t == [SLASH, STAR] + [c[0]] + (c[1..] + [STAR, SLASH] + t)
    ensures [SLASH] + ([] + [STAR, SLASH]) == [SLASH, STAR] + [SLASH]
  {
  }

  // A comment goes, whatever stands in it and behind it; but one whose body
  // starts with a slash ends right there.
  lemma CommentDropped(c: Text, t: Text)
    requires NoEnd(c)
    ensures Minify([SLASH, STAR] + c + [STAR, SLASH] + t)
         == if Head(c) == SLASH then Minify(c[1..] + [STAR, SLASH] + t) else Minify(t)
  {
    RegroupComment(c, t);
    if Head(c) == SLASH {
      BlockMinified([], c[1..] + [STAR, SLASH] + t);
    } else {
      StarInFront(c);
      BlockMinified([STAR] + c, t);
    }
  }

  lemma StarInFront(c: Text)
    requires NoEnd(c) && Head(c) != SLASH
    ensures IsPart(Block([STAR] + c))
  {
    var body := [STAR] + c;
    forall i | 0 <= i < |body| ensures !EndsComment(body, i) {
      assert i > 0 ==> !EndsComment(c, i - 1);
    }
  }
}

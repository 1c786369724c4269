/** `cJSON_Minify`: what it leaves of a text, and the in-place loop that does it. */
module Minifier {
  import opened Bytes
  import opened StringLiteral

  // `Overrun` where the C loop steps over the terminator and reads on: in a
  // literal without a closing quote, or in a block comment without its end.
  datatype Minified = Left(text: Text) | Overrun

  function Keep(p: Text, m: Minified): Minified {
    match m
    case Left(t) => Left(p + t)
    case Overrun => Overrun
  }

  predicate IsBlank(c: Byte) {
    c == SPACE || c == TAB || c == RETURN || c == NEWLINE
  }

  function DropLine(s: Text): (r: Text)
    ensures |r| <= |s| && (Head(s) == SLASH ==> |r| < |s|)
  {
    if s == [] || s[0] == NEWLINE then s else DropLine(s[1..])
  }

  // Just behind the next `*/`, searched from the `/` of the opener on.
  function DropBlock(s: Text): (m: Minified)
    ensures m.Left? ==> |m.text| < |s|
  {
    if s == [] then Overrun
    else if s[0] == STAR && At(s, 1) == SLASH then Left(s[2..])
    else DropBlock(s[1..])
  }

  predicate LineComment(s: Text) {
    Head(s) == SLASH && At(s, 1) == SLASH
  }

  predicate BlockComment(s: Text) {
    Head(s) == SLASH && At(s, 1) == STAR
  }

  function Minify(s: Text): Minified
    decreases |s|
  {
    if s == [] then Left([])
    else if IsBlank(s[0]) then Minify(s[1..])
    else if LineComment(s) then Minify(DropLine(s))
    else if BlockComment(s) then
      match DropBlock(s)
      case Left(r) => Minify(r)
      case Overrun => Overrun
    else if s[0] == QUOTE then
      match SpanOf(s[1..])
      case Closed(n) => Keep(s[..n + 2], Minify(s[n + 2..]))
      case _ => Overrun
    else Keep([s[0]], Minify(s[1..]))
  }

  lemma KeepTwiceIsOnce(p: Text, q: Text, m: Minified)
    ensures Keep(p, Keep(q, m)) == Keep(p + q, m)
  {
    if m.Left? {
      assert p + (q + m.text) == p + q + m.text;
    }
  }

  // ----- The loop -----

  method LineEnd(a: array<Byte>, from: nat, ghost s: Text) returns (p: nat)
    requires from <= |s| < a.Length && a[|s|] == 0
    requires forall i {:trigger a[i]} | from <= i < |s| :: a[i] == s[i]
    ensures from <= p <= |s| && s[p..] == DropLine(s[from..])
  {
    p := from;
    while a[p] != 0 && a[p] != NEWLINE
      invariant from <= p <= |s| && DropLine(s[p..]) == DropLine(s[from..])
      decreases |s| - p
    {
      assert s[p..][1..] == s[p + 1..];
      p := p + 1;
    }
  }

  method BlockEnd(a: array<Byte>, from: nat, ghost s: Text) returns (p: nat)
    requires from <= |s| < a.Length && a[|s|] == 0
    requires forall i {:trigger a[i]} | from <= i < |s| :: a[i] == s[i]
    requires DropBlock(s[from..]).Left?
    ensures from <= p <= |s| && s[p..] == DropBlock(s[from..]).text
  {
    p := from;
    while a[p] != 0 && !(a[p] == STAR && a[p + 1] == SLASH)
      invariant from <= p <= |s| && DropBlock(s[p..]) == DropBlock(s[from..])
      decreases |s| - p
    {
      assert s[p..][1..] == s[p + 1..];
      p := p + 1;
    }
    assert s[p..][2..] == s[p + 2..];
    p := p + 2;
  }

  lemma SpanStep(s: Text, p: nat, end: nat) returns (next: nat)
    requires p < |s| && p <= end && s[p] != QUOTE && SpanOf(s[p..]) == Closed(end - p)
    ensures next == p + (if s[p] == BACKSLASH then 2 else 1) && next <= end
    ensures SpanOf(s[next..]) == Closed(end - next)
  {
    next := p + (if s[p] == BACKSLASH then 2 else 1);
    assert s[p..][next - p..] == s[next..];
  }

  // The bytes from `from` on are still those of the text.
  ghost predicate Unread(a: array<Byte>, from: nat, s: Text)
    reads a
  {
    |s| < a.Length && a[|s|] == 0 && forall i {:trigger a[i]} | from <= i < |s| :: a[i] == s[i]
  }

  // `*into++ = *json++;`
  method CopyByte(a: array<Byte>, to: nat, from: nat) returns (into: nat, json: nat)
    requires to <= from < a.Length
    modifies a
    ensures into == to + 1 && json == from + 1 && a[to] == old(a[from])
    ensures forall i {:trigger a[i]} | 0 <= i < to || from < i < a.Length :: a[i] == old(a[i])
  {
    a[to] := a[from];
    into, json := to + 1, from + 1;
  }

  // One byte of a literal, and the one behind it too if it is a backslash.
  method CopyPiece(a: array<Byte>, to: nat, from: nat) returns (into: nat, json: nat)
    requires to <= from < a.Length && (a[from] == BACKSLASH ==> from + 1 < a.Length)
    modifies a
    ensures json == from + (if old(a[from]) == BACKSLASH then 2 else 1) && into == to + (json - from)
    ensures a[to] == old(a[from]) && (json == from + 2 ==> a[to + 1] == old(a[from + 1]))
    ensures forall i {:trigger a[i]} | 0 <= i < to || json <= i < a.Length :: a[i] == old(a[i])
  {
    into, json := to, from;
    if a[json] == BACKSLASH {
      into, json := CopyByte(a, into, json);
    }
    into, json := CopyByte(a, into, json);
  }

  // One byte or escaped pair of a literal that ends at `end`.
  method NextPiece(a: array<Byte>, to: nat, from: nat, ghost s: Text, ghost end: nat) returns (into: nat, json: nat)
    requires to <= from < end < |s| && Unread(a, from, s) && s[from] != QUOTE && SpanOf(s[from..]) == Closed(end - from)
    modifies a
    ensures from < json <= end && into == to + (json - from) && SpanOf(s[json..]) == Closed(end - json)
    ensures Unread(a, json, s)
    ensures forall i {:trigger a[i]} | to <= i < into :: a[i] == s[i + (from - to)]
    ensures forall i {:trigger a[i]} | 0 <= i < to || json <= i < a.Length :: a[i] == old(a[i])
  {
    assert a[from] == s[from];
    ghost var next := SpanStep(s, from, end);
    into, json := CopyPiece(a, to, from);
  }

  // Copies from behind an opening quote to behind the closing one.
  method CopyLiteral(a: array<Byte>, to: nat, from: nat, ghost s: Text) returns (into: nat, json: nat)
    requires to <= from <= |s| && Unread(a, from, s) && SpanOf(s[from..]).Closed?
    modifies a
    ensures json == from + SpanOf(s[from..]).n + 1 <= |s| && into == to + (json - from)
    ensures forall i {:trigger a[i]} | to <= i < into :: a[i] == s[i + (from - to)]
    ensures forall i {:trigger a[i]} | 0 <= i < to || json <= i < a.Length :: a[i] == old(a[i])
  {
    into, json := to, from;
    ghost var d, end := from - to, from + SpanOf(s[from..]).n;
    while a[json] != 0 && a[json] != QUOTE
      invariant from <= json <= end < |s| && s[end] == QUOTE && into == json - d >= 0 && Unread(a, json, s)
      invariant SpanOf(s[json..]) == Closed(end - json)
      invariant forall i {:trigger a[i]} | to <= i < into :: a[i] == s[i + d]
      invariant forall i {:trigger a[i]} | 0 <= i < to || json <= i < a.Length :: a[i] == old(a[i])
      decreases end - json
    {
      assert a[json] == s[json];
      into, json := NextPiece(a, into, json, s, end);
    }
    assert a[json] == s[json];
    SpanAtQuote(s, json);
    into, json := CopyByte(a, into, json);
  }

  lemma SpanAtQuote(s: Text, p: nat)
    requires p < |s| && SpanOf(s[p..]).Closed?
    ensures s[p] == QUOTE ==> SpanOf(s[p..]) == Closed(0)
  {
  }

  lemma DropTwice(s: Text, from: nat, k: nat)
    requires from + k <= |s|
    ensures s[from..][k..] == s[from + k..] && s[from..][..k] == s[from..from + k]
  {
  }

  lemma BlankStep(s: Text, p: nat)
    requires p < |s| && IsBlank(s[p])
    ensures Minify(s[p..]) == Minify(s[p + 1..])
  {
    DropTwice(s, p, 1);
  }

  lemma CommentStep(s: Text, p: nat)
    requires p < |s| && Minify(s[p..]).Left?
    ensures LineComment(s[p..]) ==> Minify(s[p..]) == Minify(DropLine(s[p..]))
    ensures BlockComment(s[p..]) ==> DropBlock(s[p..]).Left? && Minify(s[p..]) == Minify(DropBlock(s[p..]).text)
  {
  }

  lemma PlainStep(s: Text, p: nat)
    requires p < |s| && s[p] != QUOTE && !IsBlank(s[p]) && !LineComment(s[p..]) && !BlockComment(s[p..])
    ensures KeptUpTo(s, p, p + 1)
  {
    DropTwice(s, p, 1);
    assert s[p..p + 1] == [s[p]];
  }

  lemma QuoteForm(u: Text) returns (k: nat)
    requires Head(u) == QUOTE && Minify(u).Left?
    ensures 2 <= k <= |u| && SpanOf(u[1..]) == Closed(k - 2) && Minify(u) == Keep(u[..k], Minify(u[k..]))
  {
    k := SpanOf(u[1..]).n + 2;
  }

  // `Minify` in terms of places: what is kept from `p` on ends at `next`.
  predicate KeptUpTo(s: Text, p: nat, next: nat)
    requires p <= next <= |s|
  {
    Minify(s[p..]) == Keep(s[p..next], Minify(s[next..]))
  }

  lemma KeptInPlace(s: Text, p: nat, k: nat)
    requires p + k <= |s|
    ensures var u := s[p..];
            KeptUpTo(s, p, p + k) <==> Minify(u) == Keep(u[..k], Minify(u[k..]))
  {
    DropTwice(s, p, k);
  }

  lemma LiteralStep(s: Text, p: nat) returns (next: nat)
    requires p < |s| && s[p] == QUOTE && Minify(s[p..]).Left?
    ensures p + 2 <= next <= |s| && SpanOf(s[p + 1..]) == Closed(next - p - 2) && KeptUpTo(s, p, next)
  {
    var k := QuoteForm(s[p..]);
    DropTwice(s, p, 1);
    KeptInPlace(s, p, k);
    next := p + k;
  }

  // The unread part of the buffer is untouched because the writing index
  // never passes the reading one.
  method MinifyInPlace(a: array<Byte>, ghost s: Text)
    requires Holds(a, s) && Minify(s).Left?
    modifies a
    ensures Holds(a, Minify(s).text) && |Minify(s).text| <= |s|
    ensures a[|s|..] == old(a[|s|..])
  {
    var into, json := 0, 0;
    assert forall i {:trigger a[i]} | 0 <= i < |s| :: a[i] == a[..|s|][i];
    ghost var done: Text := [];
    Whole(s);
    while a[json] != 0
      invariant 0 <= into <= json <= |s| && Unread(a, json, s) && Minify(s[json..]).Left?
      invariant forall i {:trigger a[i]} | |s| <= i < a.Length :: a[i] == old(a[i])
      invariant a[..into] == done && Minify(s) == Keep(done, Minify(s[json..]))
      decreases |s| - json
    {
      assert a[json] == s[json];
      into, json, done := Turn(a, into, json, s, done);
    }
    NothingLeft(s, done);
    a[into] := 0;
  }

  lemma Whole(s: Text)
    ensures s[0..] == s && Minify(s) == Keep([], Minify(s))
  {
    KeepNothing(Minify(s));
  }

  lemma NothingLeft(s: Text, done: Text)
    ensures Keep(done, Minify(s[|s|..])) == Left(done)
  {
    assert s[|s|..] == [] && done + [] == done;
  }

  // One turn adds to what is done.
  method Turn(a: array<Byte>, to: nat, from: nat, ghost s: Text, ghost done: Text)
    returns (into: nat, json: nat, ghost more: Text)
    requires to <= from < |s| && Unread(a, from, s) && Minify(s[from..]).Left? && a[..to] == done
    modifies a
    ensures from < json <= |s| && to <= into <= json && Unread(a, json, s) && Minify(s[json..]).Left?
    ensures forall i {:trigger a[i]} | |s| <= i < a.Length :: a[i] == old(a[i])
    ensures a[..into] == more && Keep(done, Minify(s[from..])) == Keep(more, Minify(s[json..]))
  {
    ghost var kept;
    into, json, kept := Step(a, to, from, s);
    assert a[..into] == a[..to] + a[to..into];
    KeepTwiceIsOnce(done, kept, Minify(s[json..]));
    more := done + kept;
  }

  // One turn of the loop: what it skips, or what it copies down.
  method Step(a: array<Byte>, to: nat, from: nat, ghost s: Text) returns (into: nat, json: nat, ghost kept: Text)
    requires to <= from < |s| && Unread(a, from, s) && Minify(s[from..]).Left?
    modifies a
    ensures from < json <= |s| && to <= into <= json && Unread(a, json, s)
    ensures forall i {:trigger a[i]} | 0 <= i < to || |s| <= i < a.Length :: a[i] == old(a[i])
    ensures a[to..into] == kept && Minify(s[from..]) == Keep(kept, Minify(s[json..]))
  {
    into, json, kept := to, from, [];
    assert a[from] == s[from] && (from + 1 < |s| ==> a[from + 1] == s[from + 1]);
    if a[json] == SPACE || a[json] == TAB || a[json] == RETURN || a[json] == NEWLINE {
      BlankStep(s, from);
      json := json + 1;
      KeepNothing(Minify(s[json..]));
    } else if a[json] == SLASH && (a[json + 1] == SLASH || a[json + 1] == STAR) {
      CommentStep(s, from);
      if a[json + 1] == SLASH {
        json := LineEnd(a, json, s);
      } else {
        json := BlockEnd(a, json, s);
      }
      KeepNothing(Minify(s[json..]));
    } else {
      PartKept(s, from);
      into, json := CopyPart(a, to, from, s);
      kept := s[from..json];
      CopiedAre(a, to, into, from, s);
    }
  }

  lemma KeepNothing(m: Minified)
    ensures Keep([], m) == m
  {
    if m.Left? {
      assert [] + m.text == m.text;
    }
  }

  // What is copied in one turn ends here.
  function PartEnd(s: Text, from: nat): nat
    requires from < |s| && (s[from] == QUOTE ==> SpanOf(s[from + 1..]).Closed?)
  {
    if s[from] == QUOTE then from + SpanOf(s[from + 1..]).n + 2 else from + 1
  }

  lemma PartKept(s: Text, from: nat)
    requires from < |s| && Minify(s[from..]).Left?
    requires !IsBlank(s[from]) && !LineComment(s[from..]) && !BlockComment(s[from..])
    ensures s[from] == QUOTE ==> SpanOf(s[from + 1..]).Closed?
    ensures from < PartEnd(s, from) <= |s| && KeptUpTo(s, from, PartEnd(s, from))
  {
    if s[from] == QUOTE {
      var next := LiteralStep(s, from);
    } else {
      PlainStep(s, from);
    }
  }

  // One literal, or one byte that is neither blank nor the start of a comment.
  method CopyPart(a: array<Byte>, to: nat, from: nat, ghost s: Text) returns (into: nat, json: nat)
    requires to <= from < |s| && Unread(a, from, s) && (s[from] == QUOTE ==> SpanOf(s[from + 1..]).Closed?)
    modifies a
    ensures json == PartEnd(s, from) <= |s| && into == to + (json - from) && Unread(a, json, s)
    ensures forall i {:trigger a[i]} | 0 <= i < to || |s| <= i < a.Length :: a[i] == old(a[i])
    ensures forall i {:trigger a[i]} | to <= i < into :: a[i] == s[i + (from - to)]
  {
    assert a[from] == s[from];
    if a[from] == QUOTE {
      into, json := CopyQuoted(a, to, from, s);
    } else {
      into, json := CopyByte(a, to, from);
    }
  }

  lemma CopiedAre(a: array<Byte>, to: nat, into: nat, from: nat, s: Text)
    requires to <= into <= a.Length && to <= from && from + (into - to) <= |s|
    requires forall i {:trigger a[i]} | to <= i < into :: a[i] == s[i + (from - to)]
    ensures a[to..into] == s[from..from + (into - to)]
  {
  }

  // The opening quote, and the literal behind it.
  method CopyQuoted(a: array<Byte>, to: nat, from: nat, ghost s: Text) returns (into: nat, json: nat)
    requires to <= from < |s| && Unread(a, from, s) && s[from] == QUOTE && SpanOf(s[from + 1..]).Closed?
    modifies a
    ensures json == from + SpanOf(s[from + 1..]).n + 2 <= |s| && into == to + (json - from) && Unread(a, json, s)
    ensures forall i {:trigger a[i]} | 0 <= i < to || |s| <= i < a.Length :: a[i] == old(a[i])
    ensures forall i {:trigger a[i]} | to <= i < into :: a[i] == s[i + (from - to)]
  {
    into, json := CopyByte(a, to, from);
    into, json := CopyLiteral(a, into, json, s);
  }
}

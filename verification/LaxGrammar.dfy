/** The language the parser takes, which is more than the grammar, and what it
    reads in there, which is less than what the text stands for. */
module LaxGrammar {
  import opened Bytes
  import opened Unicode
  import opened StringLiteral
  import opened JsonValues
  import opened RoundTrip
  import opened Grammar

  // ----- What is taken -----

  // No digits behind the letter count as a zero.
  predicate LaxExp(e: Exp) {
    e.Exp? ==> (e.letter == LOWER_E || e.letter == UPPER_E) && AllDigits(e.part)
  }

  // One zero may stand in front of the digits, and behind a minus sign there need
  // not be any.
  predicate LaxNumeral(n: Numeral) {
    && AllDigits(n.whole) && (n.whole == [] ==> n.minus)
    && (|n.whole| > 1 && n.whole[0] == ZERO ==> n.whole[1] != ZERO)
    && AllDigits(n.fraction) && LaxExp(n.exp)
  }

  // Control bytes stand for themselves, and so does every letter behind a
  // backslash; four bytes that are no hexadecimal digits count as a zero.
  predicate LaxPiece(p: Piece) {
    match p
    case Unescaped(c) => c != QUOTE && c != BACKSLASH
    case Letter(c) => c != LOWER_U
    case Code(h) => |h| == 4 && FourPlain(h)
  }

  predicate LaxPieces(ps: seq<Piece>) {
    forall p | p in ps :: LaxPiece(p)
  }

  // Every byte up to the space is white space.
  predicate LaxSyntax(x: Syntax) {
    match x
    case Number(n) => LaxNumeral(n)
    case Quoted(ps) => LaxPieces(ps)
    case EmptyArray(w) => White(w)
    case EmptyObject(w) => White(w)
    case ArrayOf(items) => items != [] && LaxEntries(items)
    case ObjectOf(members) => members != [] && LaxPairs(members)
    case _ => true
  }

  predicate LaxEntries(es: seq<Entry>) {
    es == [] || (White(es[0].before) && LaxSyntax(es[0].value) && White(es[0].behind) && LaxEntries(es[1..]))
  }

  predicate LaxPairs(ms: seq<Pair>) {
    ms == [] ||
    (&& White(ms[0].before) && LaxPieces(ms[0].name) && White(ms[0].behindName)
     && White(ms[0].beforeValue) && LaxSyntax(ms[0].value) && White(ms[0].behind) && LaxPairs(ms[1..]))
  }

  // The grammar is part of that.
  lemma PieceIsLax(p: Piece)
    requires IsPiece(p)
    ensures LaxPiece(p)
  {
  }

  lemma PiecesAreLax(ps: seq<Piece>)
    requires forall p | p in ps :: IsPiece(p)
    ensures LaxPieces(ps)
  {
    forall p | p in ps ensures LaxPiece(p) {
      PieceIsLax(p);
    }
  }

  lemma {:induction false} SyntaxIsLax(x: Syntax)
    requires IsSyntax(x)
    ensures LaxSyntax(x)
    decreases x, 1
  {
    match x
    case Quoted(ps) => PiecesAreLax(ps);
    case ArrayOf(items) => EntriesAreLax(items);
    case ObjectOf(members) => PairsAreLax(members);
    case _ =>
  }

  lemma {:induction false} EntriesAreLax(es: seq<Entry>)
    requires AreEntries(es)
    ensures LaxEntries(es)
    decreases es, 0
  {
    if es == [] {
    } else {
      SyntaxIsLax(es[0].value);
      EntriesAreLax(es[1..]);
    }
  }

  lemma {:induction false} PairsAreLax(ms: seq<Pair>)
    requires ArePairs(ms)
    ensures LaxPairs(ms)
    decreases ms, 0
  {
    if ms == [] {
    } else {
      PiecesAreLax(ms[0].name);
      SyntaxIsLax(ms[0].value);
      PairsAreLax(ms[1..]);
    }
  }

  // ----- What is read -----

  // A high half takes the escape behind it along, whatever that is.
  predicate TakesTwo(ps: seq<Piece>) {
    |ps| > 1 && ps[0].Code? && High(Hex4(ps[0].h)) && ps[1].Code?
  }

  function PiecesLeft(ps: seq<Piece>): Text {
    if ps == [] then []
    else if TakesTwo(ps) then
      (if StartsPair(ps) then Utf8(PairValue(Hex4(ps[0].h), Hex4(ps[1].h))) else []) + PiecesLeft(ps[2..])
    else FirstValue(ps[0]) + PiecesLeft(ps[1..])
  }

  // Somewhere a high half stands in front of an escape that is a character, or
  // the first half of one.
  predicate Loses(ps: seq<Piece>) {
    if ps == [] then false
    else if StartsPair(ps) then Loses(ps[2..])
    else if TakesTwo(ps) then Scalar(Hex4(ps[1].h)) || StartsPair(ps[1..]) || Loses(ps[2..])
    else Loses(ps[1..])
  }

  // Exactly then what is read is not what the pieces stand for; it is shorter.
  lemma {:induction false} LeftUnlessLost(ps: seq<Piece>)
    ensures |PiecesLeft(ps)| <= |PiecesValue(ps)|
    ensures PiecesLeft(ps) == PiecesValue(ps) <==> !Loses(ps)
    ensures Loses(ps) ==> |PiecesLeft(ps)| < |PiecesValue(ps)|
    decreases |ps|
  {
    if ps == [] {
    } else if TakesTwo(ps) {
      LeftUnlessLost(ps[2..]);
      assert ps[1..][1..] == ps[2..];
      if !StartsPair(ps) && StartsPair(ps[1..]) {
        assert ps[1..][2..] == ps[2..][1..];
      }
    } else {
      LeftUnlessLost(ps[1..]);
    }
  }

  function SyntaxLeft(x: Syntax): Json {
    match x
    case Quoted(ps) => String(PiecesLeft(ps))
    case ArrayOf(items) => Array(EntriesLeft(items))
    case ObjectOf(members) => Object(PairsLeft(members))
    case _ => SyntaxValue(x)
  }

  function EntriesLeft(es: seq<Entry>): seq<Json> {
    if es == [] then [] else [SyntaxLeft(es[0].value)] + EntriesLeft(es[1..])
  }

  function PairsLeft(ms: seq<Pair>): seq<Member> {
    if ms == [] then []
    else [Member(PiecesLeft(ms[0].name), SyntaxLeft(ms[0].value))] + PairsLeft(ms[1..])
  }

  predicate SyntaxLoses(x: Syntax) {
    match x
    case Quoted(ps) => Loses(ps)
    case ArrayOf(items) => EntriesLose(items)
    case ObjectOf(members) => PairsLose(members)
    case _ => false
  }

  predicate EntriesLose(es: seq<Entry>) {
    es != [] && (SyntaxLoses(es[0].value) || EntriesLose(es[1..]))
  }

  predicate PairsLose(ms: seq<Pair>) {
    ms != [] && (Loses(ms[0].name) || SyntaxLoses(ms[0].value) || PairsLose(ms[1..]))
  }

  lemma {:induction false} ReadUnlessLost(x: Syntax)
    ensures SyntaxLeft(x) == SyntaxValue(x) <==> !SyntaxLoses(x)
    decreases x, 1
  {
    match x
    case Quoted(ps) => LeftUnlessLost(ps);
    case ArrayOf(items) => EntriesUnlessLost(items);
    case ObjectOf(members) => PairsUnlessLost(members);
    case _ =>
  }

  lemma SameParts<T>(a: T, s: seq<T>, b: T, t: seq<T>)
    ensures [a] + s == [b] + t <==> a == b && s == t
  {
    if [a] + s == [b] + t {
      assert s == ([a] + s)[1..] && t == ([b] + t)[1..] && ([a] + s)[0] == ([b] + t)[0];
    }
  }

  lemma {:induction false} EntriesUnlessLost(es: seq<Entry>)
    ensures EntriesLeft(es) == EntriesValue(es) <==> !EntriesLose(es)
    decreases es, 0
  {
    if es == [] {
    } else {
      ReadUnlessLost(es[0].value);
      EntriesUnlessLost(es[1..]);
      SameParts(SyntaxLeft(es[0].value), EntriesLeft(es[1..]), SyntaxValue(es[0].value), EntriesValue(es[1..]));
    }
  }

  lemma {:induction false} PairsUnlessLost(ms: seq<Pair>)
    ensures PairsLeft(ms) == PairsValue(ms) <==> !PairsLose(ms)
    decreases ms, 0
  {
    if ms == [] {
    } else {
      var m := ms[0];
      LeftUnlessLost(m.name);
      ReadUnlessLost(m.value);
      PairsUnlessLost(ms[1..]);
      SameParts(Member(PiecesLeft(m.name), SyntaxLeft(m.value)), PairsLeft(ms[1..]),
                Member(PiecesValue(m.name), SyntaxValue(m.value)), PairsValue(ms[1..]));
    }
  }
}

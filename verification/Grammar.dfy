/** The grammar of RFC 8259, sections 2 to 7, and what its texts stand for,
    stated without the parser: a syntax tree says how a text is put together,
    white space and spelling of escapes and numbers included. */
module Grammar {
  import opened Bytes
  import opened Unicode
  import opened JsonValues

  // ----- White space, section 2 -----

  predicate Ws(w: Text) {
    forall i | 0 <= i < |w| :: w[i] == SPACE || w[i] == TAB || w[i] == NEWLINE || w[i] == RETURN
  }

  // ----- Numbers, section 6 -----

  datatype Sign = NoSign | Plus | Minus

  // `part` is the digits of the exponent; there is none without the letter.
  datatype Exp = NoExp | Exp(letter: TextByte, sign: Sign, part: Text)

  datatype Numeral = Numeral(minus: bool, whole: Text, fraction: Text, exp: Exp)

  predicate AllDigits(s: Text) {
    forall c | c in s :: IsDigit(c)
  }

  predicate IsExp(e: Exp) {
    e.Exp? ==> (e.letter == LOWER_E || e.letter == UPPER_E) && e.part != [] && AllDigits(e.part)
  }

  predicate IsNumeral(n: Numeral) {
    && n.whole != [] && AllDigits(n.whole) && (n.whole[0] == ZERO ==> |n.whole| == 1)
    && AllDigits(n.fraction)
    && IsExp(n.exp)
  }

  function SignText(s: Sign): Text {
    match s
    case NoSign => []
    case Plus => [PLUS]
    case Minus => [MINUS]
  }

  function ExpText(e: Exp): Text {
    if e.NoExp? then [] else [e.letter] + SignText(e.sign) + e.part
  }

  function FractionText(s: Text): Text {
    if s == [] then [] else [DOT] + s
  }

  function NumeralText(n: Numeral): Text {
    (if n.minus then [MINUS] else []) + n.whole + FractionText(n.fraction) + ExpText(n.exp)
  }

  // The value of digits in front of the point, and of digits behind it.
  function WholeValue(s: Text): int {
    if s == [] then 0 else WholeValue(s[..|s| - 1]) * 10 + (s[|s| - 1] - ZERO)
  }

  function FractionValue(s: Text): real {
    if s == [] then 0.0 else ((s[0] - ZERO) as real + FractionValue(s[1..])) / 10.0
  }

  function ExpValue(e: Exp): int {
    if e.NoExp? then 0 else if e.sign.Minus? then -WholeValue(e.part) else WholeValue(e.part)
  }

  // The point moved by `e` places.
  function Moved(x: real, e: int): real
    decreases if e < 0 then -e else e
  {
    if e == 0 then x else if e > 0 then Moved(x * 10.0, e - 1) else Moved(x / 10.0, e + 1)
  }

  function Signed(minus: bool, x: real): real {
    if minus then -x else x
  }

  function NumeralValue(n: Numeral): real {
    Signed(n.minus, Moved(WholeValue(n.whole) as real + FractionValue(n.fraction), ExpValue(n.exp)))
  }

  // ----- Strings, section 7 -----

  datatype Piece =
    | Unescaped(c: TextByte) // a byte of the UTF-8 text
    | Letter(c: TextByte) // behind a backslash
    | Code(h: Text) // four hexadecimal digits behind `\u`

  predicate IsPiece(p: Piece) {
    match p
    case Unescaped(c) => c >= SPACE && c != QUOTE && c != BACKSLASH
    case Letter(c) =>
      || c == QUOTE || c == BACKSLASH || c == SLASH
      || c == LOWER_B || c == LOWER_F || c == LOWER_N || c == LOWER_R || c == LOWER_T
    case Code(h) => |h| == 4 && FourHex(h)
  }

  function PieceText(p: Piece): Text {
    match p
    case Unescaped(c) => [c]
    case Letter(c) => [BACKSLASH, c]
    case Code(h) => [BACKSLASH, LOWER_U] + h
  }

  function LetterValue(c: TextByte): TextByte {
    if c == LOWER_B then BACKSPACE
    else if c == LOWER_F then FORM_FEED
    else if c == LOWER_N then NEWLINE
    else if c == LOWER_R then RETURN
    else if c == LOWER_T then TAB
    else c
  }

  predicate High(u: int) {
    0xD800 <= u <= 0xDBFF
  }

  predicate Low(u: int) {
    0xDC00 <= u <= 0xDFFF
  }

  function PairValue(hi: int, lo: int): int {
    0x10000 + (hi - 0xD800) * 0x400 + (lo - 0xDC00)
  }

  predicate StartsPair(ps: seq<Piece>) {
    |ps| > 1 && ps[0].Code? && ps[1].Code? && High(Hex4(ps[0].h)) && Low(Hex4(ps[1].h))
  }

  // Of the codes, the zero is left out, which a C string cannot hold, and so is
  // half a surrogate pair, which names no character.
  function FirstValue(p: Piece): Text {
    match p
    case Unescaped(c) => [c]
    case Letter(c) => [LetterValue(c)]
    case Code(h) => if Scalar(Hex4(h)) then Utf8(Hex4(h)) else []
  }

  // The UTF-8 text of the pieces: two halves of a pair next to each other name
  // one character, and every other piece stands for itself.
  function PiecesValue(ps: seq<Piece>): Text {
    if ps == [] then []
    else if StartsPair(ps) then Utf8(PairValue(Hex4(ps[0].h), Hex4(ps[1].h))) + PiecesValue(ps[2..])
    else FirstValue(ps[0]) + PiecesValue(ps[1..])
  }

  function PiecesText(ps: seq<Piece>): Text {
    if ps == [] then [] else PieceText(ps[0]) + PiecesText(ps[1..])
  }

  // ----- Values, sections 3 to 5 -----

  datatype Syntax =
    | NullWord
    | FalseWord
    | TrueWord
    | Number(n: Numeral)
    | Quoted(ps: seq<Piece>)
    | EmptyArray(w: Text)
    | ArrayOf(items: seq<Entry>)
    | EmptyObject(w: Text)
    | ObjectOf(members: seq<Pair>)

  datatype Entry = Entry(before: Text, value: Syntax, behind: Text)

  datatype Pair = Pair(
    before: Text, name: seq<Piece>, behindName: Text, beforeValue: Text, value: Syntax, behind: Text)

  predicate IsSyntax(x: Syntax) {
    match x
    case Number(n) => IsNumeral(n)
    case Quoted(ps) => forall p | p in ps :: IsPiece(p)
    case EmptyArray(w) => Ws(w)
    case EmptyObject(w) => Ws(w)
    case ArrayOf(items) => items != [] && AreEntries(items)
    case ObjectOf(members) => members != [] && ArePairs(members)
    case _ => true
  }

  predicate AreEntries(es: seq<Entry>) {
    es == [] || (Ws(es[0].before) && IsSyntax(es[0].value) && Ws(es[0].behind) && AreEntries(es[1..]))
  }

  predicate ArePairs(ms: seq<Pair>) {
    ms == [] ||
    (&& Ws(ms[0].before) && (forall p | p in ms[0].name :: IsPiece(p)) && Ws(ms[0].behindName)
     && Ws(ms[0].beforeValue) && IsSyntax(ms[0].value) && Ws(ms[0].behind) && ArePairs(ms[1..]))
  }

  function QuotedText(ps: seq<Piece>): Text {
    [QUOTE] + (PiecesText(ps) + [QUOTE])
  }

  function SyntaxText(x: Syntax): Text {
    match x
    case NullWord => NULL_WORD
    case FalseWord => FALSE_WORD
    case TrueWord => TRUE_WORD
    case Number(n) => NumeralText(n)
    case Quoted(ps) => QuotedText(ps)
    case EmptyArray(w) => [OPEN_BRACKET] + (w + [CLOSE_BRACKET])
    case ArrayOf(items) => [OPEN_BRACKET] + (EntriesText(items) + [CLOSE_BRACKET])
    case EmptyObject(w) => [OPEN_BRACE] + (w + [CLOSE_BRACE])
    case ObjectOf(members) => [OPEN_BRACE] + (PairsText(members) + [CLOSE_BRACE])
  }

  function EntriesText(es: seq<Entry>): Text {
    if es == [] then []
    else
      var rest := if |es| == 1 then [] else [COMMA] + EntriesText(es[1..]);
      es[0].before + (SyntaxText(es[0].value) + (es[0].behind + rest))
  }

  function PairsText(ms: seq<Pair>): Text {
    if ms == [] then []
    else
      var rest := if |ms| == 1 then [] else [COMMA] + PairsText(ms[1..]);
      ms[0].before + (NamedText(ms[0]) + (ms[0].behind + rest))
  }

  function NamedText(m: Pair): Text {
    QuotedText(m.name) + (m.behindName + ([COLON] + (m.beforeValue + SyntaxText(m.value))))
  }

  function SyntaxValue(x: Syntax): Json {
    match x
    case NullWord => Null
    case FalseWord => False
    case TrueWord => True
    case Number(n) => Json.Number(NumeralValue(n))
    case Quoted(ps) => String(PiecesValue(ps))
    case EmptyArray(_) => Array([])
    case ArrayOf(items) => Array(EntriesValue(items))
    case EmptyObject(_) => Object([])
    case ObjectOf(members) => Object(PairsValue(members))
  }

  function EntriesValue(es: seq<Entry>): seq<Json> {
    if es == [] then [] else [SyntaxValue(es[0].value)] + EntriesValue(es[1..])
  }

  function PairsValue(ms: seq<Pair>): seq<Member> {
    if ms == [] then []
    else [Member(PiecesValue(ms[0].name), SyntaxValue(ms[0].value))] + PairsValue(ms[1..])
  }
}

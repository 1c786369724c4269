/** How a value is laid out as text: the syntax tree with every blank, escape
    and digit in its place. Stated without the printer. */
module Layout {
  import opened Bytes
  import opened Unicode
  import opened Numbers
  import opened JsonValues
  import opened Grammar

  // ----- Strings and numbers -----

  function LowerDigit(d: nat): TextByte
    requires d < 16
  {
    LOWER_DIGITS[d] as int
  }

  // The shortest escape there is; a control byte without a letter is spelled
  // with small digits.
  function PieceOf(c: TextByte): Piece {
    if c == '"' as int || c == '\\' as int then Letter(c)
    else if c == '\U{0008}' as int then Letter('b' as int)
    else if c == '\U{000C}' as int then Letter('f' as int)
    else if c == '\n' as int then Letter('n' as int)
    else if c == '\r' as int then Letter('r' as int)
    else if c == '\t' as int then Letter('t' as int)
    else if c < ' ' as int then Code(['0' as int, '0' as int, LowerDigit(c / 16), LowerDigit(c % 16)])
    else Unescaped(c)
  }

  function PiecesOf(s: Text): seq<Piece> {
    if s == [] then [] else [PieceOf(s[0])] + PiecesOf(s[1..])
  }

  function NumeralOf(n: int): Numeral {
    Numeral(n < 0, Digits(if n < 0 then -n else n), [], NoExp)
  }

  // ----- Blanks, in the formatted layout alone -----

  // A new line that starts with `n` tabs.
  function NewLine(fmt: bool, n: int): Text {
    if fmt then ['\n' as int] + seq(if n < 0 then 0 else n, _ => '\t' as int) else []
  }

  function SpaceOnly(fmt: bool): Text {
    if fmt then [' ' as int] else []
  }

  function TabOnly(fmt: bool): Text {
    if fmt then ['\t' as int] else []
  }

  // ----- Values -----

  // An array stays on its line, with a space behind each comma. Each member of
  // an object has a line of its own, one tab deeper than the object, and a tab
  // behind its colon; the closing brace stands on a line as deep as the object,
  // or, in an empty object, one tab less deep.
  function SyntaxOf(j: Json, depth: nat, fmt: bool): Syntax
    requires Printable(j)
    decreases j, 0
  {
    match j
    case Null => NullWord
    case False => FalseWord
    case True => TrueWord
    case Number(d) => Syntax.Number(NumeralOf(d.Floor))
    case String(s) => Quoted(PiecesOf(s))
    case Array(items) => if items == [] then EmptyArray([]) else ArrayOf(EntriesOf(items, depth + 1, fmt, []))
    case Object(members) =>
      if members == [] then EmptyObject(NewLine(fmt, depth - 1))
      else ObjectOf(PairsOf(members, depth + 1, fmt, NewLine(fmt, depth)))
  }

  // The first item stands behind `w`.
  function EntriesOf(items: seq<Json>, depth: nat, fmt: bool, w: Text): (es: seq<Entry>)
    requires AllPrintable(items)
    ensures |es| == |items|
    decreases items, 0
  {
    if items == [] then []
    else [Entry(w, SyntaxOf(items[0], depth, fmt), [])] + EntriesOf(items[1..], depth, fmt, SpaceOnly(fmt))
  }

  // Behind the last member stands `w`.
  function PairsOf(members: seq<Member>, depth: nat, fmt: bool, w: Text): (ps: seq<Pair>)
    requires MembersPrintable(members)
    ensures |ps| == |members|
    decreases members, 0
  {
    if members == [] then []
    else
      [PairOf(members[0], depth, fmt, if |members| == 1 then w else [])] + PairsOf(members[1..], depth, fmt, w)
  }

  function PairOf(m: Member, depth: nat, fmt: bool, behind: Text): Pair
    requires Printable(m.value)
    decreases m, 1
  {
    Pair(NewLine(fmt, depth), PiecesOf(m.name), [], TabOnly(fmt), SyntaxOf(m.value, depth, fmt), behind)
  }
}

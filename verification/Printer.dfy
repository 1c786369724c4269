/** The text `cJSON_Print` and `cJSON_PrintUnformatted` render. */
module Printer {
  import opened Bytes
  import opened Numbers
  import opened StringLiteral
  import opened JsonValues

  // `for (j = 0; j < n; j++) *ptr++ = '\t';` also for a negative `n`.
  function Tabs(n: int): (r: Text)
    ensures forall c | c in r :: c == TAB
  {
    if n <= 0 then [] else Tabs(n - 1) + [TAB]
  }

  function Only(fmt: bool, s: Text): Text {
    if fmt then s else []
  }

  // `print_value`.
  function Print(j: Json, depth: nat, fmt: bool): Text
    requires Printable(j)
    decreases j, 0
  {
    match j
    case Null => NULL_WORD
    case False => FALSE_WORD
    case True => TRUE_WORD
    case Number(d) => Decimal(d.Floor)
    case String(s) => Literal(s)
    case Array(items) =>
      [OPEN_BRACKET] + (if items == [] then [] else PrintItems(items, depth + 1, fmt)) + [CLOSE_BRACKET]
    case Object(members) =>
      if members == [] then [OPEN_BRACE] + Only(fmt, [NEWLINE] + Tabs(depth - 1)) + [CLOSE_BRACE]
      else
        [OPEN_BRACE] + Only(fmt, [NEWLINE]) + PrintMembers(members, depth + 1, fmt)
        + Only(fmt, Tabs(depth)) + [CLOSE_BRACE]
  }

  function Separator(fmt: bool): Text {
    [COMMA] + Only(fmt, [SPACE])
  }

  function PrintItems(items: seq<Json>, depth: nat, fmt: bool): Text
    requires items != [] && AllPrintable(items)
    decreases items, 0
  {
    Print(items[0], depth, fmt)
    + (if |items| == 1 then [] else Separator(fmt) + PrintItems(items[1..], depth, fmt))
  }

  // Everything of a member up to its value.
  function Label(name: Text, depth: nat, fmt: bool): Text {
    Only(fmt, Tabs(depth)) + Literal(name) + [COLON] + Only(fmt, [TAB])
  }

  function PrintMembers(members: seq<Member>, depth: nat, fmt: bool): Text
    requires members != [] && MembersPrintable(members)
    decreases members, 0
  {
    Label(members[0].name, depth, fmt) + Print(members[0].value, depth, fmt)
    + (if |members| == 1 then Only(fmt, [NEWLINE])
       else [COMMA] + Only(fmt, [NEWLINE]) + PrintMembers(members[1..], depth, fmt))
  }

  // A printed value starts with a byte that is neither white space nor a closer.
  lemma PrintStarts(j: Json, depth: nat, fmt: bool)
    requires Printable(j)
    ensures Print(j, depth, fmt) != []
    ensures var c := Print(j, depth, fmt)[0]; c > SPACE && c != CLOSE_BRACKET && c != CLOSE_BRACE
  {
    if j.Number? {
      assert Decimal(j.d.Floor)[0] in Decimal(j.d.Floor);
    }
  }
}

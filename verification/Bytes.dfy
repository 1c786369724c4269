/** Bytes, NUL-terminated text and the characters the JSON code names.

    A C string is modelled by the bytes before its terminator, so a text never
    holds a NUL; a `const char *` into it is the suffix it points at. */
module Bytes {
  type Byte = x: int | 0 <= x < 256

  type TextByte = x: int | 1 <= x < 256 witness 1

  type Text = seq<TextByte>

  const BACKSPACE: TextByte := 8
  const TAB: TextByte := 9
  const NEWLINE: TextByte := 10
  const FORM_FEED: TextByte := 12
  const RETURN: TextByte := 13
  const SPACE: TextByte := 32
  const QUOTE: TextByte := 34
  const STAR: TextByte := 42
  const PLUS: TextByte := 43
  const COMMA: TextByte := 44
  const MINUS: TextByte := 45
  const DOT: TextByte := 46
  const SLASH: TextByte := 47
  const ZERO: TextByte := 48
  const NINE: TextByte := 57
  const COLON: TextByte := 58
  const UPPER_A: TextByte := 65
  const UPPER_E: TextByte := 69
  const UPPER_F: TextByte := 70
  const OPEN_BRACKET: TextByte := 91
  const BACKSLASH: TextByte := 92
  const CLOSE_BRACKET: TextByte := 93
  const LOWER_A: TextByte := 97
  const LOWER_B: TextByte := 98
  const LOWER_E: TextByte := 101
  const LOWER_F: TextByte := 102
  const LOWER_N: TextByte := 110
  const LOWER_R: TextByte := 114
  const LOWER_T: TextByte := 116
  const LOWER_U: TextByte := 117
  const OPEN_BRACE: TextByte := 123
  const CLOSE_BRACE: TextByte := 125

  const NULL_WORD: Text := [110, 117, 108, 108]
  const FALSE_WORD: Text := [102, 97, 108, 115, 101]
  const TRUE_WORD: Text := [116, 114, 117, 101]

  // The bytes of a literal of the source.
  function Codes(s: string): (t: seq<int>)
    ensures |t| == |s| && forall i | 0 <= i < |s| :: t[i] == s[i] as int
  {
    seq(|s|, i requires 0 <= i < |s| => s[i] as int)
  }

  // The bytes named above are the characters the source writes.
  lemma NamedCharacters()
    ensures [BACKSPACE, TAB, NEWLINE, FORM_FEED, RETURN] == Codes("\U{0008}\t\n\U{000C}\r")
    ensures [SPACE, QUOTE, BACKSLASH, SLASH, STAR] == Codes(" \"\\/*")
    ensures [OPEN_BRACKET, CLOSE_BRACKET, OPEN_BRACE, CLOSE_BRACE, COMMA, COLON] == Codes("[]{},:")
    ensures [PLUS, MINUS, DOT, ZERO, NINE, LOWER_E, UPPER_E] == Codes("+-.09eE")
    ensures [LOWER_A, LOWER_F, UPPER_A, UPPER_F] == Codes("afAF")
    ensures [LOWER_B, LOWER_N, LOWER_R, LOWER_T, LOWER_U] == Codes("bnrtu")
    ensures NULL_WORD == Codes("null") && FALSE_WORD == Codes("false") && TRUE_WORD == Codes("true")
  {
  }

  // The byte `k` places after the pointer; at the end of the text, its NUL.
  function At(s: Text, k: nat): Byte {
    if k < |s| then s[k] else 0
  }

  function Head(s: Text): Byte {
    At(s, 0)
  }

  predicate IsDigit(c: Byte) {
    ZERO <= c <= NINE
  }

  // The C parser's notion of white space: every byte up to the space.
  function Skip(s: Text): (r: Text)
    ensures |r| <= |s|
    ensures Head(r) == 0 || Head(r) > SPACE
    ensures |r| < |s| ==> s[0] <= SPACE
  {
    if s != [] && s[0] <= SPACE then Skip(s[1..]) else s
  }

  lemma Regroup(a: seq<Byte>, b: seq<Byte>, c: seq<Byte>)
    ensures a + b + c == a + (b + c)
  {
  }

  lemma Shift(s: Text, p: nat, k: nat)
    requires p + k <= |s|
    ensures s[p..][k..] == s[p + k..]
  {
  }

  lemma RegroupFour(a: Text, b: Text, c: Text, d: Text)
    ensures a + b + c + d == a + (b + (c + d))
  {
  }

  // The buffer `a` holds `s` and its terminator, perhaps with room to spare.
  ghost predicate Holds(a: array<Byte>, s: Text)
    reads a
  {
    |s| < a.Length && a[..|s|] == s && a[|s|] == 0
  }

  // What is read at a place of a text, or behind its end.
  lemma ReadsAt(a: array<Byte>, s: Text, p: nat)
    requires Holds(a, s) && p <= |s|
    ensures a[p] == Head(s[p..]) && (a[p] == 0 <==> p == |s|)
  {
    assert p < |s| ==> a[p] == a[..|s|][p];
  }

  // The loop of `skip`, on a buffer and an index into it.
  method SkipFrom(a: array<Byte>, from: nat, ghost s: Text) returns (p: nat)
    requires Holds(a, s) && from <= |s|
    ensures from <= p <= |s| && s[p..] == Skip(s[from..])
  {
    p := from;
    while a[p] != 0 && a[p] <= SPACE
      invariant from <= p <= |s|
      invariant Skip(s[p..]) == Skip(s[from..])
      decreases |s| - p
    {
      ReadsAt(a, s, p);
      assert s[p..][1..] == s[p + 1..];
      p := p + 1;
    }
    ReadsAt(a, s, p);
  }
}

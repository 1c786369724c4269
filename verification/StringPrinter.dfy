/** `print_string_ptr`, `print_number` and the fixed texts: into buffers whose
    size is computed before anything is written. */
module StringPrinter {
  import opened Bytes
  import opened Memory
  import opened Numbers
  import opened StringLiteral

  // `sprintf` of a text, with its terminator, at place `at`.
  method PutText(d: array<Byte>, at: nat, s: Text)
    requires at + |s| < d.Length
    modifies d
    ensures d[..at + |s|] == old(d[..at]) + s && d[at + |s|] == 0
  {
    var n := 0;
    while n < |s|
      invariant n <= |s| && d[..at + n] == old(d[..at]) + s[..n]
    {
      d[at + n] := s[n];
      n := n + 1;
      assert d[..at + n] == d[..at + n - 1] + [s[n - 1]] && s[..n] == s[..n - 1] + [s[n - 1]];
    }
    assert s[..n] == s;
    d[at + n] := 0;
  }

  // The branch of `print_number` for 32-bit integers.
  method PrintInt(mem: Heap, n: int) returns (out: array<Byte>)
    requires INT_MIN <= n <= INT_MAX
    modifies mem
    ensures fresh(out) && out.Length == 21 && Holds(out, Decimal(n)) && mem.live == old(mem.live) + {out}
  {
    out := mem.Malloc(21);
    DecimalFits(n);
    PutText(out, 0, Decimal(n));
  }

  // The measuring pass: a byte, a two-byte escape or a six-byte one.
  method MeasureEscaped(mem: Heap, str: array<Byte>, ghost s: Text) returns (len: nat)
    requires str in mem.live && Holds(str, s)
    ensures len == EscapedLength(s)
  {
    len := 0;
    var ptr := 0;
    while str[ptr] != 0
      invariant ptr <= |s| && len + EscapedLength(s[ptr..]) == EscapedLength(s)
      decreases |s| - ptr
    {
      var token := str[ptr];
      assert token == str[..|s|][ptr] == s[ptr..][0];
      assert s[ptr..][1..] == s[ptr + 1..];
      len := len + 1;
      if HasShortForm(token) {
        len := len + 1;
      } else if token < 32 {
        len := len + 5;
      }
      ptr := ptr + 1;
    }
    ReadsAt(str, s, ptr);
  }

  lemma EscapedLengthIsExact(s: Text)
    ensures |EscapeAll(s)| == EscapedLength(s)
  {
    LiteralFitsExactly(s);
  }

  // One byte of the writing pass.
  method PutEscaped(out: array<Byte>, at: nat, c: TextByte) returns (next: nat)
    requires at + |EscapeByte(c)| < out.Length
    modifies out
    ensures next == at + |EscapeByte(c)| && out[..next] == old(out[..at]) + EscapeByte(c)
  {
    next := at;
    if c > 31 && c != QUOTE && c != BACKSLASH {
      out[next] := c;
      next := next + 1;
    } else {
      out[next] := BACKSLASH;
      next := next + 1;
      assert out[..next] == old(out[..at]) + [BACKSLASH];
      if c == BACKSLASH || c == QUOTE || c == BACKSPACE || c == FORM_FEED || c == NEWLINE || c == RETURN || c == TAB {
        out[next] := EscapeLetter(c)[0];
        next := next + 1;
      } else {
        PutText(out, next, UText(c));
        next := next + 5;
      }
    }
  }

  // The writing pass over a whole text; `len + 3` bytes are exactly used up.
  method PrintLiteral(mem: Heap, str: array<Byte>, ghost s: Text) returns (out: array<Byte>)
    requires str in mem.live && Holds(str, s)
    modifies mem
    ensures fresh(out) && Holds(out, Literal(s)) && out.Length == |Literal(s)| + 1
    ensures mem.live == old(mem.live) + {out}
  {
    var len := MeasureEscaped(mem, str, s);
    EscapedLengthIsExact(s);
    out := mem.Malloc(len + 3);
    out[0] := QUOTE;
    var ptr2, ptr := 1, 0;
    assert s[0..] == s && out[..1] == [QUOTE];
    while str[ptr] != 0
      invariant ptr <= |s| && Holds(str, s) && mem.live == old(mem.live) + {out}
      invariant 1 <= ptr2 && ptr2 + |EscapeAll(s[ptr..])| == len + 1
      invariant out[..ptr2] + EscapeAll(s[ptr..]) == [QUOTE] + EscapeAll(s)
      decreases |s| - ptr
    {
      assert str[ptr] == str[..|s|][ptr] == s[ptr..][0];
      assert s[ptr..][1..] == s[ptr + 1..];
      ghost var written := out[..ptr2];
      ptr2 := PutEscaped(out, ptr2, str[ptr]);
      Regroup(written, EscapeByte(s[ptr]), EscapeAll(s[ptr + 1..]));
      ptr := ptr + 1;
    }
    ReadsAt(str, s, ptr);
    assert out[..ptr2] == [QUOTE] + EscapeAll(s);
    out[ptr2] := QUOTE;
    assert out[..ptr2 + 1] == [QUOTE] + EscapeAll(s) + [QUOTE];
    out[ptr2 + 1] := 0;
  }
}

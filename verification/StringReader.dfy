/** `parse_string` on a buffer: one pass measures, the other one decodes into
    a block of that size. */
module StringReader {
  import opened Bytes
  import opened Unicode
  import opened StringLiteral
  import opened Memory

  // The first pass. A literal whose second pass goes through is not dangling.
  method MeasureLiteral(a: array<Byte>, p: nat, ghost s: Text) returns (len: nat)
    requires Holds(a, s) && p <= |s| && !SpanOf(s[p..]).Dangling?
    ensures len == Measure(s[p..])
  {
    len := 0;
    var ptr := p;
    ReadsAt(a, s, p);
    while a[ptr] != QUOTE && a[ptr] != 0
      invariant p <= ptr <= |s| && a[ptr] == Head(s[ptr..])
      invariant len + Measure(s[ptr..]) == Measure(s[p..]) && !SpanOf(s[ptr..]).Dangling?
      decreases |s| - ptr
    {
      len := len + 1;
      Shift(s, ptr, 1);
      if a[ptr] == BACKSLASH {
        Shift(s, ptr, 2);
        ptr := ptr + 1;
      }
      ptr := ptr + 1;
      ReadsAt(a, s, ptr);
    }
  }

  // What follows a high half: the combined code point, or zero for a lone half.
  method ReadSecondHalf(a: array<Byte>, at: nat, uc: nat, ghost s: Text) returns (whole: nat, ptr: nat)
    requires Holds(a, s) && at + 6 <= |s| && UnicodeEscape(s[at..]).Yield?
    requires 0xD800 <= uc <= 0xDBFF && uc == Hex4(s[at..][2..])
    ensures var e := UnicodeEscape(s[at..]);
            && ptr + 1 == at + e.used && whole <= 0x10FFFF && e.out == if whole == 0 then [] else Utf8(whole)
  {
    whole, ptr := 0, at + 5;
    ReadsAt(a, s, ptr + 1);
    if a[ptr + 1] != BACKSLASH {
      return;
    }
    ReadsAt(a, s, ptr + 2);
    if a[ptr + 2] != LOWER_U {
      return;
    }
    Shift(s, at, 8);
    var uc2 := ParseHex4(a, ptr + 3, s);
    ptr := ptr + 6;
    if uc2 < 0xDC00 || uc2 > 0xDFFF {
      return;
    }
    whole := Combine(uc, uc2);
  }

  lemma WrittenInParts(out: array<Byte>, w: nat, w2: nat)
    requires w <= w2 <= out.Length
    ensures out[..w2] == out[..w] + out[w..w2]
  {
  }

  // The `u` case: `ptr` is on the `u`, and one step short of behind the escape after it.
  method ReadUnicode(out: array<Byte>, w: nat, a: array<Byte>, at: nat, ghost s: Text) returns (w2: nat, ptr: nat)
    requires Holds(a, s) && out != a && at + 2 <= |s| && UnicodeEscape(s[at..]).Yield?
    requires w + |UnicodeEscape(s[at..]).out| <= out.Length
    modifies out
    ensures var e := UnicodeEscape(s[at..]);
            w2 == w + |e.out| && out[..w2] == old(out[..w]) + e.out && ptr + 1 == at + e.used
  {
    w2, ptr := w, at + 1;
    Shift(s, at, 2);
    Shift(s, at, 6);
    var uc := ParseHex4(a, ptr + 1, s);
    ptr := ptr + 4;
    if (0xDC00 <= uc <= 0xDFFF) || uc == 0 {
      return;
    }
    if 0xD800 <= uc <= 0xDBFF {
      uc, ptr := ReadSecondHalf(a, at, uc, s);
      if uc == 0 {
        return;
      }
    }
    w2 := WriteUtf8(out, w, uc);
    WrittenInParts(out, w, w2);
  }

  // One backslash sequence.
  method ReadEscape(out: array<Byte>, w: nat, a: array<Byte>, at: nat, ghost s: Text) returns (w2: nat, ptr: nat)
    requires Holds(a, s) && out != a && at < |s| && s[at] == BACKSLASH && EscapeAt(s[at..]).Yield?
    requires w + |EscapeAt(s[at..]).out| <= out.Length
    modifies out
    ensures var e := EscapeAt(s[at..]);
            w2 == w + |e.out| && out[..w2] == old(out[..w]) + e.out && ptr == at + e.used
  {
    ptr := at + 1;
    ReadsAt(a, s, ptr);
    var c := a[ptr];
    if c == LOWER_U {
      w2, ptr := ReadUnicode(out, w, a, at, s);
    } else {
      if c == LOWER_B {
        out[w] := BACKSPACE;
      } else if c == LOWER_F {
        out[w] := FORM_FEED;
      } else if c == LOWER_N {
        out[w] := NEWLINE;
      } else if c == LOWER_R {
        out[w] := RETURN;
      } else if c == LOWER_T {
        out[w] := TAB;
      } else {
        out[w] := c;
      }
      w2 := w + 1;
    }
    ptr := ptr + 1;
  }

  // How far the second pass has come: `w` bytes out, and the rest still to decode.
  ghost predicate Decoding(out: array<Byte>, w: nat, left: Text, whole: Decoded)
    reads out
  {
    whole.Done? && |whole.value| < out.Length && w <= out.Length && Continues(out[..w], left, whole)
  }

  // What is written and what is still to decode make up the whole.
  predicate Continues(written: seq<Byte>, left: Text, whole: Decoded) {
    && whole.Done? && Decode(left).Done? && written + Decode(left).value == whole.value
    && Decode(left).rest == whole.rest && Decode(left).closed == whole.closed
  }

  // What one byte or escape adds to the output.
  function Piece(s: Text): (e: Escape)
    requires s != [] && s[0] != QUOTE && Decode(s).Done?
    ensures e.Yield? && 0 < e.used <= |s| && Decode(s[e.used..]).Done?
    ensures Decode(s) == Prepend(e.out, Decode(s[e.used..]))
  {
    if s[0] == BACKSLASH then EscapeAt(s) else Yield([s[0]], 1)
  }

  method ReadPiece(out: array<Byte>, w: nat, a: array<Byte>, at: nat, ghost s: Text) returns (w2: nat, ptr: nat)
    requires Holds(a, s) && out != a && at < |s| && s[at] != QUOTE && Decode(s[at..]).Done?
    requires w + |Piece(s[at..]).out| <= out.Length
    modifies out
    ensures var e := Piece(s[at..]);
            w2 == w + |e.out| && out[..w2] == old(out[..w]) + e.out && ptr == at + e.used
  {
    ReadsAt(a, s, at);
    if a[at] != BACKSLASH {
      out[w] := a[at];
      w2, ptr := w + 1, at + 1;
    } else {
      w2, ptr := ReadEscape(out, w, a, at, s);
    }
  }

  lemma PieceDecoded(written: seq<Byte>, left: Text, whole: Decoded)
    requires left != [] && left[0] != QUOTE && Continues(written, left, whole)
    ensures var e := Piece(left);
            && |written| + |e.out| <= |whole.value|
            && Continues(written + e.out, left[e.used..], whole)
  {
    var e := Piece(left);
    Regroup(written, e.out, Decode(left[e.used..]).value);
  }

  // One turn of the second pass.
  method DecodeOne(out: array<Byte>, w: nat, a: array<Byte>, at: nat, ghost s: Text, ghost whole: Decoded)
    returns (w2: nat, ptr: nat)
    requires Holds(a, s) && out != a && at < |s| && s[at] != QUOTE && Decoding(out, w, s[at..], whole)
    modifies out
    ensures at < ptr <= |s| && Decoding(out, w2, s[ptr..], whole)
  {
    ghost var left := s[at..];
    PieceDecoded(out[..w], left, whole);
    Shift(s, at, Piece(left).used);
    w2, ptr := ReadPiece(out, w, a, at, s);
  }

  // Both passes, from behind the opening quote; the pointer ends up behind the
  // closing one, or on the terminator.
  method ReadLiteral(mem: Heap, a: array<Byte>, p: nat, ghost s: Text) returns (out: array<Byte>, ptr: nat)
    requires Holds(a, s) && p <= |s| && Decode(s[p..]).Done?
    modifies mem
    ensures fresh(out) && Holds(out, Decode(s[p..]).value) && mem.live == old(mem.live) + {out}
    ensures p <= ptr <= |s| && s[ptr..] == Decode(s[p..]).rest
  {
    ghost var whole := Decode(s[p..]);
    DecodeStopsAtQuote(s[p..]);
    DecodeFits(s[p..]);
    var len := MeasureLiteral(a, p, s);
    out := mem.Malloc(len + 1);
    ptr := p;
    var w: nat := 0;
    ReadsAt(a, s, p);
    while a[ptr] != QUOTE && a[ptr] != 0
      invariant p <= ptr <= |s| && a[ptr] == Head(s[ptr..]) && Holds(a, s) && mem.live == old(mem.live) + {out}
      invariant Decoding(out, w, s[ptr..], whole)
      decreases |s| - ptr
    {
      w, ptr := DecodeOne(out, w, a, ptr, s, whole);
      ReadsAt(a, s, ptr);
    }
    assert Decode(s[ptr..]).value == [];
    out[w] := 0;
    if a[ptr] == QUOTE {
      Shift(s, ptr, 1);
      ptr := ptr + 1;
    }
  }
}

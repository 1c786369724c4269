/** Four-digit hexadecimal escapes and the UTF-8 form of a code point. */
module Unicode {
  import opened Bytes

  // ----- RFC 3629: the reference the transcoder is measured against -----

  predicate Surrogate(v: int) {
    0xD800 <= v <= 0xDFFF
  }

  // A Unicode scalar value that a C string can carry.
  predicate Scalar(v: int) {
    0 < v <= 0x10FFFF && !Surrogate(v)
  }

  // Section 3 of RFC 3629, read from left to right: lead byte first.
  function Utf8(v: int): (r: Text)
    requires 0 < v <= 0x10FFFF
  {
    if v < 0x80 then [v]
    else if v < 0x800 then [0xC0 + v / 64, 0x80 + v % 64]
    else if v < 0x10000 then [0xE0 + v / 4096, 0x80 + v / 64 % 64, 0x80 + v % 64]
    else [0xF0 + v / 262144, 0x80 + v / 4096 % 64, 0x80 + v / 64 % 64, 0x80 + v % 64]
  }

  function Bits(r: Text, i: nat, mark: int): int
    requires i < |r|
  {
    r[i] as int - mark
  }

  // A UTF-8 decoder: the lead byte says how many continuation bytes to fold in.
  function Utf8Value(r: Text): int
  {
    if |r| == 1 then Bits(r, 0, 0)
    else if |r| == 2 then Bits(r, 0, 0xC0) * 64 + Bits(r, 1, 0x80)
    else if |r| == 3 then (Bits(r, 0, 0xE0) * 64 + Bits(r, 1, 0x80)) * 64 + Bits(r, 2, 0x80)
    else if |r| == 4 then ((Bits(r, 0, 0xF0) * 64 + Bits(r, 1, 0x80)) * 64 + Bits(r, 2, 0x80)) * 64 + Bits(r, 3, 0x80)
    else 0
  }

  // The lead byte announces the length and no continuation byte looks like one.
  predicate WellFormedUtf8(r: Text) {
    && 1 <= |r| <= 4
    && (|r| == 1 ==> r[0] < 0x80)
    && (|r| == 2 ==> 0xC2 <= r[0] < 0xE0)
    && (|r| == 3 ==> 0xE0 <= r[0] < 0xF0 && (r[0] == 0xE0 ==> r[1] >= 0xA0))
    && (|r| == 4 ==> 0xF0 <= r[0] < 0xF5 && (r[0] == 0xF0 ==> r[1] >= 0x90))
    && forall i | 1 <= i < |r| :: 0x80 <= r[i] < 0xC0
  }

  lemma Utf8Inverts(v: int)
    requires 0 < v <= 0x10FFFF
    ensures WellFormedUtf8(Utf8(v)) && Utf8Value(Utf8(v)) == v
  {
    if v >= 0x10000 {
      assert v / 4096 == v / 262144 * 64 + v / 4096 % 64 by { assert v / 4096 / 64 == v / 262144; }
      assert v / 64 == v / 4096 * 64 + v / 64 % 64 by { assert v / 64 / 64 == v / 4096; }
    } else if v >= 0x800 {
      assert v / 64 == v / 4096 * 64 + v / 64 % 64 by { assert v / 64 / 64 == v / 4096; }
    }
  }

  // The source writes continuation and lead bytes with masks; on every 32-bit
  // word they are the arithmetic used here.
  lemma MasksAreArithmetic(uc: bv32)
    ensures (uc | 0x80) & 0xBF == 0x80 + uc % 64
    ensures uc >> 6 == uc / 64
    ensures uc & 0x3FF == uc % 0x400
    ensures (uc % 0x20) | 0xC0 == 0xC0 + uc % 0x20
    ensures (uc % 0x10) | 0xE0 == 0xE0 + uc % 0x10
    ensures (uc % 0x08) | 0xF0 == 0xF0 + uc % 0x08
  {
  }

  // ----- What the source does -----

  function HexValue(c: Byte): (h: int)
    ensures -1 <= h < 16
  {
    if IsDigit(c) then c - ZERO
    else if UPPER_A <= c <= UPPER_F then 10 + c - UPPER_A
    else if LOWER_A <= c <= LOWER_F then 10 + c - LOWER_A
    else -1
  }

  // The digits, by value, in the two cases.
  const UPPER_DIGITS: string := "0123456789ABCDEF"
  const LOWER_DIGITS: string := "0123456789abcdef"

  predicate IsDigitOf(c: Byte, d: int) {
    0 <= d < 16 && (c == UPPER_DIGITS[d] as int || c == LOWER_DIGITS[d] as int)
  }

  lemma DigitOfTable(c: Byte, d: int)
    requires 0 <= d < 16
    ensures HexValue(c) == d <==> IsDigitOf(c, d)
  {
  }

  // Every byte is worth its place in the tables, and -1 outside of them.
  lemma HexTable(c: Byte)
    ensures forall d | 0 <= d < 16 :: HexValue(c) == d <==> IsDigitOf(c, d)
    ensures HexValue(c) == -1 <==> forall d | 0 <= d < 16 :: !IsDigitOf(c, d)
  {
    forall d | 0 <= d < 16 ensures HexValue(c) == d <==> IsDigitOf(c, d) {
      DigitOfTable(c, d);
    }
    if HexValue(c) >= 0 {
      assert IsDigitOf(c, HexValue(c));
    }
  }

  // `h` spells `v` in four hexadecimal digits, each of them in either case.
  predicate Spells(h: Text, v: int) {
    && |h| == 4 && 0 <= v < 0x10000
    && IsDigitOf(h[0], v / 4096) && IsDigitOf(h[1], v / 256 % 16)
    && IsDigitOf(h[2], v / 16 % 16) && IsDigitOf(h[3], v % 16)
  }

  predicate FourHex(s: Text) {
    |s| >= 4 && HexValue(s[0]) >= 0 && HexValue(s[1]) >= 0 && HexValue(s[2]) >= 0 && HexValue(s[3]) >= 0
  }

  // `parse_hex4`: zero as soon as one of the four bytes is not a digit.
  function Hex4(s: Text): (h: nat)
    ensures h < 0x10000
  {
    if FourHex(s)
    then ((HexValue(s[0]) * 16 + HexValue(s[1])) * 16 + HexValue(s[2])) * 16 + HexValue(s[3])
    else 0
  }

  lemma DigitRead(c: Byte, d: int)
    ensures IsDigitOf(c, d) <==> d >= 0 && HexValue(c) == d
  {
    HexTable(c);
  }

  lemma SpelledDigits(h: Text, v: int)
    requires |h| == 4 && 0 <= v < 0x10000
    ensures Spells(h, v) <==> (&& HexValue(h[0]) == v / 4096 && HexValue(h[1]) == v / 256 % 16
                               && HexValue(h[2]) == v / 16 % 16 && HexValue(h[3]) == v % 16)
  {
    DigitRead(h[0], v / 4096);
    DigitRead(h[1], v / 256 % 16);
    DigitRead(h[2], v / 16 % 16);
    DigitRead(h[3], v % 16);
  }

  lemma FourPlaces(a: int, b: int, c: int, d: int, v: int)
    requires 0 <= a < 16 && 0 <= b < 16 && 0 <= c < 16 && 0 <= d < 16
    ensures v == ((a * 16 + b) * 16 + c) * 16 + d
       <==> 0 <= v < 0x10000 && a == v / 4096 && b == v / 256 % 16 && c == v / 16 % 16 && d == v % 16
  {
    assert v / 256 == v / 16 / 16 && v / 4096 == v / 16 / 16 / 16;
    LastPlace((a * 16 + b) * 16 + c, d, v);
    LastPlace(a * 16 + b, c, v / 16);
    LastPlace(a, b, v / 16 / 16);
  }

  lemma LastPlace(n: int, d: int, v: int)
    requires 0 <= d < 16
    ensures v == n * 16 + d <==> v / 16 == n && v % 16 == d
  {
  }

  // Four bytes are read as `v` exactly when they spell it.
  lemma SpelledIsRead(h: Text, v: int)
    requires |h| == 4
    ensures Spells(h, v) <==> FourHex(h) && Hex4(h) == v
  {
    if 0 <= v < 0x10000 {
      SpelledDigits(h, v);
    }
    if FourHex(h) {
      FourPlaces(HexValue(h[0]), HexValue(h[1]), HexValue(h[2]), HexValue(h[3]), v);
    }
  }

  // Digit by digit, never reading past the byte that stops it.
  method ParseHex4(a: array<Byte>, p: nat, ghost s: Text) returns (h: nat)
    requires Holds(a, s) && p <= |s|
    ensures h == Hex4(s[p..])
  {
    var k := 0;
    h := 0;
    while k < 4
      invariant 0 <= k <= 4 && p + k <= |s|
      invariant forall i | 0 <= i < k :: HexValue(s[p..][i]) >= 0
      invariant k == 0 ==> h == 0
      invariant k == 1 ==> h == HexValue(s[p..][0])
      invariant k == 2 ==> h == HexValue(s[p..][0]) * 16 + HexValue(s[p..][1])
      invariant k == 3 ==> h == (HexValue(s[p..][0]) * 16 + HexValue(s[p..][1])) * 16 + HexValue(s[p..][2])
      invariant k == 4 ==> h == Hex4(s[p..])
    {
      var c := a[p + k];
      assert p + k < |s| ==> c == a[..|s|][p + k] == s[p..][k];
      if HexValue(c) < 0 {
        return 0;
      }
      h := h * 16 + HexValue(c);
      k := k + 1;
    }
  }

  // How many bytes the transcoder reserves for `uc`.
  function Utf8Length(uc: nat): (n: nat)
    ensures 1 <= n <= 4
  {
    if uc < 0x80 then 1 else if uc < 0x800 then 2 else if uc < 0x10000 then 3 else 4
  }

  // `firstByteMark` of the source.
  function FirstByteMark(n: nat): Byte {
    if n == 2 then 0xC0 else if n == 3 then 0xE0 else if n == 4 then 0xF0 else 0
  }

  // The falling-through switch: continuation bytes from the last one back,
  // then the lead byte.
  method WriteUtf8(out: array<Byte>, at: nat, uc: nat) returns (next: nat)
    requires 0 < uc <= 0x10FFFF && at + Utf8Length(uc) <= out.Length
    modifies out
    ensures next == at + |Utf8(uc)| <= out.Length
    ensures out[at..next] == Utf8(uc)
    ensures out[..at] == old(out[..at])
  {
    var n := Utf8Length(uc);
    var u, p := uc, at + n;
    if n >= 4 { p := p - 1; out[p] := 0x80 + u % 64; u := u / 64; }
    if n >= 3 { p := p - 1; out[p] := 0x80 + u % 64; u := u / 64; }
    if n >= 2 { p := p - 1; out[p] := 0x80 + u % 64; u := u / 64; }
    p := p - 1;
    ShiftedWithinByte(uc, n, u);
    out[p] := u + FirstByteMark(n);
    next := p + n;
    DivisionsCompose(uc);
    assert out[at..next] == Utf8(uc);
  }

  lemma DivisionsCompose(u: nat)
    ensures u / 64 / 64 == u / 4096 && u / 64 / 64 / 64 == u / 262144
  {
  }

  lemma ShiftedWithinByte(uc: nat, n: nat, u: nat)
    requires 0 < uc <= 0x10FFFF && n == Utf8Length(uc)
    requires u == if n == 1 then uc else if n == 2 then uc / 64 else if n == 3 then uc / 64 / 64 else uc / 64 / 64 / 64
    ensures u + FirstByteMark(n) < 256
  {
  }

  // The combination of a surrogate pair, section 7 of RFC 8259.
  function Combine(hi: nat, lo: nat): nat {
    0x10000 + (hi % 0x400) * 0x400 + lo % 0x400
  }

  function HighHalf(v: int): nat
    requires 0x10000 <= v <= 0x10FFFF
  {
    0xD800 + (v - 0x10000) / 0x400
  }

  function LowHalf(v: int): nat
    requires 0x10000 <= v <= 0x10FFFF
  {
    0xDC00 + (v - 0x10000) % 0x400
  }

  lemma HalvesCombine(v: int)
    requires 0x10000 <= v <= 0x10FFFF
    ensures 0xD800 <= HighHalf(v) <= 0xDBFF && 0xDC00 <= LowHalf(v) <= 0xDFFF
    ensures Combine(HighHalf(v), LowHalf(v)) == v
  {
    assert 0xD800 % 0x400 == 0 && 0xDC00 % 0x400 == 0;
  }
}

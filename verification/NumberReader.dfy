/** `parse_number` on a buffer, with exact arithmetic in place of `double`. */
module NumberReader {
  import opened Bytes
  import opened Numbers

  // `(int)d`, for the doubles it is defined on.
  function Truncated(d: real): int {
    if d < 0.0 then -((-d).Floor) else d.Floor
  }

  // The fraction is dropped, on either side of zero.
  lemma TruncatesTowardsZero(d: real, n: int)
    ensures n == Truncated(d)
       <==> if d < 0.0 then n as real >= d > n as real - 1.0 else n as real <= d < n as real + 1.0
  {
  }

  // The loops over digits; each one steps over at least nothing.
  method ReadDigits(a: array<Byte>, p: nat, n: int, ghost s: Text) returns (m: int, q: nat)
    requires Holds(a, s) && p <= |s|
    ensures p <= q <= |s| && s[q..] == AfterDigits(s[p..]) && m == FoldDigits(s[p..], n)
  {
    m, q := n, p;
    ReadsAt(a, s, p);
    while IsDigit(a[q])
      invariant p <= q <= |s| && a[q] == Head(s[q..])
      invariant AfterDigits(s[q..]) == AfterDigits(s[p..]) && FoldDigits(s[q..], m) == FoldDigits(s[p..], n)
      decreases |s| - q
    {
      assert s[q..][1..] == s[q + 1..];
      m, q := m * 10 + (a[q] - ZERO), q + 1;
      ReadsAt(a, s, q);
    }
  }

  // The mantissa: digits, and a fraction that scales them down.
  method ReadMantissa(a: array<Byte>, p: nat, ghost s: Text) returns (n: int, scale: int, q: nat)
    requires Holds(a, s) && p <= |s|
    ensures p <= q <= |s| && Mantissa(s[p..]) == Scanned(n, scale, s[q..])
  {
    n, scale, q := 0, 0, p;
    ReadsAt(a, s, q);
    if IsDigit(a[q]) && a[q] != ZERO {
      n, q := ReadDigits(a, q, n, s);
    }
    ReadsAt(a, s, q);
    if a[q] == DOT {
      ReadsAt(a, s, q + 1);
      assert s[q..][1..] == s[q + 1..] && At(s[q..], 1) == Head(s[q + 1..]);
      if IsDigit(a[q + 1]) {
        var start := q + 1;
        n, q := ReadDigits(a, start, n, s);
        scale := start - q;
      }
    }
  }

  method ReadExponent(a: array<Byte>, p: nat, ghost s: Text) returns (e: int, q: nat)
    requires Holds(a, s) && p <= |s|
    ensures p <= q <= |s| && Exponent(s[p..]) == Scanned(e, 0, s[q..])
  {
    e, q := 0, p;
    ReadsAt(a, s, q);
    if a[q] == LOWER_E || a[q] == UPPER_E {
      q := q + 1;
      ReadsAt(a, s, q);
      assert s[p..][1..] == s[q..];
      var negative := a[q] == MINUS;
      if a[q] == PLUS {
        assert s[q..][1..] == s[q + 1..];
        q := q + 1;
      } else if negative {
        assert s[q..][1..] == s[q + 1..];
        q := q + 1;
      }
      e, q := ReadDigits(a, q, 0, s);
      if negative {
        e := -e;
      }
    }
  }

  // The sign, and one zero in front of the digits.
  method ReadPrefix(a: array<Byte>, p: nat, ghost s: Text) returns (negative: bool, q: nat)
    requires Holds(a, s) && p <= |s|
    ensures p <= q <= |s| && negative == (Head(s[p..]) == MINUS) && s[q..] == AfterZero(AfterMinus(s[p..]))
  {
    q := p;
    ReadsAt(a, s, q);
    negative := a[q] == MINUS;
    if negative {
      assert s[q..][1..] == s[q + 1..];
      q := q + 1;
    }
    ReadsAt(a, s, q);
    if a[q] == ZERO {
      assert s[q..][1..] == s[q + 1..];
      q := q + 1;
    }
  }

  // Sign, digits and exponent, as they stand in the text.
  method ScanNumber(a: array<Byte>, p: nat, ghost s: Text) returns (negative: bool, n: int, e: int, q: nat)
    requires Holds(a, s) && p <= |s|
    ensures p <= q <= |s| && s[q..] == NumberRest(s[p..]) && negative == (Head(s[p..]) == MINUS)
    ensures n == NumberDigits(s[p..]) && e == NumberExponent(s[p..])
  {
    var scale;
    negative, q := ReadPrefix(a, p, s);
    n, scale, q := ReadMantissa(a, q, s);
    e, q := ReadExponent(a, q, s);
    e := scale + e;
  }

  method ReadNumber(a: array<Byte>, p: nat, ghost s: Text) returns (d: real, q: nat)
    requires Holds(a, s) && p <= |s|
    ensures p <= q <= |s| && d == NumberValue(s[p..]) && s[q..] == NumberRest(s[p..])
  {
    var negative, n, e;
    negative, n, e, q := ScanNumber(a, p, s);
    d := Compose(negative, n, e);
  }

  // `item->valueint = (int)n;` whose value C does not define out of range.
  method ToInt(d: real) returns (n: int)
    ensures INT_MIN <= Truncated(d) <= INT_MAX ==> n == Truncated(d)
  {
    n := *;
    if INT_MIN <= Truncated(d) <= INT_MAX {
      n := Truncated(d);
    }
  }
}

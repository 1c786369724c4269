/** Reading numbers (`parse_number`, over the reals) and writing the ones
    that `print_number` prints with `%d`. */
module Numbers {
  import opened Bytes

  const INT_MIN: int := -0x8000_0000
  const INT_MAX: int := 0x7FFF_FFFF

  function PowerOfTen(e: int): real
    decreases if e < 0 then -e else e
  {
    if e == 0 then 1.0
    else if e > 0 then 10.0 * PowerOfTen(e - 1)
    else PowerOfTen(e + 1) / 10.0
  }

  // The digits at the front of `s`, folded into `n`.
  function FoldDigits(s: Text, n: int): int {
    if IsDigit(Head(s)) then FoldDigits(s[1..], n * 10 + (s[0] - ZERO)) else n
  }

  function AfterDigits(s: Text): (r: Text)
    ensures |r| <= |s| && !IsDigit(Head(r))
    ensures IsDigit(Head(s)) ==> |r| < |s|
  {
    if IsDigit(Head(s)) then AfterDigits(s[1..]) else s
  }

  function AfterMinus(s: Text): (r: Text)
    ensures |r| <= |s|
  {
    if Head(s) == MINUS then s[1..] else s
  }

  // One leading zero is stepped over, and digits may still follow it.
  function AfterZero(s: Text): (r: Text)
    ensures |r| <= |s|
  {
    if Head(s) == ZERO then s[1..] else s
  }

  predicate HasInteger(s: Text) {
    IsDigit(Head(s)) && Head(s) != ZERO
  }

  predicate HasFraction(s: Text) {
    Head(s) == DOT && IsDigit(At(s, 1))
  }

  predicate HasExponent(s: Text) {
    Head(s) == LOWER_E || Head(s) == UPPER_E
  }

  datatype Scanned = Scanned(digits: int, scale: int, rest: Text)

  // Integer part, then the fraction, whose digits join the same mantissa.
  function Mantissa(s: Text): (m: Scanned)
    ensures |m.rest| <= |s|
  {
    var n := if HasInteger(s) then FoldDigits(s, 0) else 0;
    var r := if HasInteger(s) then AfterDigits(s) else s;
    if HasFraction(r) then
      var f := AfterDigits(r[1..]);
      Scanned(FoldDigits(r[1..], n), |f| - |r| + 1, f)
    else Scanned(n, 0, r)
  }

  // An exponent needs no digits: a bare `e` counts as `e0`.
  function Exponent(s: Text): (m: Scanned)
    ensures |m.rest| <= |s|
  {
    if !HasExponent(s) then Scanned(0, 0, s)
    else
      var r := s[1..];
      if Head(r) == PLUS then Scanned(FoldDigits(r[1..], 0), 0, AfterDigits(r[1..]))
      else if Head(r) == MINUS then Scanned(-FoldDigits(r[1..], 0), 0, AfterDigits(r[1..]))
      else Scanned(FoldDigits(r, 0), 0, AfterDigits(r))
  }

  // True where `parse_value` hands over to `parse_number`.
  predicate StartsNumber(s: Text) {
    Head(s) == MINUS || IsDigit(Head(s))
  }

  function NumberRest(s: Text): (r: Text)
    ensures |r| <= |s|
  {
    Exponent(Mantissa(AfterZero(AfterMinus(s))).rest).rest
  }

  // Sign, mantissa and exponent put together.
  function Compose(negative: bool, digits: int, exponent: int): real {
    (if negative then -1.0 else 1.0) * digits as real * PowerOfTen(exponent)
  }

  function NumberDigits(s: Text): int {
    Mantissa(AfterZero(AfterMinus(s))).digits
  }

  function NumberExponent(s: Text): int {
    var m := Mantissa(AfterZero(AfterMinus(s)));
    m.scale + Exponent(m.rest).digits
  }

  function NumberValue(s: Text): real {
    Compose(Head(s) == MINUS, NumberDigits(s), NumberExponent(s))
  }

  lemma NumberProgress(s: Text)
    requires StartsNumber(s)
    ensures |NumberRest(s)| < |s|
  {
  }

  // ----- Writing -----

  predicate IsInt32(d: real) {
    d == d.Floor as real && INT_MIN <= d.Floor <= INT_MAX
  }

  lemma Int32Range(n: int)
    ensures IsInt32(n as real) <==> -2147483648 <= n <= 2147483647
  {
    assert (n as real).Floor == n;
  }

  function Digits(n: nat): (r: Text)
    ensures r != [] && forall c | c in r :: IsDigit(c)
    ensures n > 0 ==> r[0] != ZERO
  {
    if n < 10 then [ZERO + n] else Digits(n / 10) + [ZERO + n % 10]
  }

  // `sprintf(.., "%d", n)`.
  function Decimal(n: int): (r: Text)
    ensures r != [] && StartsNumber(r)
    ensures forall c | c in r :: c == MINUS || IsDigit(c)
  {
    if n < 0 then [MINUS] + Digits(-n) else Digits(n)
  }

  lemma {:induction false} DigitsBound(n: nat, k: nat)
    requires n < Power(k) && k > 0
    ensures |Digits(n)| <= k
  {
    if n < 10 {
    } else {
      DigitsBound(n / 10, k - 1);
    }
  }

  function Power(k: nat): nat {
    if k == 0 then 1 else 10 * Power(k - 1)
  }

  // The 21 bytes `print_number` allocates hold every int and its terminator.
  lemma DecimalFits(n: int)
    requires INT_MIN <= n <= INT_MAX
    ensures |Decimal(n)| + 1 <= 21
  {
    assert Power(10) == 10000000000 by {
      assert Power(5) == 100000;
      assert Power(10) == 10 * (10 * (10 * (10 * (10 * Power(5)))));
    }
    DigitsBound(if n < 0 then -n else n, 10);
  }

  // Nothing in `t` would be taken for more of the number before it.
  predicate EndsNumber(t: Text) {
    !IsDigit(Head(t)) && Head(t) != DOT && Head(t) != LOWER_E && Head(t) != UPPER_E
  }

  lemma {:induction false} FoldAppended(s: Text, t: Text, n: int)
    requires (forall c | c in s :: IsDigit(c)) && !IsDigit(Head(t))
    ensures AfterDigits(s + t) == t && FoldDigits(s + t, n) == FoldDigits(s, n)
  {
    if s == [] {
      assert s + t == t;
    } else {
      assert (s + t)[1..] == s[1..] + t;
      FoldAppended(s[1..], t, n * 10 + (s[0] - ZERO));
    }
  }

  lemma {:induction false} FoldLast(s: Text, c: TextByte, n: int)
    requires (forall b | b in s :: IsDigit(b)) && IsDigit(c)
    ensures FoldDigits(s + [c], n) == FoldDigits(s, n) * 10 + (c - ZERO)
  {
    if s == [] {
      assert (s + [c])[1..] == [];
    } else {
      assert (s + [c])[1..] == s[1..] + [c];
      FoldLast(s[1..], c, n * 10 + (s[0] - ZERO));
    }
  }

  lemma {:induction false} DigitsFoldBack(n: nat)
    ensures FoldDigits(Digits(n), 0) == n
  {
    if n < 10 {
      assert Digits(n)[1..] == [];
    } else {
      DigitsFoldBack(n / 10);
      FoldLast(Digits(n / 10), ZERO + n % 10, 0);
    }
  }

  lemma NaturalReadsBack(n: nat, t: Text)
    requires EndsNumber(t)
    ensures var u := AfterZero(Digits(n) + t); Mantissa(u) == Scanned(n, 0, t)
  {
    var u := Digits(n) + t;
    if n == 0 {
      assert u[1..] == t;
    } else {
      DigitsFoldBack(n);
      FoldAppended(Digits(n), t, 0);
    }
  }

  // A printed int reads back as itself and the pointer stops right behind it.
  lemma DecimalReadsBack(n: int, t: Text)
    requires EndsNumber(t)
    ensures NumberRest(Decimal(n) + t) == t && NumberValue(Decimal(n) + t) == n as real
  {
    var m := if n < 0 then -n else n;
    var u := Decimal(n) + t;
    assert AfterMinus(u) == Digits(m) + t by {
      assert Digits(m)[0] in Digits(m);
      if n < 0 {
        assert u[1..] == Digits(m) + t;
      }
    }
    NaturalReadsBack(m, t);
    assert PowerOfTen(0) == 1.0;
  }
}

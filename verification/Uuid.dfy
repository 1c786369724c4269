/** The generator behind `uuid4_generate`: xorshift128+ on two 64-bit words, and
    the template that turns two outputs into a version 4 identifier. */
module Uuid {
  // ----- The generator step and its inverse -----

  datatype Seed = Seed(s0: bv64, s1: bv64)

  const ZERO_SEED := Seed(0, 0)

  function Left(x: bv64): bv64 {
    x ^ (x << 23)
  }

  function Right(x: bv64): bv64 {
    x ^ (x >> 18)
  }

  function Mix(t: bv64, b: bv64): bv64 {
    t ^ b ^ (b >> 5)
  }

  function Scramble(t: bv64, b: bv64): bv64 {
    t ^ b ^ (t >> 18) ^ (b >> 5)
  }

  lemma ScrambleAt(t: bv64, b: bv64, r: bv64)
    requires r == t ^ (t >> 18)
    ensures Scramble(t, b) == Mix(r, b)
  {
  }

  lemma ScrambleForm(t: bv64, b: bv64)
    ensures Scramble(t, b) == Mix(Right(t), b)
  {
    ScrambleAt(t, b, Right(t));
  }

  // The state after one step, and the number it gives out.
  function Step(s: Seed): Seed {
    Seed(s.s1, Scramble(Left(s.s0), s.s1))
  }

  const WORDS: nat := 0x1_0000_0000_0000_0000

  // Unsigned addition wraps around.
  function Wrapped(n: nat): nat {
    n % WORDS
  }

  // The sum, less 2 to the 64 where it does not fit.
  lemma SumWraps(x: nat, y: nat)
    requires x < WORDS && y < WORDS
    ensures Wrapped(x + y) == (if x + y < WORDS then x + y else x + y - WORDS) < WORDS
  {
  }

  function Output(s: Seed): nat {
    Wrapped(Step(s).s1 as nat + s.s1 as nat)
  }

  // The word with bit `i` alone; no word has one above 63.
  function One(i: bv8): bv64 {
    if i < 64 then 1 << i else 0
  }

  lemma LeftOfOne(i: bv8)
    requires i < 64
    ensures Left(One(i)) == One(i) ^ One(i + 23)
  {
  }

  lemma ScrambleOfOne(i: bv8)
    requires i < 64
    ensures Scramble(One(i), 0) == One(i) ^ if i < 18 then 0 else One(i - 18)
    ensures Scramble(0, One(i)) == One(i) ^ if i < 5 then 0 else One(i - 5)
  {
  }

  lemma ScrambleOfTwo(i: bv8, t: bv64, u: bv64)
    requires i < 41 && t == 1 << i && u == 1 << (i + 23)
    ensures Scramble(t ^ u, 0) == Scramble(t, 0) ^ Scramble(u, 0)
  {
  }

  // Where the step takes each bit of the state: out of the first word to four
  // places of the new one, as far as they are there, ...
  lemma FirstWordStep(i: bv8)
    requires i < 64
    ensures Step(Seed(One(i), 0)) == Seed(0,
              (One(i) ^ if i < 18 then 0 else One(i - 18)) ^ if i < 41 then One(i + 23) ^ One(i + 5) else 0)
  {
    LeftOfOne(i);
    ScrambleOfOne(i);
    if i < 41 {
      ScrambleOfTwo(i, One(i), One(i + 23));
      ScrambleOfOne(i + 23);
    }
  }

  // ... and out of the second to two, and to the first word.
  lemma SecondWordStep(i: bv8)
    requires i < 64
    ensures Step(Seed(0, One(i))) == Seed(One(i), One(i) ^ if i < 5 then 0 else One(i - 5))
  {
    ScrambleOfOne(i);
  }

  // Two steps from a state with bits in every place.
  lemma KnownSteps()
    ensures var s := Seed(0x0123_4567_89ab_cdef, 0xfedc_ba98_7654_3210);
            && Step(s) == Seed(0xfedc_ba98_7654_3210, 0x4bcd_e374_2fed_01e5)
            && Step(Step(s)) == Seed(0x4bcd_e374_2fed_01e5, 0xfb74_3057_14e6_046f)
            && Output(s) == 0x4aaa_9e0c_a641_33f5 && Output(Step(s)) == 0x4742_13cb_44d3_0654
  {
  }

  // ----- The inverse -----

  function UndoLeft(t: bv64): bv64 {
    t ^ (t << 23) ^ (t << 46)
  }

  function UndoRight(z: bv64): bv64 {
    z ^ (z >> 18) ^ (z >> 36) ^ (z >> 54)
  }

  function Back(s: Seed): Seed {
    Seed(UndoLeft(UndoRight(Mix(s.s1, s.s0))), s.s0)
  }

  lemma LeftUndoneAt(x: bv64, l: bv64)
    requires l == x ^ (x << 23)
    ensures UndoLeft(l) == x
  {
  }

  lemma RightUndoneAt(x: bv64, r: bv64)
    requires r == x ^ (x >> 18)
    ensures UndoRight(r) == x
  {
  }

  lemma LeftRedoneAt(t: bv64, u: bv64)
    requires u == t ^ (t << 23) ^ (t << 46)
    ensures Left(u) == t
  {
  }

  lemma RightRedoneAt(z: bv64, u: bv64)
    requires u == z ^ (z >> 18) ^ (z >> 36) ^ (z >> 54)
    ensures Right(u) == z
  {
  }

  lemma LeftUndone(x: bv64)
    ensures UndoLeft(Left(x)) == x && Left(UndoLeft(x)) == x
  {
    LeftUndoneAt(x, Left(x));
    LeftRedoneAt(x, UndoLeft(x));
  }

  lemma RightUndone(x: bv64)
    ensures UndoRight(Right(x)) == x && Right(UndoRight(x)) == x
  {
    RightUndoneAt(x, Right(x));
    RightRedoneAt(x, UndoRight(x));
  }

  lemma MixUndone(t: bv64, b: bv64)
    ensures Mix(Mix(t, b), b) == t
  {
  }

  lemma BackUndoesStep(s: Seed)
    ensures Back(Step(s)) == s
  {
    ScrambleForm(Left(s.s0), s.s1);
    MixUndone(Right(Left(s.s0)), s.s1);
    RightUndone(Left(s.s0));
    LeftUndone(s.s0);
  }

  lemma StepUndoesBack(s: Seed)
    ensures Step(Back(s)) == s
  {
    var z := Mix(s.s1, s.s0);
    RightUndone(z);
    LeftUndone(UndoRight(z));
    ScrambleForm(UndoRight(z), s.s0);
    MixUndone(s.s1, s.s0);
  }

  lemma StepIsOneToOne(s: Seed, t: Seed)
    ensures Step(s) == Step(t) <==> s == t
  {
    BackUndoesStep(s);
    BackUndoesStep(t);
  }

  // ----- Runs -----

  function Forward(s: Seed, n: nat): Seed
    decreases n
  {
    if n == 0 then s else Forward(Step(s), n - 1)
  }

  // Calls follow one another on the same state.
  lemma {:induction false} ForwardJoins(s: Seed, m: nat, n: nat)
    ensures Forward(Forward(s, m), n) == Forward(s, m + n)
    decreases m
  {
    if m == 0 {
    } else {
      ForwardJoins(Step(s), m - 1, n);
    }
  }

  function Rewind(s: Seed, n: nat): Seed {
    if n == 0 then s else Back(Rewind(s, n - 1))
  }

  // Every earlier state can be had back from a later one, and the other way.
  lemma {:induction false} RewindRecovers(s: Seed, n: nat)
    ensures Rewind(Forward(s, n), n) == s
    decreases n
  {
    if n == 0 {
    } else {
      RewindRecovers(Step(s), n - 1);
      BackUndoesStep(s);
    }
  }

  lemma {:induction false} ForwardRecovers(s: Seed, n: nat)
    ensures Forward(Rewind(s, n), n) == s
  {
    if n == 0 {
    } else {
      StepUndoesBack(Rewind(s, n - 1));
      ForwardRecovers(s, n - 1);
    }
  }

  lemma ZeroIsFixed()
    ensures Step(ZERO_SEED) == ZERO_SEED
  {
  }

  // No run of any length leads to the dead all-zero state, but from there.
  lemma {:induction false} NeverZero(s: Seed, n: nat)
    ensures Forward(s, n) == ZERO_SEED <==> s == ZERO_SEED
    decreases n
  {
    if n == 0 {
    } else {
      NeverZero(Step(s), n - 1);
      ZeroIsFixed();
      StepIsOneToOne(s, ZERO_SEED);
    }
  }

  // ----- The step as the source takes it -----

  ghost predicate Is(seed: array<bv64>, s: Seed)
    reads seed
  {
    seed.Length == 2 && seed[0] == s.s0 && seed[1] == s.s1
  }

  method Xorshift128plus(seed: array<bv64>, ghost s: Seed) returns (r: nat)
    requires Is(seed, s)
    modifies seed
    ensures Is(seed, Step(s)) && r == Output(s)
  {
    var s1 := seed[0];
    var s0 := seed[1];
    seed[0] := s0;
    s1 := Left(s1);
    seed[1] := Scramble(s1, s0);
    r := Wrapped(seed[1] as nat + s0 as nat);
  }

  // ----- The identifier -----

  const TEMPLATE := "xxxxxxxx-xxxx-4xxx-yxxx-xxxxxxxxxxxx"
  const CHARS := "0123456789abcdef"

  type Octet = x: nat | x < 256

  // Byte `k` of a word, counted from the low end.
  function ByteAt(w: nat, k: nat): Octet {
    if k == 0 then w % 256 else ByteAt(w / 256, k - 1)
  }

  function UnionByte(w0: nat, w1: nat): nat -> Octet {
    k => if k < 8 then ByteAt(w0, k) else ByteAt(w1, k - 8)
  }

  // The 16 bytes of the union on a little-endian machine.
  function UnionBytes(w0: nat, w1: nat): (b: seq<Octet>)
    ensures |b| == 16
  {
    seq<Octet>(16, UnionByte(w0, w1))
  }

  function Nibble(b: seq<Octet>, i: nat): (n: nat)
    requires i / 2 < |b|
    ensures n < 16
  {
    if i % 2 == 1 then b[i / 2] / 16 else b[i / 2] % 16
  }

  // How many places before `p` take a digit.
  function Taken(p: nat): nat {
    p - (if p > 8 then 1 else 0) - (if p > 13 then 1 else 0) - (if p > 14 then 1 else 0)
      - (if p > 18 then 1 else 0) - (if p > 23 then 1 else 0)
  }

  // One for each place before `p` that holds neither a dash nor the version.
  lemma TakenCounts(p: nat)
    requires p < 36
    ensures Taken(0) == 0
    ensures Taken(p + 1) == Taken(p) + if p == 8 || p == 13 || p == 14 || p == 18 || p == 23 then 0 else 1
  {
  }

  // ----- The digits of the two numbers -----

  // Digit `i` of a number in base 16, counted from the low end.
  function HexPlace(w: nat, i: nat): nat
    decreases i
  {
    if i == 0 then w % 16 else HexPlace(w / 16, i - 1)
  }

  function Power16(n: nat): (r: nat)
    ensures r > 0
  {
    if n == 0 then 1 else 16 * Power16(n - 1)
  }

  lemma {:induction false} BytePlaces(w: nat, k: nat)
    ensures ByteAt(w, k) % 16 == HexPlace(w, 2 * k) && ByteAt(w, k) / 16 == HexPlace(w, 2 * k + 1)
    decreases k
  {
    assert w / 16 / 16 == w / 256;
    if k == 0 {
      assert w % 256 == w - w / 256 * 256;
    } else {
      BytePlaces(w / 256, k - 1);
      assert HexPlace(w, 2 * k) == HexPlace(w / 16, 2 * k - 1) == HexPlace(w / 16 / 16, 2 * (k - 1));
      assert HexPlace(w, 2 * k + 1) == HexPlace(w / 16, 2 * k) == HexPlace(w / 16 / 16, 2 * (k - 1) + 1);
    }
  }

  // A number of `n` digits, with another one in front of them.
  lemma {:induction false} PlacesOfTwo(a: nat, b: nat, n: nat, i: nat)
    requires a < Power16(n)
    ensures HexPlace(a + b * Power16(n), i) == if i < n then HexPlace(a, i) else HexPlace(b, i - n)
    decreases n
  {
    if n == 0 {
    } else {
      var q := b * Power16(n - 1);
      assert a + b * Power16(n) == a + 16 * q;
      assert (a + 16 * q) / 16 == a / 16 + q && (a + 16 * q) % 16 == a % 16;
      if i > 0 {
        PlacesOfTwo(a / 16, b, n - 1, i - 1);
      }
    }
  }

  lemma WordIsSixteenPlaces()
    ensures Power16(16) == WORDS
  {
    assert Power16(4) == 0x10000;
    assert Power16(8) == 16 * (16 * (16 * (16 * Power16(4))));
    assert Power16(12) == 16 * (16 * (16 * (16 * Power16(8))));
    assert Power16(16) == 16 * (16 * (16 * (16 * Power16(12))));
  }

  // The nibbles of the union are the digits of the second number followed by
  // those of the first, from the last one on.
  lemma NibbleIsPlace(w0: nat, w1: nat, i: nat)
    requires w0 < WORDS && w1 < WORDS && i < 32
    ensures Nibble(UnionBytes(w0, w1), i) == HexPlace(w0 + w1 * WORDS, i)
  {
    WordIsSixteenPlaces();
    PlacesOfTwo(w0, w1, 16, i);
    var k := i / 2;
    assert i == 2 * k || i == 2 * k + 1;
    if k < 8 {
      BytePlaces(w0, k);
    } else {
      BytePlaces(w1, k - 8);
    }
  }

  // The character at a place, as section 4.4 of RFC 4122 lays it out: version 4
  // at 14, the variant in the two high bits at 19.
  function CharAt(b: seq<Octet>, p: nat): char
    requires |b| == 16 && p < 36
  {
    if p == 8 || p == 13 || p == 18 || p == 23 then '-'
    else if p == 14 then '4'
    else if p == 19 then CHARS[Nibble(b, Taken(p)) % 4 + 8]
    else CHARS[Nibble(b, Taken(p))]
  }

  function HexValue(c: char): int {
    if '0' <= c <= '9' then c as int - '0' as int
    else if 'a' <= c <= 'f' then 10 + c as int - 'a' as int
    else -1
  }

  // Dashes, the version and the variant are where they belong whatever the
  // numbers are, and the other places spell the nibbles in order.
  lemma Version4Layout(b: seq<Octet>, p: nat)
    requires |b| == 16 && p < 36
    ensures CharAt(b, p) == '-' <==> p == 8 || p == 13 || p == 18 || p == 23
    ensures HexValue(CharAt(b, 14)) == 4 && HexValue(CharAt(b, 19)) / 4 == 2
    ensures p == 19 ==> HexValue(CharAt(b, p)) % 4 == Nibble(b, Taken(p)) % 4
    ensures p != 8 && p != 13 && p != 14 && p != 18 && p != 19 && p != 23 ==>
              HexValue(CharAt(b, p)) == Nibble(b, Taken(p))
  {
    DigitValue(Nibble(b, Taken(p)));
    DigitValue(Nibble(b, Taken(p)) % 4 + 8);
    DigitValue(Nibble(b, Taken(19)) % 4 + 8);
  }

  lemma DigitValue(n: nat)
    requires n < 16
    ensures HexValue(CHARS[n]) == n && CHARS[n] != '-'
  {
  }

  lemma TemplateAt(p: nat)
    requires p < 36
    ensures TEMPLATE[p] == if p == 8 || p == 13 || p == 18 || p == 23 then '-'
                           else if p == 14 then '4' else if p == 19 then 'y' else 'x'
  {
  }

  ghost predicate Shows(dst: array<char>, b: seq<Octet>)
    requires |b| == 16
    reads dst
  {
    dst.Length >= 37 && dst[36] == '\0' && forall p {:trigger dst[p]} | 0 <= p < 36 :: dst[p] == CharAt(b, p)
  }

  // The loop over the template.
  method Render(bytes: seq<Octet>, dst: array<char>)
    requires |bytes| == 16 && dst.Length >= 37
    modifies dst
    ensures Shows(dst, bytes)
  {
    var p, i := 0, 0;
    while p < |TEMPLATE|
      invariant 0 <= p <= 36 && i == Taken(p)
      invariant forall k {:trigger dst[k]} | 0 <= k < p :: dst[k] == CharAt(bytes, k)
    {
      var n: nat := bytes[i / 2];
      n := if i % 2 == 1 then n / 16 else n % 16;
      TemplateAt(p);
      if TEMPLATE[p] == 'x' {
        dst[p] := CHARS[n];
        i := i + 1;
      } else if TEMPLATE[p] == 'y' {
        dst[p] := CHARS[n % 4 + 8];
        i := i + 1;
      } else {
        dst[p] := TEMPLATE[p];
      }
      p := p + 1;
    }
    dst[p] := '\0';
  }

  lemma TwoSteps(s: Seed)
    ensures Forward(s, 2) == Step(Step(s))
  {
    assert Forward(s, 2) == Forward(Step(s), 1);
  }

  method Draw(seed: array<bv64>, ghost s: Seed) returns (w0: nat, w1: nat)
    requires Is(seed, s)
    modifies seed
    ensures Is(seed, Forward(s, 2)) && w0 == Output(s) && w1 == Output(Step(s))
  {
    w0 := Xorshift128plus(seed, s);
    w1 := Xorshift128plus(seed, Step(s));
    TwoSteps(s);
  }

  // Two steps of the generator, and their outputs in the places of the template.
  method Generate(seed: array<bv64>, dst: array<char>, ghost s: Seed)
    requires Is(seed, s) && dst.Length >= 37
    modifies seed, dst
    ensures Is(seed, Forward(s, 2))
    ensures Shows(dst, UnionBytes(Output(s), Output(Step(s))))
  {
    var w0, w1 := Draw(seed, s);
    Render(UnionBytes(w0, w1), dst);
  }
}

// int_to_real and real_to_int of kernel/math/convert.c and the packed decimals of kernel/math/get_put.c.

module Integers {
  import opened Kernel
  import opened Words
  import opened Floats
  import opened Convert

  /** A temporary integer: magnitude and sign. */
  datatype TempInt = TempInt(a: word, b: word, sign: bool)

  function Size(i: TempInt): (m: int)
    ensures 0 <= m < W2
  {
    V2(i.a, i.b)
  }

  /** t is the real number of this sign and integral magnitude; zero has lost its sign. */
  ghost predicate Denotes(t: temp, m: int, sign: bool) {
    if m == 0 then t == Temp(0, 0, 0)
    else exists s: nat :: DenotesBy(t, m, sign, s)
  }

  ghost predicate DenotesBy(t: temp, m: int, sign: bool, s: nat) {
    s < 64 && Mantissa(t) == Left(m, s) && Exponent(t) == BIAS + 63 - s && (Sign(t) == 1 <==> sign)
  }

  /** int_to_real. */
  method IntToReal(i: TempInt) returns (t: temp)
    ensures Denotes(t, Size(i), i.sign)
    ensures Size(i) != 0 ==> Normal(t)
  {
    if i.a == 0 && i.b == 0 {
      return Temp(0, 0, 0);
    }
    t := Temp(i.a, i.b, BIAS + 63 + if i.sign then 0x8000 else 0);
    ghost var m, g, s: nat := Size(i), Size(i), 0;
    LeftStep(m, 0);
    hide Left;
    while t.b < HALF
      invariant Mantissa(t) == g == Left(m, s) && g > 0
      invariant s < 64 && t.exponent == BIAS + 63 - s + if i.sign then 0x8000 else 0
      decreases W2 - g
    {
      var l, h := DoubleWord(t.a, t.b);
      LeftStep(m, s);
      LeftGrows(m, s + 1);
      BelowTop(s + 1, 2 * g);
      t := Temp(l, h, t.exponent - 1);
      s := s + 1;
      g := 2 * g;
    }
    assert DenotesBy(t, m, i.sign, s);
  }

  lemma BelowTop(s: nat, g: int)
    requires P2(s) <= g < W2
    ensures s < 64
  {
    P2Large(s);
  }

  lemma {:induction false} P2Large(s: nat)
    ensures s >= 64 ==> P2(s) >= W2
  {
    P2Words();
    if s > 64 { P2Large(s - 1); }
  }

  /** What was denoted is an integer. */
  lemma DenotesValue(t: temp, m: int, sign: bool)
    requires Denotes(t, m, sign)
    ensures Magnitude(t) == m as real
  {
    if m != 0 {
      var s: nat :| DenotesBy(t, m, sign, s);
      ScaledShift(m, s, BIAS + 63 - s);
    }
    assert Exp2(0) == 1.0;
    TimesTwo(m as real, 1.0);
    TimesTwo(Exp2(-BIAS - 63), 1.0);
  }

  // ---------------------------------------------------------------- real_to_int

  /** The magnitude with 32 places behind the point, cut off. */
  function Fixed(m: int, shift: nat): int {
    m * W / P2(shift)
  }

  /** Rounds a number with 32 places behind the point to an integer. */
  function Round(f: int, sign: bool, mode: Rounding): int {
    var n, u := f / W, f % W;
    match mode
    case Nearest => if u > HALF || (u == HALF && n % 2 == 1) then n + 1 else n
    case Up => if !sign && u != 0 then n + 1 else n
    case Down => if sign && u != 0 then n + 1 else n
    case Chop => n
  }

  /** shrdl. */
  function Shrd(lo: word, hi: word, p: int): word
    requires p > 0
  {
    (lo + hi * W) / p % W
  }

  lemma ShiftThree(u: word, a: word, b: word, p: int, z: int)
    requires p > 0 && z > 0 && p * z == W
    ensures 0 <= b / p < W
    ensures Shrd(u, a, p) + Shrd(a, b, p) * W + (b / p) * W2 == (u + a * W + b * W2) / p
  {
    ShiftTwo(a, b, p, z);
    var low, all := u + a * W, u + a * W + b * W2;
    var q, r := low / p, low % p;
    assert low == q * p + r;
    Associate(b * W, z, p);
    Associate(z, p, 1);
    var k := b * W * z;
    Distribute(q, k, p);
    assert all == (q + k) * p + r;
    QuotientIs(all, q + k, p, r);
    Associate(b * z, W, 1);
    Associate(b, W, z);
    Associate(b, z, W);
    Associate(W, z, 1);
    assert k == (b * z) * W;
    SameRemainder(q, b * z);
    OneDivision(all, p, W);
    OneDivision(all, W, p);
    Associate(p, W, 1);
    assert all / W == a + b * W;
  }

  lemma SameRemainder(q: int, k: int)
    ensures (q + k * W) % W == q % W
  {
  }

  lemma ShiftTwo(a: word, b: word, p: int, z: int)
    requires p > 0 && z > 0 && p * z == W
    ensures 0 <= b / p < W
    ensures Shrd(a, b, p) + (b / p) * W == (a + b * W) / p
  {
    var v := a + b * W;
    OneDivision(v, p, W);
    OneDivision(v, W, p);
    Associate(p, W, 1);
    assert v / W == b;
    assert b == (b / p) * p + b % p;
    Monotone(1, p, b / p);
    Associate(p, b / p, 1);
  }

  /** Whole words first: the three words are the mantissa with 32 places behind the point, less the bits
      of shift that are left. */
  method Place(t: temp, shift: nat) returns (u: word, a: word, b: word, n: nat)
    requires shift < 96
    ensures n < 32 && (u + a * W + b * W2) / P2(n) == Fixed(Mantissa(t), shift)
  {
    PlaceValue(Mantissa(t), shift);
    if shift < 32 {
      u, a, b, n := 0, t.a, t.b, shift;
    } else if shift < 64 {
      u, a, b, n := t.a, t.b, 0, shift - 32;
    } else {
      u, a, b, n := t.b, 0, 0, shift - 64;
    }
  }

  lemma PlaceValue(m: int, shift: nat)
    requires 0 <= m < W2
    ensures 32 <= shift < 64 ==> Fixed(m, shift) == m / P2(shift - 32)
    ensures 64 <= shift ==> Fixed(m, shift) == m / W / P2(shift - 64)
  {
    P2Words();
    if 32 <= shift {
      P2Add(32, shift - 32);
      OneDivision(m * W, W, P2(shift - 32));
      assert m * W / W == m;
    }
    if 64 <= shift {
      P2Add(32, shift - 64);
      OneDivision(m, W, P2(shift - 64));
    }
  }

  /** real_to_int: the magnitude rounded to an integer, or overflow. */
  method RealToInt(t: temp, mode: Rounding) returns (i: TempInt, overflow: bool)
    ensures overflow <==> Exponent(t) > BIAS + 63
    ensures i.sign <==> Sign(t) == 1
    ensures overflow ==> Size(i) == 0
    ensures !overflow ==> Size(i) == Round(Fixed(Mantissa(t), BIAS + 63 - Exponent(t)), Sign(t) == 1, mode)
  {
    var sign := Sign(t) == 1;
    var shift := BIAS + 63 - Exponent(t);
    if shift < 0 {
      return TempInt(0, 0, sign), true;
    }
    overflow := false;
    if shift >= 96 {
      FixedVanishes(Mantissa(t), shift);
      return TempInt(0, 0, sign), false;
    }
    var u, a, b, n := Place(t, shift);
    ghost var f := Fixed(Mantissa(t), shift);
    FixedBound(Mantissa(t), shift);
    u, a, b := ShiftAll(u, a, b, n);
    a, b := RoundOff(u, a, b, sign, mode, f);
    i := TempInt(a, b, sign);
  }

  method ShiftAll(u0: word, a0: word, b0: word, n: nat) returns (u: word, a: word, b: word)
    requires n < 32
    ensures u + a * W + b * W2 == (u0 + a0 * W + b0 * W2) / P2(n)
  {
    P2Words();
    P2Add(n, 32 - n);
    ShiftThree(u0, a0, b0, P2(n), P2(32 - n));
    u := Shrd(u0, a0, P2(n));
    a := Shrd(a0, b0, P2(n));
    b := b0 / P2(n);
  }

  /** The additions with carry that round. */
  method RoundOff(u: word, a0: word, b0: word, sign: bool, mode: Rounding, ghost f: int) returns (a: word, b: word)
    requires u + a0 * W + b0 * W2 == f
    requires f % W != 0 ==> f < HALF2 * W
    ensures V2(a, b) == Round(f, sign, mode)
  {
    a, b := a0, b0;
    Split(u, a, b, f);
    var up := (mode == Up && !sign && u != 0) || (mode == Down && sign && u != 0);
    if mode == Nearest {
      var x, k;
      x, k := AddCarry(u, 0x7fff_ffff + a % 2, 0);
      a, b := AddBit(a, b, k);
    } else if up {
      a, b := AddBit(a, b, 1);
    }
  }

  lemma Split(u: word, a: word, b: word, f: int)
    requires u + a * W + b * W2 == f
    ensures f / W == V2(a, b) && f % W == u && V2(a, b) % 2 == a % 2
    ensures f < HALF2 * W ==> V2(a, b) < HALF2
  {
  }

  /** adcl $0 twice. */
  method AddBit(a0: word, b0: word, k0: bit) returns (a: word, b: word)
    requires V2(a0, b0) + k0 < W2
    ensures V2(a, b) == V2(a0, b0) + k0
  {
    var k;
    a, k := AddCarry(a0, 0, k0);
    b, k := AddCarry(b0, 0, k);
  }

  lemma FixedVanishes(m: int, shift: nat)
    requires 0 <= m < W2 && shift >= 96
    ensures Fixed(m, shift) == 0
  {
    P2Words();
    P2Add(64, 32);
    if shift > 96 { P2Monotone(96, shift); }
    QuotientIs(m * W, 0, P2(shift), m * W);
  }

  /** Anything behind the point means that the integer has lost at least one bit. */
  lemma FixedBound(m: int, shift: nat)
    requires 0 <= m < W2
    ensures Fixed(m, shift) % W != 0 ==> Fixed(m, shift) < HALF2 * W
  {
    if shift == 0 {
      QuotientIs(m * W, m * W, 1, 0);
    } else {
      var p := P2(shift - 1);
      assert P2(shift) == 2 * p;
      OneDivision(m * W, 2, p);
      var h := m * W / 2;
      assert h == (h / p) * p + h % p;
      Monotone(1, p, h / p);
      Associate(p, h / p, 1);
    }
  }

  // ---------------------------------------------------------------- what the conversions promise

  /** Rounding to nearest is off by no more than half, but for the 33rd place behind the point. */
  lemma NearestIsNear(m: int, shift: nat, sign: bool)
    requires 0 <= m < W2
    ensures var p, n := P2(shift), Round(Fixed(m, shift), sign, Nearest);
      -(HALF + 1) * p < m * W - n * W * p < (HALF + 1) * p
  {
    var p, f := P2(shift), Fixed(m, shift);
    var n := Round(f, sign, Nearest);
    assert -HALF <= f - n * W <= HALF;
    Near(m * W, f, n * W, p);
  }

  lemma Near(v: int, f: int, c: int, p: int)
    requires p > 0 && f == v / p && -HALF <= f - c <= HALF
    ensures -(HALF + 1) * p < v - c * p < (HALF + 1) * p
  {
    assert v == f * p + v % p;
    Distribute(f, -c, p);
    Monotone(-HALF, f - c, p);
    Monotone(f - c, HALF, p);
  }

  /** An integer is converted back exactly, in every mode. */
  lemma ExactBack(t: temp, m: int, sign: bool, mode: Rounding)
    requires Denotes(t, m, sign) && 0 < m < W2
    ensures 0 <= BIAS + 63 - Exponent(t) && (Sign(t) == 1 <==> sign)
    ensures Round(Fixed(Mantissa(t), BIAS + 63 - Exponent(t)), sign, mode) == m
  {
    var s: nat :| DenotesBy(t, m, sign, s);
    var p := P2(s);
    Associate(m, p, W);
    Associate(m, W, p);
    Associate(p, W, 1);
    QuotientIs(m * p * W, m * W, p, 0);
    assert (m * W) / W == m && (m * W) % W == 0;
  }

  /** Every nonzero signed 64-bit magnitude survives int_to_real and then real_to_int. Zero does too,
      except for its sign. */
  method IntRoundTrip(i: TempInt, mode: Rounding) returns (j: TempInt)
    ensures j == i <==> Size(i) != 0 || !i.sign
    ensures Size(j) == Size(i)
  {
    var t := IntToReal(i);
    if Size(i) != 0 { ExactBack(t, Size(i), i.sign, mode); } else { FixedVanishes(0, BIAS + 63); }
    var overflow;
    j, overflow := RealToInt(t, mode);
  }

  // ---------------------------------------------------------------- packed decimals

  /** MUL10. */
  method Mul10(lo: word, hi: word) returns (l: word, h: word)
    requires 10 * V2(lo, hi) < W2
    ensures V2(l, h) == 10 * V2(lo, hi)
  {
    var k;
    l, k := AddCarry(lo, lo, 0);
    h, k := AddCarry(hi, hi, k);
    var c, b := l, h;
    l, k := AddCarry(l, l, 0);
    h, k := AddCarry(h, h, k);
    l, k := AddCarry(l, l, 0);
    h, k := AddCarry(h, h, k);
    l, k := AddCarry(l, c, 0);
    h, k := AddCarry(h, b, k);
  }

  /** ADD64. */
  method Add64(v: word, lo: word, hi: word) returns (l: word, h: word)
    requires v + V2(lo, hi) < W2
    ensures V2(l, h) == v + V2(lo, hi)
  {
    var k;
    l, k := AddCarry(lo, v, 0);
    h, k := AddCarry(hi, 0, k);
  }

  /** DIV10: two divisions of a double word by ten, the remainder of the upper going into the lower. */
  method Div10(lo: word, hi: word) returns (l: word, h: word, rem: int)
    ensures V2(l, h) == V2(lo, hi) / 10 && rem == V2(lo, hi) % 10
  {
    h := hi / 10;
    var low := (hi % 10) * W + lo;
    l, rem := low / 10, low % 10;
    assert V2(lo, hi) == 10 * V2(l, h) + rem;
  }

  /** The value of the n low bytes, two digits each. */
  function Decimal(bytes: seq<byte>, n: nat): (v: int)
    requires n <= |bytes|
    ensures v >= 0
  {
    if n == 0 then 0 else Decimal(bytes[1..], n - 1) * 100 + (bytes[0] / 16) * 10 + bytes[0] % 16
  }

  /** The same from the other end: one more byte at the top. */
  lemma {:induction false} DecimalTop(bytes: seq<byte>, k: nat, n: nat)
    requires k < n <= |bytes|
    ensures Decimal(bytes[k..], n - k)
         == Decimal(bytes[k + 1..], n - k - 1) * 100 + (bytes[k] / 16) * 10 + bytes[k] % 16
  {
    assert bytes[k..][1..] == bytes[k + 1..];
  }

  function Pow100(n: nat): (p: int)
    ensures p >= 1
  {
    if n == 0 then 1 else 100 * Pow100(n - 1)
  }

  /** No byte exceeds 165, so nine of them stay far below 2^64. */
  lemma {:induction false} DecimalBound(bytes: seq<byte>, n: nat)
    requires n <= |bytes|
    ensures Decimal(bytes, n) <= 2 * (Pow100(n) - 1)
  {
    if n > 0 { DecimalBound(bytes[1..], n - 1); }
  }

  lemma Pow100Nine()
    ensures Pow100(9) == 1_000_000_000_000_000_000
  {
    assert Pow100(3) == 1_000_000;
    assert Pow100(6) == 1_000_000_000_000;
  }

  /** get_BCD. */
  method GetBcd(bytes: seq<byte>) returns (t: temp)
    requires |bytes| == 10
    ensures Denotes(t, Decimal(bytes, 9), bytes[9] >= 0x80)
  {
    var sign := bytes[9] >= 0x80;
    var a: word, b: word, k := 0, 0, 9;
    while k > 0
      invariant 0 <= k <= 9
      invariant V2(a, b) == Decimal(bytes[k..], 9 - k)
    {
      k := k - 1;
      var c := bytes[k];
      DecimalTop(bytes, k, 9);
      DecimalBound(bytes[k..], 9 - k);
      Pow100Small(9 - k);
      a, b := Mul10(a, b);
      a, b := Add64(c / 16, a, b);
      a, b := Mul10(a, b);
      a, b := Add64(c % 16, a, b);
    }
    assert bytes[0..] == bytes;
    t := IntToReal(TempInt(a, b, sign));
  }

  lemma {:induction false} Pow100Small(n: nat)
    requires n <= 9
    ensures Pow100(n) <= 1_000_000_000_000_000_000
  {
    Pow100Nine();
    if n < 9 { Pow100Rises(n, 9); }
  }

  lemma {:induction false} Pow100Rises(n: nat, m: nat)
    requires n <= m
    ensures Pow100(n) <= Pow100(m)
    decreases m
  {
    if n < m { Pow100Rises(n, m - 1); }
  }

  /** The two digits at place k of a number. */
  function DigitsAt(v: int, k: nat): byte
    requires v >= 0
  {
    var d := v / Pow100(k) % 100;
    (d / 10) * 16 + d % 10
  }

  lemma NextDigits(v: int, k: nat, x: int)
    requires v >= 0 && x == v / Pow100(k)
    ensures v / Pow100(k + 1) == x / 10 / 10
    ensures DigitsAt(v, k) == (x / 10 % 10) * 16 + x % 10
  {
    var p := Pow100(k);
    OneDivision(v, p, 100);
    Associate(p, 100, 1);
    TwoDigits(x);
  }

  /** Two digits, the lower one first. */
  method PutByte(a0: word, b0: word, ghost v: int, ghost k: nat) returns (a: word, b: word, c: byte)
    requires v >= 0 && V2(a0, b0) == v / Pow100(k)
    ensures V2(a, b) == v / Pow100(k + 1) && c == DigitsAt(v, k)
  {
    NextDigits(v, k, V2(a0, b0));
    hide Pow100, DigitsAt;
    var r1, r2;
    a, b, r1 := Div10(a0, b0);
    a, b, r2 := Div10(a, b);
    c := r1 + r2 * 16;
  }

  /** put_BCD: the sign and the low 18 digits. */
  method PutBcd(t: temp, mode: Rounding) returns (bytes: seq<byte>, ghost v: int)
    ensures v == if Exponent(t) > BIAS + 63 then 0
      else Round(Fixed(Mantissa(t), BIAS + 63 - Exponent(t)), Sign(t) == 1, mode)
    ensures v >= 0 && |bytes| == 10 && bytes[9] == (if Sign(t) == 1 then 0x80 else 0)
    ensures forall k: nat | k < 9 :: bytes[k] == DigitsAt(v, k)
  {
    var i, overflow := RealToInt(t, mode);
    var a, b, k := i.a, i.b, 0;
    v := Size(i);
    assert v / Pow100(0) == v;
    hide Pow100, DigitsAt, Round, Fixed;
    var low: seq<byte> := [];
    while k < 9
      invariant 0 <= k <= 9 && |low| == k
      invariant V2(a, b) == v / Pow100(k)
      invariant forall j: nat | j < k :: low[j] == DigitsAt(v, j)
    {
      var c;
      a, b, c := PutByte(a, b, v, k);
      low := low + [c];
      k := k + 1;
    }
    bytes := low + [if i.sign then 0x80 else 0];
  }

  lemma TwoDigits(v: int)
    requires v >= 0
    ensures v / 10 / 10 == v / 100 && v % 100 == v / 10 % 10 * 10 + v % 10
  {
  }

  /** Eighteen decimal digits and nothing else; a negative number is not zero. */
  predicate Canonical(bytes: seq<byte>)
    requires |bytes| == 10
  {
    && (forall k: nat | k < 9 :: bytes[k] % 16 < 10 && bytes[k] / 16 < 10)
    && (bytes[9] == 0 || (bytes[9] == 0x80 && Decimal(bytes, 9) != 0))
  }

  /** The digits of a decimal are its own. */
  lemma {:induction false} OwnDigits(bytes: seq<byte>, n: nat, k: nat)
    requires k < n <= |bytes| && forall j: nat | j < n :: bytes[j] % 16 < 10 && bytes[j] / 16 < 10
    ensures DigitsAt(Decimal(bytes, n), k) == bytes[k]
    decreases n
  {
    var v, rest := Decimal(bytes, n), Decimal(bytes[1..], n - 1);
    var c := (bytes[0] / 16) * 10 + bytes[0] % 16;
    assert v == rest * 100 + c && v / 100 == rest && v % 100 == c;
    if k > 0 {
      OwnDigits(bytes[1..], n - 1, k - 1);
      OneDivision(v, 100, Pow100(k - 1));
    }
  }

  /** A packed decimal comes back through the two instructions exactly if it is canonical: negative zero
      loses its sign, and what is not a digit is carried. */
  method BcdRoundTrip(bytes: seq<byte>, mode: Rounding) returns (out: seq<byte>)
    requires |bytes| == 10
    ensures out == bytes <==> Canonical(bytes)
  {
    var t := GetBcd(bytes);
    ghost var m := Decimal(bytes, 9);
    ghost var v;
    out, v := PutBcd(t, mode);
    DecimalBound(bytes, 9);
    Pow100Nine();
    if m != 0 { ExactBack(t, m, bytes[9] >= 0x80, mode); } else { FixedVanishes(0, BIAS + 63); }
    assert v == m;
    SameBytes(bytes, out, v);
  }

  lemma SameBytes(bytes: seq<byte>, out: seq<byte>, v: int)
    requires |bytes| == |out| == 10 && v == Decimal(bytes, 9)
    requires forall k: nat | k < 9 :: out[k] == DigitsAt(v, k)
    requires out[9] == if bytes[9] >= 0x80 && v != 0 then 0x80 else 0
    ensures out == bytes <==> Canonical(bytes)
  {
    forall k: nat | k < 9 ensures out[k] % 16 < 10 && out[k] / 16 < 10 { DigitsSmall(v, k); }
    if Canonical(bytes) {
      forall k: nat | k < 9 ensures out[k] == bytes[k] { OwnDigits(bytes, 9, k); }
      hide DigitsAt, Decimal;
      assert forall k: nat | k < 10 :: out[k] == bytes[k];
    }
  }

  lemma DigitsSmall(v: int, k: nat)
    requires v >= 0
    ensures DigitsAt(v, k) % 16 < 10 && DigitsAt(v, k) / 16 < 10
  {
  }
}

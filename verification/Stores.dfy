// How far temp_to_short, temp_to_long and real_to_int are from the real they store (IEEE 754-1985, section 4).

module Stores {
  import opened Words
  import opened Floats
  import opened Convert
  import opened Integers

  /** The mode asks for the neighbour away from zero. */
  predicate Outward(mode: Rounding, g: bit) {
    (mode == Down && g == 1) || (mode == Up && g == 0)
  }

  /** Magnitude v is x rounded to a multiple of unit in this mode: off by at most half a unit, or by less than
      one in the right direction. */
  predicate Rounds(mode: Rounding, g: bit, x: real, v: real, unit: real) {
    if mode == Nearest then 2.0 * v <= 2.0 * x + unit && 2.0 * x <= 2.0 * v + unit
    else if Outward(mode, g) then x <= v < x + unit
    else v <= x < v + unit
  }

  predicate Near(x: real, v: real, unit: real) {
    x <= v + unit && v <= x + unit
  }

  /** The same between mantissas. */
  predicate RoundsInt(mode: Rounding, g: bit, x: int, v: int, unit: int) {
    if mode == Nearest then 2 * v <= 2 * x + unit && 2 * x <= 2 * v + unit
    else if Outward(mode, g) then x <= v < x + unit
    else v <= x < v + unit
  }

  lemma ScaledLess(a: int, b: int, e: int)
    ensures Scaled(a, e) <= Scaled(b, e) <==> a <= b
    ensures Scaled(a, e) < Scaled(b, e) <==> a < b
  {
    ScaledMono(a, b, e);
    ScaledMono(b, a, e);
  }

  lemma ScaledRounds(mode: Rounding, g: bit, x: int, v: int, unit: int, e: int)
    ensures Rounds(mode, g, Scaled(x, e), Scaled(v, e), Scaled(unit, e)) <==> RoundsInt(mode, g, x, v, unit)
    ensures Near(Scaled(x, e), Scaled(v, e), Scaled(unit, e)) <==> x <= v + unit && v <= x + unit
  {
    hide Scaled;
    ScaledAdd(x, unit, e);
    ScaledAdd(v, unit, e);
    ScaledAdd(x, x, e);
    ScaledAdd(v, v, e);
    ScaledAdd(x + x, unit, e);
    ScaledAdd(v + v, unit, e);
    ScaledLess(x, v, e);
    ScaledLess(v, x, e);
    ScaledLess(x, v + unit, e);
    ScaledLess(v, x + unit, e);
    ScaledLess(v + v, x + x + unit, e);
    ScaledLess(x + x, v + v + unit, e);
  }

  // ---------------------------------------------------------------- short reals

  /** Fraction f, or the carry out of it, under exponent e. */
  lemma ShortValue(g: bit, e: int, f: int)
    requires 0 < e < 255 && 0 <= f <= FRACTION && (f == FRACTION ==> e < 254)
    ensures var s := g * HALF + e * FRACTION + f;
      0 <= s < W && (s >= HALF <==> g == 1) && ShortMagnitude(s) == Scaled((FRACTION + f) * P2(40), e - 127 + BIAS)
  {
    var s := g * HALF + e * FRACTION + f;
    hide P2;
    ScaledShift(FRACTION + f, 40, e - 127 + BIAS);
    if f < FRACTION {
      assert (s / FRACTION) % 0x100 == e && s % FRACTION == f;
    } else {
      assert (s / FRACTION) % 0x100 == e + 1 && s % FRACTION == 0;
      Exp2Step(e - 127 - 23);
      TimesTwo(FRACTION as real, Exp2(e - 127 - 23));
    }
  }

  /** The fields of a temporary real within the range of short reals. */
  lemma ShortCut(t: temp, mode: Rounding) returns (f: int)
    requires Normal(t) && 0 < Exponent(t) - BIAS + 127 < 255
    ensures 0 <= f < FRACTION && t.b == (FRACTION + f) * 0x100 + t.b % 0x100
    ensures TempToShort(t, mode) ==
      Sign(t) * HALF + (Exponent(t) - BIAS + 127) * FRACTION + if ShortUp(t, mode) then f + 1 else f
  {
    f := t.b / 0x100 - FRACTION;
    assert (t.b / 0x100) % FRACTION == f;
    assert (t.exponent - BIAS + 127) % 0x100 == Exponent(t) - BIAS + 127;
  }

  /** temp_to_short is within one unit in the last place, and rounds as the mode says except that it does not
      look at the lower 32 bits of the mantissa: it rounds down where only they put it above the middle, and
      does not round outward where they are all that is lost. */
  lemma ShortRounding(t: temp, mode: Rounding)
    requires Normal(t) && 0 < Exponent(t) - BIAS + 127 < 255 && (TempToShort(t, mode) / FRACTION) % 0x100 < 255
    ensures var s, unit := TempToShort(t, mode), Scaled(P2(40), Exponent(t));
      && (s >= HALF <==> Sign(t) == 1) && Near(Magnitude(t), ShortMagnitude(s), unit)
      && (Rounds(mode, Sign(t), Magnitude(t), ShortMagnitude(s), unit) <==>
           (t.a != 0 ==> if mode == Nearest then t.b % 0x100 != 0x80 else Outward(mode, Sign(t)) ==> t.b % 0x100 != 0))
  {
    hide TempToShort, Scaled, Rounds, RoundsInt, Near, ShortUp, ShortMagnitude, P2, Exponent, Sign, Mantissa, Outward;
    var f := ShortCut(t, mode);
    var g, e := Sign(t), Exponent(t) - BIAS + 127;
    var k := if ShortUp(t, mode) then f + 1 else f;
    ShortValue(g, e, k);
    P2Forty();
    ShortRoundsInt(t, mode, f, k);
    ScaledRounds(mode, g, Mantissa(t), (FRACTION + k) * P2(40), P2(40), Exponent(t));
  }

  lemma ShortRoundsInt(t: temp, mode: Rounding, f: int, k: int)
    requires t.b == (FRACTION + f) * 0x100 + t.b % 0x100 && k == if ShortUp(t, mode) then f + 1 else f
    ensures var m, v, unit := Mantissa(t), (FRACTION + k) * (W * 0x100), W * 0x100;
      && m <= v + unit && v <= m + unit
      && (RoundsInt(mode, Sign(t), m, v, unit) <==>
           (t.a != 0 ==> if mode == Nearest then t.b % 0x100 != 0x80 else Outward(mode, Sign(t)) ==> t.b % 0x100 != 0))
  {
  }

  // ---------------------------------------------------------------- long reals

  /** The magnitude of a long real that is not infinite. */
  function LongMagnitude(l: Long): real {
    var e, f := (l.b / TOP_FRACTION) % 0x800, l.b % TOP_FRACTION * W + l.a;
    if e == 0 then Times(f as real, Exp2(1 - 1023 - 52)) else Times((TOP_FRACTION * W + f) as real, Exp2(e - 1023 - 52))
  }

  /** long_to_temp is exact except on denormalised numbers, which it takes for normalised ones. */
  lemma LongExact(l: Long)
    requires (l.b / TOP_FRACTION) % 0x800 < 0x7FF
    ensures Magnitude(LongToTemp(l)) == LongMagnitude(l) <==>
      (l.b / TOP_FRACTION) % 0x800 != 0 || (l.b % TOP_FRACTION == 0 && l.a == 0)
  {
    var e, n := LongParts(l);
    if l.a == 0 && l.b % HALF == 0 {
      ZeroTimes(Exp2(1 - 1023 - 52));
      ZeroTimes(Exp2(-BIAS - 63));
    } else {
      P2Eleven();
      hide P2, LongToTemp, Exponent, Mantissa;
      ScaledShift(TOP_FRACTION * W + n, 11, e - 1023 + BIAS);
      if e == 0 { LongTooBig(n); }
    }
  }

  lemma LongParts(l: Long) returns (e: int, n: int)
    ensures e == (l.b / TOP_FRACTION) % 0x800 && n == l.b % TOP_FRACTION * W + l.a && 0 <= n < TOP_FRACTION * W
    ensures l.a == 0 && l.b % HALF == 0 <==> e == 0 && n == 0
    ensures e != 0 || n != 0 ==>
      Exponent(LongToTemp(l)) == e - 1023 + BIAS && Mantissa(LongToTemp(l)) == (TOP_FRACTION * W + n) * 0x800
  {
    var g, f;
    g, e, f := LongFields(l);
    n := f * W + l.a;
    assert e == (l.b / TOP_FRACTION) % 0x800 && f == l.b % TOP_FRACTION;
    hide LongToTemp;
  }

  lemma LongTooBig(n: int)
    requires 0 <= n < TOP_FRACTION * W
    ensures Times(n as real, Exp2(1 - 1023 - 52)) < Times((TOP_FRACTION * W + n) as real, Exp2(0 - 1023 - 52))
  {
    Exp2Step(0 - 1023 - 52);
    TimesTwo(n as real, Exp2(0 - 1023 - 52));
    hide Times, Exp2;
    TimesMono(2.0 * n as real, (TOP_FRACTION * W + n) as real, Exp2(0 - 1023 - 52));
  }

  /** The long real with sign g, exponent e and the 52 bits of f, or the carry out of them. */
  function LongOf(g: bit, e: int, f: int): Long
    requires 0 < e < 0x7FF && 0 <= f <= TOP_FRACTION * W
  {
    Long(f % W, g * HALF + e * TOP_FRACTION + f / W)
  }

  lemma LongValue(g: bit, e: int, f: int)
    requires 0 < e < 0x7FF && 0 <= f <= TOP_FRACTION * W && (f == TOP_FRACTION * W ==> e < 0x7FE)
    ensures (LongOf(g, e, f).b >= HALF <==> g == 1)
    ensures LongMagnitude(LongOf(g, e, f)) == Scaled((TOP_FRACTION * W + f) * 0x800, e - 1023 + BIAS)
  {
    var l := LongOf(g, e, f);
    P2Eleven();
    hide P2;
    ScaledShift(TOP_FRACTION * W + f, 11, e - 1023 + BIAS);
    if f < TOP_FRACTION * W {
      assert (l.b / TOP_FRACTION) % 0x800 == e && l.b % TOP_FRACTION == f / W;
    } else {
      assert (l.b / TOP_FRACTION) % 0x800 == e + 1 && l.b % TOP_FRACTION == 0 && l.a == 0;
      Exp2Step(e - 1023 - 52);
      TimesTwo((TOP_FRACTION * W) as real, Exp2(e - 1023 - 52));
    }
  }

  lemma P2Eleven()
    ensures P2(11) == 0x800
  {
  }

  /** The words of the fraction f of mantissa b, a. */
  lemma LongWords(a: word, b: word) returns (f: int)
    requires b >= HALF
    ensures 0 <= f < TOP_FRACTION * W && V2(a, b) == (TOP_FRACTION * W + f) * 0x800 + a % 0x800
    ensures f % W == (b * 0x20_0000) % W + (a / 0x800) % 0x20_0000 && f / W == (b / 0x800) % TOP_FRACTION
  {
    var hi, mid := b / 0x800 - TOP_FRACTION, b % 0x800;
    f := hi * W + (mid * 0x20_0000 + a / 0x800);
    LongTop(b, hi, mid);
  }

  lemma NextLong(g: bit, e: int, f: int)
    requires 0 < e < 0x7FF && 0 <= f < TOP_FRACTION * W
    ensures PlusOne(LongOf(g, e, f)) == LongOf(g, e, f + 1)
  {
    assert (f + 1) / W == if f % W == W - 1 then f / W + 1 else f / W;
  }

  lemma LongCutIs(t: temp, mode: Rounding) returns (f: int)
    requires Normal(t) && 0 < Exponent(t) - BIAS + 1023 < 0x7FF
    ensures 0 <= f < TOP_FRACTION * W && Mantissa(t) == (TOP_FRACTION * W + f) * 0x800 + t.a % 0x800
    ensures TempToLong(t, mode) == LongOf(Sign(t), Exponent(t) - BIAS + 1023, if LongUp(t, mode) then f + 1 else f)
  {
    f := LongWords(t.a, t.b);
    assert (t.exponent - BIAS + 1023) % 0x800 == Exponent(t) - BIAS + 1023;
    hide PlusOne, LongUp;
    NextLong(Sign(t), Exponent(t) - BIAS + 1023, f);
  }

  lemma LongRange(g: bit, e: int, f: int)
    requires 0 < e < 0x7FF && 0 <= f <= TOP_FRACTION * W && (LongOf(g, e, f).b / TOP_FRACTION) % 0x800 < 0x7FF
    ensures f == TOP_FRACTION * W ==> e < 0x7FE
  {
  }

  /** temp_to_long rounds to nearest correctly. In the other modes it looks at the wrong bits: it is right
      unless it should round outward, and then exactly if the lowest eight bits of the upper mantissa word are
      clear if and only if the bits lost are. */
  lemma LongRounding(t: temp, mode: Rounding)
    requires Normal(t) && 0 < Exponent(t) - BIAS + 1023 < 0x7FF
    requires (TempToLong(t, mode).b / TOP_FRACTION) % 0x800 < 0x7FF
    ensures var l, unit := TempToLong(t, mode), Scaled(0x800, Exponent(t));
      && (l.b >= HALF <==> Sign(t) == 1) && Near(Magnitude(t), LongMagnitude(l), unit)
      && (Rounds(mode, Sign(t), Magnitude(t), LongMagnitude(l), unit) <==>
           (Outward(mode, Sign(t)) ==> (t.b % 0x100 == 0 <==> t.a % 0x800 == 0)))
  {
    hide Scaled, Rounds, RoundsInt, Near, LongUp, TempToLong, LongOf, LongMagnitude, Exponent, Sign, Mantissa, Outward;
    var f := LongCutIs(t, mode);
    var g, e := Sign(t), Exponent(t) - BIAS + 1023;
    var k := if LongUp(t, mode) then f + 1 else f;
    LongRange(g, e, k);
    LongValue(g, e, k);
    LongRoundsInt(t, mode, f, k);
    ScaledRounds(mode, g, Mantissa(t), (TOP_FRACTION * W + k) * 0x800, 0x800, Exponent(t));
  }

  lemma LongRoundsInt(t: temp, mode: Rounding, f: int, k: int)
    requires Mantissa(t) == (TOP_FRACTION * W + f) * 0x800 + t.a % 0x800 && k == if LongUp(t, mode) then f + 1 else f
    ensures var m, v, unit := Mantissa(t), (TOP_FRACTION * W + k) * 0x800, 0x800;
      && m <= v + unit && v <= m + unit
      && (RoundsInt(mode, Sign(t), m, v, unit) <==>
           (Outward(mode, Sign(t)) ==> (t.b % 0x100 == 0 <==> t.a % 0x800 == 0)))
  {
    hide Mantissa;
  }

  // ---------------------------------------------------------------- integers

  /** Of m / p the integer and the first 32 places behind the point. */
  lemma FixedParts(m: int, p: int)
    requires m >= 0 && p > 0
    ensures 0 <= m % p * W / p < W
    ensures m * W / p / W == m / p && m * W / p % W == m % p * W / p
  {
    var n, r := m / p, m % p;
    var q, s := r * W / p, r * W % p;
    assert m == n * p + r && r * W == q * p + s;
    if q >= W { Monotone(W, q, p); }
    if q < 0 { Monotone(q, -1, p); }
    Distribute(n * W, q, p);
    Associate(n, W, p);
    Associate(n, p, W);
    Associate(W, p, n);
    assert m * W == (n * W + q) * p + s;
    QuotientIs(m * W, n * W + q, p, s);
  }

  /** Where the 32 places put the part cut off. */
  lemma HalfWay(r: int, p: int, q: int)
    requires 0 <= r < p && q == r * W / p
    ensures q > HALF ==> 2 * r >= p
    ensures q < HALF ==> 2 * r < p
    ensures q == HALF ==> 2 * r >= p
    ensures 2 * r == p ==> q == HALF
    ensures r == 0 ==> q == 0
  {
    assert q * p <= r * W < q * p + p;
    if q >= HALF { Monotone(HALF, q, p); }
    if q < HALF { Monotone(q + 1, HALF, p); }
    if 2 * r == p { QuotientIs(r * W, HALF, p, 0); }
    if r == 0 { QuotientIs(0, 0, p, 0); }
  }

  /** m / p rounded as real_to_int does it, given only 32 places behind the point. */
  lemma RoundInt(m: int, p: int, g: bit, mode: Rounding)
    requires m >= 0 && p > 0
    ensures var n, r, q := Round(m * W / p, g == 1, mode), m % p, m % p * W / p;
      && m <= n * p + p && n * p <= m + p
      && (RoundsInt(mode, g, m, n * p, p) <==>
           if mode == Nearest then q == HALF && m / p % 2 == 0 ==> 2 * r == p
           else Outward(mode, g) && r != 0 ==> q != 0)
      && (mode == Nearest && 2 * r == p ==> n % 2 == 0)
  {
    var n0, r, q := m / p, m % p, m % p * W / p;
    FixedParts(m, p);
    HalfWay(r, p, q);
    Distribute(n0, 1, p);
    assert m == n0 * p + r;
  }

  /** real_to_int is within one unit. It is the integer the mode asks for except that it looks at 32 places
      behind the point only: just above the middle it may round to the even number below, and it does not round
      outward if only later places are not zero. In the middle it rounds to the even number. */
  lemma IntRounding(t: temp, mode: Rounding)
    requires Exponent(t) <= BIAS + 63
    ensures var shift: nat := BIAS + 63 - Exponent(t);
      var n := Round(Fixed(Mantissa(t), shift), Sign(t) == 1, mode);
      var m, p := Mantissa(t), P2(shift);
      && Near(Magnitude(t), n as real, 1.0)
      && (Rounds(mode, Sign(t), Magnitude(t), n as real, 1.0) <==>
           if mode == Nearest then m % p * W / p == HALF && m / p % 2 == 0 ==> 2 * (m % p) == p
           else Outward(mode, Sign(t)) && m % p != 0 ==> m % p * W / p != 0)
      && (mode == Nearest && 2 * (m % p) == p ==> n % 2 == 0)
  {
    hide Round, P2, Scaled, Rounds, Near, RoundsInt, Outward;
    var shift: nat := BIAS + 63 - Exponent(t);
    var n := Round(Fixed(Mantissa(t), shift), Sign(t) == 1, mode);
    RoundInt(Mantissa(t), P2(shift), Sign(t), mode);
    IntScaled(n, shift, Exponent(t));
    IntScaled(1, shift, Exponent(t));
    ScaledRounds(mode, Sign(t), Mantissa(t), n * P2(shift), P2(shift), Exponent(t));
  }

  lemma IntScaled(n: int, shift: nat, e: int)
    requires e + shift == BIAS + 63
    ensures Scaled(n * P2(shift), e) == n as real
  {
    ScaledShift(n, shift, e);
    assert Exp2(0) == 1.0;
    TimesTwo(n as real, 1.0);
  }
}

// kernel/math/convert.c: temporary reals against short and long reals (IEEE 754-1985, sections 3.2.1 and
// 3.2.2) and against integers. Shifts and masks of the source are divisions and remainders here.

module Convert {
  import opened Words
  import opened Floats

  datatype Rounding = Nearest | Down | Up | Chop

  const FRACTION: int := 0x80_0000
  const TOP_FRACTION: int := 0x10_0000

  // ---------------------------------------------------------------- short reals

  function SetTop(x: word): word {
    if x >= HALF then x else x + HALF
  }

  function ShortToTemp(s: word): temp {
    if s % HALF == 0 then Temp(0, 0, if s != 0 then 0x8000 else 0)
    else
      var e := (s / FRACTION) % 0x100 - 127 + BIAS;
      Temp(0, SetTop((s * 0x100) % W), if s >= HALF then e + 0x8000 else e)
  }

  function TempToShort(t: temp, mode: Rounding): word {
    if Exponent(t) == 0 then (if t.exponent != 0 then HALF else 0)
    else
      var e := (t.exponent - BIAS + 127) % 0x100 * FRACTION;
      var signed := if Sign(t) == 1 then e + HALF else e;
      var b := signed + (t.b / 0x100) % FRACTION;
      if ShortUp(t, mode) then (b + 1) % W else b
  }

  predicate ShortUp(t: temp, mode: Rounding) {
    match mode
    case Nearest => t.b % 0x100 > 0x80
    case Down => Sign(t) == 1 && t.b % 0x100 != 0
    case Up => Sign(t) == 0 && t.b % 0x100 != 0
    case Chop => false
  }

  /** short_to_temp */
  method LoadShort(a: word) returns (b: temp)
    ensures b == ShortToTemp(a)
  {
    b := Temp(0, 0, 0);
    if a % HALF == 0 {
      if a != 0 { b := b.(exponent := 0x8000); }
      return;
    }
    b := b.(exponent := (a / FRACTION) % 0x100 - 127 + BIAS);
    if a >= HALF { b := b.(exponent := b.exponent + 0x8000); }
    b := b.(b := SetTop((a * 0x100) % W));
    b := b.(a := 0);
  }

  /** temp_to_short */
  method StoreShort(a: temp, mode: Rounding) returns (b: word)
    ensures b == TempToShort(a, mode)
  {
    if a.exponent % 0x8000 == 0 {
      return if a.exponent != 0 then HALF else 0;
    }
    b := (a.exponent - BIAS + 127) % 0x100 * FRACTION;
    if a.exponent >= 0x8000 { b := b + HALF; }
    b := b + (a.b / 0x100) % FRACTION;
    match mode
    case Nearest => if a.b % 0x100 > 0x80 { b := (b + 1) % W; }
    case Down => if a.exponent >= 0x8000 && a.b % 0x100 != 0 { b := (b + 1) % W; }
    case Up => if a.exponent < 0x8000 && a.b % 0x100 != 0 { b := (b + 1) % W; }
    case Chop =>
  }

  /** Sign, exponent and fraction, and where they go. */
  lemma ShortFields(s: word) returns (g: bit, e: int, f: int)
    ensures 0 <= e < 0x100 && 0 <= f < FRACTION && s == g * HALF + e * FRACTION + f
    ensures e == (s / FRACTION) % 0x100 && f == s % FRACTION
    ensures s % HALF == 0 <==> e == 0 && f == 0
    ensures s % HALF != 0 ==> ShortToTemp(s) == Temp(0, HALF + f * 0x100, e - 127 + BIAS + g * 0x8000)
  {
    g, e, f := s / HALF, (s / FRACTION) % 0x100, s % FRACTION;
    assert s == g * HALF + e * FRACTION + f;
    assert s * 0x100 == (g * 0x80 + e / 2) * W + ((e % 2) * HALF + f * 0x100);
    assert (s * 0x100) % W == (e % 2) * HALF + f * 0x100;
  }

  /** Every pattern of bits comes back from a temporary real, in every rounding mode. */
  lemma ShortRoundTrip(s: word, mode: Rounding)
    ensures TempToShort(ShortToTemp(s), mode) == s
  {
    var g, e, f := ShortFields(s);
    if s % HALF != 0 {
      hide ShortToTemp;
      var t := ShortToTemp(s);
      assert (t.exponent - BIAS + 127) % 0x100 == e;
      assert t.b == (FRACTION + f) * 0x100;
      assert t.b / 0x100 == FRACTION + f && t.b % 0x100 == 0;
    }
  }

  /** The magnitude of a short real that is not infinite. */
  function ShortMagnitude(s: word): real {
    var e, f := (s / FRACTION) % 0x100, s % FRACTION;
    if e == 0 then Times(f as real, Exp2(1 - 127 - 23)) else Times((FRACTION + f) as real, Exp2(e - 127 - 23))
  }

  /** short_to_temp is exact except on denormalised numbers, which it takes for normalised ones. */
  lemma ShortExact(s: word)
    requires (s / FRACTION) % 0x100 < 255
    ensures Magnitude(ShortToTemp(s)) == ShortMagnitude(s) <==> (s / FRACTION) % 0x100 != 0 || s % FRACTION == 0
  {
    var g, e, f := ShortFields(s);
    if s % HALF == 0 {
      ZeroTimes(Exp2(1 - 127 - 23));
      ZeroTimes(Exp2(-BIAS - 63));
    } else {
      hide ShortToTemp;
      var t := ShortToTemp(s);
      assert Exponent(t) == e - 127 + BIAS;
      P2Forty();
      assert Mantissa(t) == (FRACTION + f) * P2(40);
      hide P2;
      ScaledShift(FRACTION + f, 40, e - 127 + BIAS);
      if e == 0 { TooBig(f); }
    }
  }

  lemma ZeroTimes(r: real)
    ensures Times(0.0, r) == 0.0
  {
  }

  lemma P2Forty()
    ensures P2(40) == W * 0x100
  {
    P2Words();
    P2Eight();
    P2Add(32, 8);
  }

  lemma TooBig(f: int)
    requires 0 <= f < FRACTION
    ensures Times(f as real, Exp2(1 - 127 - 23)) < Times((FRACTION + f) as real, Exp2(0 - 127 - 23))
  {
    Exp2Step(0 - 127 - 23);
    TimesTwo(f as real, Exp2(0 - 127 - 23));
    hide Times, Exp2;
    TimesMono(2.0 * f as real, (FRACTION + f) as real, Exp2(0 - 127 - 23));
  }

  // ---------------------------------------------------------------- long reals

  /** The low word and the high word. */
  datatype Long = Long(a: word, b: word)

  function LongToTemp(l: Long): temp {
    if l.a == 0 && l.b % HALF == 0 then Temp(0, 0, if l.b != 0 then 0x8000 else 0)
    else
      var e := (l.b / TOP_FRACTION) % 0x800 - 1023 + BIAS;
      Temp((l.a * 0x800) % W, SetTop((l.b * 0x800) % W) + l.a / 0x20_0000, if l.b >= HALF then e + 0x8000 else e)
  }

  function PlusOne(l: Long): Long {
    if l.a < W - 1 then l.(a := l.a + 1) else Long(0, (l.b + 1) % W)
  }

  /** The fields put together, before rounding. */
  function LongCut(t: temp): Long {
    var e := (Exponent(t) - BIAS + 1023) % 0x800 * TOP_FRACTION;
    Long((t.b * 0x20_0000) % W + (t.a / 0x800) % 0x20_0000,
         (if Sign(t) == 1 then e + HALF else e) + (t.b / 0x800) % TOP_FRACTION)
  }

  predicate LongUp(t: temp, mode: Rounding) {
    match mode
    case Nearest => t.a % 0x800 > 0x400
    case Down => Sign(t) == 1 && t.b % 0x100 != 0
    case Up => Sign(t) == 0 && t.b % 0x100 != 0
    case Chop => false
  }

  function TempToLong(t: temp, mode: Rounding): Long {
    if Exponent(t) == 0 then Long(0, if t.exponent != 0 then HALF else 0)
    else if LongUp(t, mode) then PlusOne(LongCut(t))
    else LongCut(t)
  }

  /** long_to_temp */
  method LoadLong(a: Long) returns (b: temp)
    ensures b == LongToTemp(a)
  {
    b := Temp(0, 0, 0);
    if a.a == 0 && a.b % HALF == 0 {
      if a.b != 0 { b := b.(exponent := 0x8000); }
      return;
    }
    b := b.(exponent := (a.b / TOP_FRACTION) % 0x800 - 1023 + BIAS);
    if a.b >= HALF { b := b.(exponent := b.exponent + 0x8000); }
    b := b.(b := SetTop((a.b * 0x800) % W) + a.a / 0x20_0000);
    b := b.(a := (a.a * 0x800) % W);
  }

  /** temp_to_long */
  method StoreLong(a: temp, mode: Rounding) returns (b: Long)
    ensures b == TempToLong(a, mode)
  {
    b := Long(0, 0);
    if a.exponent % 0x8000 == 0 {
      if a.exponent != 0 { b := b.(b := HALF); }
      return;
    }
    b := b.(b := (a.exponent % 0x8000 - BIAS + 1023) % 0x800 * TOP_FRACTION);
    if a.exponent >= 0x8000 { b := b.(b := b.b + HALF); }
    b := b.(b := b.b + (a.b / 0x800) % TOP_FRACTION);
    b := b.(a := (a.b * 0x20_0000) % W);
    b := b.(a := b.a + (a.a / 0x800) % 0x20_0000);
    match mode
    case Nearest => if a.a % 0x800 > 0x400 { b := PlusOne(b); }
    case Down => if a.exponent >= 0x8000 && a.b % 0x100 != 0 { b := PlusOne(b); }
    case Up => if a.exponent < 0x8000 && a.b % 0x100 != 0 { b := PlusOne(b); }
    case Chop =>
  }

  lemma LongFields(l: Long) returns (g: bit, e: int, f: int)
    ensures 0 <= e < 0x800 && 0 <= f < TOP_FRACTION && l.b == g * HALF + e * TOP_FRACTION + f
    ensures l.b % HALF == 0 <==> e == 0 && f == 0
    ensures g == 1 <==> l.b >= HALF
    ensures !(l.a == 0 && l.b % HALF == 0) ==>
      LongToTemp(l) == Temp((l.a % 0x20_0000) * 0x800, HALF + f * 0x800 + l.a / 0x20_0000, e - 1023 + BIAS + g * 0x8000)
  {
    g, e, f := l.b / HALF, (l.b / TOP_FRACTION) % 0x800, l.b % TOP_FRACTION;
    assert l.b == g * HALF + e * TOP_FRACTION + f;
    assert l.b * 0x800 == (g * 0x400 + e / 2) * W + ((e % 2) * HALF + f * 0x800);
    assert (l.b * 0x800) % W == (e % 2) * HALF + f * 0x800;
    assert l.a * 0x800 == (l.a / 0x20_0000) * W + (l.a % 0x20_0000) * 0x800;
  }

  /** The fields of the high mantissa word of a long real. */
  lemma LongTop(b: int, f: int, q: int)
    requires b == (TOP_FRACTION + f) * 0x800 + q && 0 <= q < 0x800
    ensures b / 0x800 == TOP_FRACTION + f && b % 0x100 == q % 0x100
    ensures (b * 0x20_0000) % W == q * 0x20_0000
  {
    assert b * 0x20_0000 == (TOP_FRACTION + f) * W + q * 0x20_0000;
  }

  /** A long real comes back, except that in the directed modes a number rounded away from zero is one
      too big whenever eight bits in the middle of its fraction, which are tested in place of the lost
      ones, are not all clear. */
  lemma LongRoundTrip(l: Long, mode: Rounding)
    ensures TempToLong(LongToTemp(l), mode) == l <==>
      ((mode == Down && l.b >= HALF) || (mode == Up && l.b < HALF) ==> (l.a / 0x20_0000) % 0x100 == 0)
  {
    var g, e, f := LongFields(l);
    if !(l.a == 0 && l.b % HALF == 0) {
      LongCutBack(l);
      LongRounds(l, mode);
      hide LongToTemp, LongCut, LongUp;
      assert PlusOne(l) != l;
    }
  }

  lemma LongCutBack(l: Long)
    requires !(l.a == 0 && l.b % HALF == 0)
    ensures LongCut(LongToTemp(l)) == l && Exponent(LongToTemp(l)) != 0
  {
    var g, e, f := LongFields(l);
    hide LongToTemp;
    var t := LongToTemp(l);
    assert (Exponent(t) - BIAS + 1023) % 0x800 == e;
    LongTop(t.b, f, l.a / 0x20_0000);
    assert t.a / 0x800 == l.a % 0x20_0000;
  }

  lemma LongRounds(l: Long, mode: Rounding)
    requires !(l.a == 0 && l.b % HALF == 0)
    ensures LongUp(LongToTemp(l), mode) <==>
      ((mode == Down && l.b >= HALF) || (mode == Up && l.b < HALF)) && (l.a / 0x20_0000) % 0x100 != 0
  {
    var g, e, f := LongFields(l);
    hide LongToTemp;
    var t := LongToTemp(l);
    LongTop(t.b, f, l.a / 0x20_0000);
    assert t.a % 0x800 == 0;
  }
}

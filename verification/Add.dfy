// kernel/math/add.c: addition on two's complement mantissas of 62 bits.

module Add {
  import opened Words
  import opened Floats
  import opened Multiply

  /** The signed meaning of 64 bits. */
  function Signed(v: int): int {
    if v >= HALF2 then v - W2 else v
  }

  function WithSign(s: bit, m: int): int {
    if s == 1 then -m else m
  }

  /** shrdl and shrl by less than 32 places. */
  method ShiftRight2(lo: word, hi: word, n: nat) returns (l: word, h: word)
    requires n < 32
    ensures V2(l, h) == V2(lo, hi) / P2(n)
  {
    P2Words();
    P2Add(n, 32 - n);
    ghost var p, z := P2(n), P2(32 - n);
    hide P2;
    SplitShift(lo, hi, p, z);
    l, h := (lo + hi * W) / P2(n) % W, hi / P2(n);
  }

  lemma SplitShift(lo: word, hi: word, p: int, z: int)
    requires p > 0 && z > 0 && p * z == W
    ensures (lo + hi * W) / p / W == hi / p && 0 <= hi / p < W && (lo + hi * W) / p < W2
  {
    var v := lo + hi * W;
    OneDivision(v, p, W);
    OneDivision(v, W, p);
    Associate(p, W, 1);
    assert v / W == hi;
    assert v == (v / p) * p + v % p && hi == (hi / p) * p + hi % p;
    Monotone(1, p, v / p);
    Associate(p, v / p, 1);
    Monotone(1, p, hi / p);
    Associate(p, hi / p, 1);
  }

  /** NEGINT: the two's complement. */
  method Negate(lo: word, hi: word) returns (l: word, h: word)
    ensures V2(l, h) == (W2 - V2(lo, hi)) % W2
  {
    var k;
    l, k := AddCarry(W - 1 - lo, 1, 0);
    h, k := AddCarry(W - 1 - hi, 0, k);
  }

  /** signify: two bits down, and the sign goes from the exponent to the mantissa. */
  method Signify(t: temp) returns (u: temp)
    ensures Exponent(t) < 0x7ffe ==>
      u.exponent == Exponent(t) + 2 && Small(u) && Signed(Mantissa(u)) == WithSign(Sign(t), Mantissa(t) / 4)
  {
    var e := (t.exponent + 2) % 0x1_0000;
    assert P2(2) == 4;
    var l, h := ShiftRight2(t.a, t.b, 2);
    if e >= 0x8000 {
      l, h := Negate(l, h);
    }
    u := Temp(l, h, e % 0x8000);
  }

  /** unsignify: back to sign and magnitude, shifted to be normal. The exponent is right if it
      does not run out. */
  method Unsignify(t: temp) returns (u: temp)
    ensures Mantissa(t) == 0 ==> u == Temp(0, 0, 0)
    ensures Mantissa(t) != 0 ==> Unsignified(Signed(Mantissa(t)), Exponent(t), u)
  {
    hide Left;
    if t.a == 0 && t.b == 0 {
      return Temp(0, 0, 0);
    }
    u := t.(exponent := t.exponent % 0x8000);
    if u.b >= HALF {
      var l, h := Negate(u.a, u.b);
      u := Temp(l, h, u.exponent + 0x8000);
    }
    ghost var s;
    u, s := ShiftUp(u);
    PlacesUnique(if Signed(Mantissa(t)) < 0 then -Signed(Mantissa(t)) else Signed(Mantissa(t)), s);
  }

  /** decw: the exponent as a 16-bit number. */
  function Decremented(e: int): int {
    if e == 0 then 0xffff else e - 1
  }

  lemma LessExponent(t: temp, u: temp, s: nat)
    requires s <= Exponent(t) && u.exponent == t.exponent - s
    ensures Exponent(u) == Exponent(t) - s && Sign(u) == Sign(t)
  {
  }

  /** The normalising loop. */
  method ShiftUp(t: temp) returns (u: temp, ghost s: nat)
    requires Mantissa(t) > 0
    ensures Mantissa(u) == Left(Mantissa(t), s) && Normal(u)
    ensures s <= Exponent(t) ==> Exponent(u) == Exponent(t) - s && Sign(u) == Sign(t)
  {
    u, s := t, 0;
    ghost var m, g := Mantissa(t), Mantissa(t);
    LeftStep(m, 0);
    hide Left;
    while u.b < HALF
      invariant Mantissa(u) == g == Left(m, s) && g > 0
      invariant s <= Exponent(t) ==> u.exponent == t.exponent - s && Exponent(t) <= t.exponent
      decreases W2 - g
    {
      var e := Decremented(u.exponent);
      var l, h := DoubleWord(u.a, u.b);
      LeftStep(m, s);
      u := Temp(l, h, e);
      s := s + 1;
      g := 2 * g;
    }
    if s <= Exponent(t) { LessExponent(t, u, s); }
  }

  /** How far a positive mantissa must be shifted to be normal. */
  function Places(m: int): nat
    decreases HALF2 - m
  {
    if m <= 0 || m >= HALF2 then 0 else 1 + Places(2 * m)
  }

  lemma {:induction false} PlacesUnique(m: int, s: nat)
    requires m > 0 && HALF2 <= Left(m, s) < W2
    ensures s == Places(m)
    decreases s
  {
    hide P2, Left;
    LeftStep(m, 0);
    if s > 0 {
      LeftDouble(m, s - 1);
      LeftGrows(2 * m, s - 1);
      PlacesUnique(2 * m, s - 1);
    }
  }

  lemma LeftDouble(m: int, s: nat)
    ensures Left(m, s + 1) == Left(2 * m, s)
  {
    LeftStep(m, s);
    Associate(2, m, P2(s));
  }

  /** u is v normalised: the sign, the shifted magnitude, and the exponent if that does not run out. */
  ghost predicate Unsignified(v: int, e: int, u: temp) {
    var m := if v < 0 then -v else v;
    && HALF2 <= Left(m, Places(m)) < W2 && Mantissa(u) == Left(m, Places(m))
    && (Places(m) <= e ==> Exponent(u) == e - Places(m) && Sign(u) == (if v < 0 then 1 else 0))
  }

  /** The operand with the larger exponent, and the other. */
  function Larger(x: temp, y: temp): temp {
    if Exponent(x) > Exponent(y) then x else y
  }

  function Smaller(x: temp, y: temp): temp {
    if Exponent(x) > Exponent(y) then y else x
  }

  /** The sum of the truncated mantissas, l with the larger exponent, in units of 2^(E - 61). */
  function Sum(l: temp, y: temp): int
    requires Exponent(l) >= Exponent(y)
  {
    WithSign(Sign(l), Mantissa(l) / 4) + WithSign(Sign(y), Mantissa(y) / P2(Exponent(l) - Exponent(y) + 2))
  }

  /** What fadd stores, where l has the larger exponent. */
  ghost predicate Added(l: temp, y: temp, r: temp) {
    && Exponent(l) >= Exponent(y)
    && if Exponent(l) - Exponent(y) >= 64 then r == l
       else if Sum(l, y) == 0 then r == Temp(0, 0, 0)
       else Unsignified(Sum(l, y), Exponent(l) + 2, r)
  }

  /** The smaller operand is shifted to the exponent of the larger, which it does not take over. */
  method Align(b: temp, shift: nat) returns (c: temp)
    requires shift < 64
    ensures c.exponent == b.exponent && Mantissa(c) / 4 == Mantissa(b) / P2(shift + 2)
  {
    var n := shift;
    c := b;
    if n >= 32 {
      c := c.(a := c.b, b := 0);
      n := n - 32;
    }
    var l, h := ShiftRight2(c.a, c.b, n);
    assert c.a == if shift >= 32 then Mantissa(b) / W else b.a;
    ShiftInParts(Mantissa(b), shift, V2(l, h));
    c := Temp(l, h, c.exponent);
  }

  /** addl and adcl on mantissas of two's complement that cannot overflow. */
  method AddSigned(x: temp, y: temp) returns (z: temp)
    ensures z.exponent == x.exponent
    ensures Small(x) && Small(y) ==> Signed(Mantissa(z)) == Signed(Mantissa(x)) + Signed(Mantissa(y))
  {
    var l, h, k;
    l, k := AddCarry(x.a, y.a, 0);
    h, k := AddCarry(x.b, y.b, k);
    z := Temp(l, h, x.exponent);
    assert Mantissa(z) + k * W2 == Mantissa(x) + Mantissa(y);
  }

  predicate Small(t: temp) {
    -HALF2 / 2 < Signed(Mantissa(t)) < HALF2 / 2
  }

  /** The addition itself, of operands with the same point. */
  method AddAligned(a: temp, b: temp) returns (r: temp)
    ensures var v := WithSign(Sign(a), Mantissa(a) / 4) + WithSign(Sign(b), Mantissa(b) / 4);
      Exponent(a) < 0x7ffe && Exponent(b) < 0x7ffe ==>
        if v == 0 then r == Temp(0, 0, 0) else Unsignified(v, Exponent(a) + 2, r)
  {
    hide P2, Unsignified, Small, V2;
    var x := Signify(a);
    var y := Signify(b);
    var z := AddSigned(x, y);
    r := Unsignify(z);
  }

  /** The normalised sum keeps its exponent above zero. */
  predicate InBounds(l: temp, y: temp)
    requires Exponent(l) >= Exponent(y)
  {
    Exponent(l) - Exponent(y) < 64 && Sum(l, y) != 0 ==>
      Places(if Sum(l, y) < 0 then -Sum(l, y) else Sum(l, y)) <= Exponent(l) + 2
  }

  /** fadd. Exponents of 0x7ffe and more run into the sign. */
  method Fadd(x: temp, y: temp) returns (r: temp)
    ensures Exponent(x) < 0x7ffe && Exponent(y) < 0x7ffe ==>
      var l, o := Larger(x, y), Smaller(x, y); Added(l, o, r) && (InBounds(l, o) ==> Close(l, o, r))
  {
    hide P2, Unsignified, Close, Places;
    var a, b, shift := x, y, Exponent(x) - Exponent(y);
    if Exponent(x) <= Exponent(y) {
      a, b, shift := y, x, Exponent(y) - Exponent(x);
    }
    if shift >= 64 {
      r := a;
    } else {
      b := Align(b, shift);
      r := AddAligned(a, b);
    }
    if Exponent(x) < 0x7ffe && Exponent(y) < 0x7ffe && InBounds(Larger(x, y), Smaller(x, y)) {
      ErrorBound(Larger(x, y), Smaller(x, y), r);
    }
  }

  /** Shifting by whole words, then bits, then the two of signify is shifting once. */
  lemma ShiftInParts(m: int, d: nat, v: int)
    requires 0 <= m < W2 && d < 64
    requires v == if d >= 32 then m / W / P2(d - 32) else m / P2(d)
    ensures v / 4 == m / P2(d + 2)
  {
    assert P2(2) == 4;
    P2Add(d, 2);
    if d >= 32 {
      P2Words();
      OneDivision(m, W, P2(d - 32));
      P2Add(d - 32, 32);
      Associate(W, P2(d - 32), 1);
    }
    OneDivision(m, P2(d), 4);
  }

  // ---------------------------------------------------------------- the error of fadd

  function Value(t: temp): real {
    if Sign(t) == 1 then -Magnitude(t) else Magnitude(t)
  }

  lemma ScaledSign(s: bit, m: int, e: int)
    ensures Scaled(WithSign(s, m), e) == if s == 1 then -Scaled(m, e) else Scaled(m, e)
  {
    ScaledAdd(m, -m, e);
    TimesTwo(Exp2(e - BIAS - 63), 1.0);
  }

  /** Cutting off k places loses less than one unit of what is left. */
  lemma Cut(m: int, k: nat, e: int)
    requires m >= 0
    ensures Scaled(m / P2(k), e + k) <= Scaled(m, e) < Scaled(m / P2(k), e + k) + Scaled(1, e + k)
  {
    var p := P2(k);
    var q := m / p;
    assert q * p <= m < q * p + p;
    Distribute(q, 1, p);
    hide P2, Scaled;
    ScaledMono(q * p, m, e);
    ScaledMono(m, (q + 1) * p, e);
    ScaledShift(q, k, e);
    ScaledShift(q + 1, k, e);
    ScaledAdd(q, 1, e + k);
  }

  lemma ResultValue(v: int, e: int, r: temp)
    requires Unsignified(v, e, r) && Places(if v < 0 then -v else v) <= e < 0x8000
    ensures Value(r) == Scaled(v, e)
  {
    hide Places;
    var m := if v < 0 then -v else v;
    ScaledShift(m, Places(m), e - Places(m));
    ScaledSign(if v < 0 then 1 else 0, m, e);
  }

  /** Far smaller operands are dropped whole. */
  lemma FarSmaller(m: int, k: nat)
    requires 0 <= m < W2 && k >= 64
    ensures m / P2(k) == 0
  {
    P2Words();
    if k > 64 { P2Monotone(64, k); }
    QuotientIs(m, 0, P2(k), m);
  }

  /** r is the sum but for less than twice 2^(E - 61), E being the larger exponent without its bias. */
  predicate Close(l: temp, y: temp, r: temp) {
    var u := Scaled(1, Exponent(l) + 2); -2.0 * u < Value(r) - (Value(l) + Value(y)) < 2.0 * u
  }

  lemma ErrorBound(l: temp, y: temp, r: temp)
    requires Added(l, y, r) && Exponent(l) < 0x7ffe && InBounds(l, y)
    ensures Close(l, y, r)
  {
    hide Places;
    var e, d := Exponent(l), Exponent(l) - Exponent(y);
    var p, q := Mantissa(l) / 4, Mantissa(y) / P2(d + 2);
    assert P2(2) == 4;
    Cut(Mantissa(l), 2, e);
    Cut(Mantissa(y), d + 2, e - d);
    ScaledSign(Sign(l), p, e + 2);
    ScaledSign(Sign(y), q, e + 2);
    ScaledAdd(WithSign(Sign(l), p), WithSign(Sign(y), q), e + 2);
    if d >= 64 {
      FarSmaller(Mantissa(y), d + 2);
      ScaledZero(e + 2);
    } else if Sum(l, y) == 0 {
      ScaledZero(e + 2);
      ScaledZero(0);
    } else {
      ResultValue(Sum(l, y), e + 2, r);
    }
  }

  lemma ScaledZero(e: int)
    ensures Scaled(0, e) == 0.0
  {
    TimesTwo(Exp2(e - BIAS - 63), 1.0);
  }
}

// kernel/math/div.c: division of mantissas by trial subtraction, and fdiv.

module Divide {
  import opened Words
  import opened Floats
  import opened Multiply

  /** shrl and rcrl: half a word, with the bit that comes in and the bit that falls out. */
  method HalfWord(x: word, c: bit) returns (h: word, out: bit)
    ensures 2 * h + out == x + c * W
  {
    h, out := x / 2 + c * HALF, x % 2;
  }

  /** shift_right. */
  method ShiftRight(c: array<word>)
    requires c.Length == 4
    modifies c
    ensures V4(c[..]) == V4(old(c[..])) / 2
  {
    ghost var was := c[..];
    var k;
    c[3], k := HalfWord(c[3], 0);
    c[2], k := HalfWord(c[2], k);
    c[1], k := HalfWord(c[1], k);
    c[0], k := HalfWord(c[0], k);
    assert 2 * V4(c[..]) + k == V4(was);
  }

  /** try_sub: takes a from b; ok if nothing had to be borrowed. */
  method TrySub(a: array<word>, b: array<word>) returns (ok: bool)
    requires a.Length == b.Length == 4 && a != b
    modifies b
    ensures ok <==> V4(a[..]) <= V4(old(b[..]))
    ensures ok ==> V4(b[..]) == V4(old(b[..])) - V4(a[..])
  {
    ghost var was := b[..];
    var k;
    b[0], k := SubBorrow(b[0], a[0], 0);
    b[1], k := SubBorrow(b[1], a[1], k);
    b[2], k := SubBorrow(b[2], a[2], k);
    b[3], k := SubBorrow(b[3], a[3], k);
    assert V4(b[..]) - k * W4 == V4(was) - V4(a[..]);
    ok := k == 0;
  }

  /** The n low bits of a word are clear: the next one can be set, and then n - 1 are clear. */
  lemma SetBit(w: word, n: nat)
    requires 1 <= n <= 32 && w % P2(n) == 0
    ensures w + P2(n - 1) < W
    ensures w % P2(n - 1) == 0 && (w + P2(n - 1)) % P2(n - 1) == 0
  {
    var h := P2(n - 1);
    assert P2(n) == 2 * h;
    P2Words();
    P2Add(32 - n, n);
    assert P2(32) == P2(32 - n) * P2(n);
    hide P2;
    Room(w, P2(32 - n), 2 * h);
    MultipleOfHalf(w, h);
  }

  /** Below a multiple of m there is room for m above another. */
  lemma Room(w: int, k: int, m: int)
    requires m > 0 && w % m == 0 && w < k * m
    ensures w + m <= k * m
  {
    var q := w / m;
    assert w == q * m;
    Monotone(k, q, m);
    Monotone(q + 1, k, m);
    Distribute(q, 1, m);
  }

  lemma MultipleOfHalf(w: int, h: int)
    requires h > 0 && w % (2 * h) == 0
    ensures w % h == 0 && (w + h) % h == 0
  {
    var q := w / (2 * h);
    assert w == (2 * h) * q;
    Associate(2, h, q);
    Associate(2, q, h);
    Associate(h, q, 1);
    assert w == (2 * q) * h;
    QuotientIs(w, 2 * q, h, 0);
    Distribute(2 * q, 1, h);
    QuotientIs(w + h, 2 * q + 1, h, 0);
  }

  /** After i of the 64 steps on numerator n and divisor d: b has been halved i times, a is what is left
      of the numerator, and q is the quotient so far. */
  ghost predicate Divided(n: int, d: int, i: nat, a: int, b: int, q: int) {
    && i <= 64 && d > 0
    && b == d * P2(64 - i)
    && 0 <= a < 2 * b
    && n * W2 == a + q * (2 * d)
  }

  lemma StepTaken(n: int, d: int, i: nat, a: int, b: int, q: int)
    requires i < 64 && Divided(n, d, i, a, b, q)
    ensures b / 2 == d * P2(63 - i) && b == 2 * (b / 2)
    ensures a >= b ==> Divided(n, d, i + 1, a - b, b / 2, q + P2(63 - i))
    ensures a < b ==> Divided(n, d, i + 1, a, b / 2, q)
  {
    var p := P2(63 - i);
    Associate(d, 2, p);
    Distribute(q, p, 2 * d);
    Associate(p, 2, d);
    assert d * (2 * p) == 2 * (d * p);
  }

  /** The quotient and the remainder of n * 2^63 by d. */
  lemma AllSteps(n: int, d: int, a: int, b: int, q: int)
    requires Divided(n, d, 64, a, b, q)
    ensures a % 2 == 0 && n * HALF2 == q * d + a / 2 && 0 <= a / 2 < d
    ensures q == Quotient(n, d)
  {
    assert b == d;
    Associate(q, 2, d);
    assert 2 * (n * HALF2) == a + 2 * (q * d);
    QuotientIs(n * HALF2, q, d, a / 2);
  }

  /** Which word and which bit of it the i-th bit of the quotient is, from the top. */
  predicate At(i: nat, k: nat, mask: int) {
    i < 64 && (if i < 32 then k == 3 && mask == P2(31 - i) else k == 2 && mask == P2(63 - i))
  }

  /** The bits not yet reached are clear. */
  predicate Clear(i: nat, lo: word, hi: word) {
    i <= 64 && if i <= 32 then lo == 0 && hi % P2(32 - i) == 0 else lo % P2(64 - i) == 0
  }

  lemma ClearNext(i: nat, lo: word, hi: word, k: nat, mask: int)
    requires Clear(i, lo, hi) && At(i, k, mask)
    ensures k == 3 ==> hi + mask < W && Clear(i + 1, lo, hi + mask) && V2(lo, hi + mask) == V2(lo, hi) + P2(63 - i)
    ensures k == 2 ==> lo + mask < W && Clear(i + 1, lo + mask, hi) && V2(lo + mask, hi) == V2(lo, hi) + P2(63 - i)
    ensures Clear(i + 1, lo, hi)
  {
    if i < 32 {
      SetBit(hi, 32 - i);
      P2Words();
      P2Add(31 - i, 32);
      hide P2;
      assert P2(63 - i) == P2(31 - i) * W;
    } else {
      SetBit(lo, 64 - i);
      hide P2;
    }
  }

  /** The mask goes one bit on, to the next word below where it falls out. */
  method NextBit(k0: nat, mask0: int, ghost i: nat) returns (k: nat, mask: int)
    requires i < 64 && if i == 0 then k0 == 4 && mask0 == 0 else At(i - 1, k0, mask0)
    ensures At(i, k, mask) && 2 <= k <= 3 && 0 < mask
  {
    P2Words();
    k, mask := k0, mask0 / 2;
    if mask == 0 {
      k := k - 1;
      mask := HALF;
    }
  }

  lemma Start(n: int, d: int, a: int, b: int)
    requires 0 <= n < 2 * d && a == n * W2 && b == d * W2
    ensures Divided(n, d, 0, a, b, V2(0, 0)) && Clear(0, 0, 0)
  {
    P2Words();
  }

  /** The subtraction is tried on a copy; if it succeeds the copy is kept and the bit set. */
  method Trial(a: array<word>, b: array<word>, c: array<word>, tmp: array<word>, k: nat, mask: int)
    requires a.Length == b.Length == c.Length == tmp.Length == 4
    requires a != b && b != c && a != c && tmp != a && tmp != b && tmp != c
    requires k < 4 && 0 <= mask && c[k] + mask < W
    modifies a, b, c, tmp
    ensures V4(b[..]) == V4(old(b[..])) / 2
    ensures var ok := V4(old(b[..])) <= V4(old(a[..]));
      && V4(a[..]) == V4(old(a[..])) - (if ok then V4(old(b[..])) else 0)
      && c[..] == (if ok then old(c[..])[k := old(c[k]) + mask] else old(c[..]))
  {
    CopyWords(a, tmp);
    var ok := TrySub(b, tmp);
    if ok {
      c[k] := c[k] + mask;  // the bit is clear, so this is the or of the source
      CopyWords(tmp, a);
    }
    ShiftRight(b);
  }

  /** The mantissa of the quotient: n * 2^63 by d, cut off. */
  function Quotient(n: int, d: int): int
    requires d > 0
  {
    n * HALF2 / d
  }

  /** One step of div64, the i-th. */
  method DivStep(a: array<word>, b: array<word>, c: array<word>, tmp: array<word>, k: nat, mask: int,
      ghost i: nat, ghost n: int, ghost d: int)
    requires a.Length == b.Length == c.Length == tmp.Length == 4
    requires a != b && b != c && a != c && tmp != a && tmp != b && tmp != c
    requires At(i, k, mask) && 2 <= k <= 3 && 0 < mask && Clear(i, c[2], c[3])
    requires Divided(n, d, i, V4(a[..]), V4(b[..]), V2(c[2], c[3]))
    modifies a, b, c, tmp
    ensures Divided(n, d, i + 1, V4(a[..]), V4(b[..]), V2(c[2], c[3]))
    ensures Clear(i + 1, c[2], c[3]) && c[0] == old(c[0]) && c[1] == old(c[1])
  {
    ClearNext(i, c[2], c[3], k, mask);
    assert i < 64;
    StepTaken(n, d, i, V4(a[..]), V4(b[..]), V2(c[2], c[3]));
    hide Divided, Clear, P2, V2, At, V4;
    Trial(a, b, c, tmp, k, mask);
  }

  /** div64 on two mantissas in the upper words: the quotient goes to the upper words of c, and twice the
      remainder stays in a. */
  method Div64(a: array<word>, b: array<word>, c: array<word>, ghost n: int, ghost d: int)
    requires a.Length == b.Length == c.Length == 4 && a != b && b != c && a != c
    requires V4(a[..]) == n * W2 && V4(b[..]) == d * W2 && 0 <= n < 2 * d
    requires c[2] == c[3] == 0
    modifies a, b, c
    ensures V2(c[2], c[3]) == Quotient(n, d)
    ensures V4(a[..]) % 2 == 0 && n * HALF2 == Quotient(n, d) * d + V4(a[..]) / 2 && V4(a[..]) / 2 < d
    ensures c[0] == old(c[0]) && c[1] == old(c[1])
  {
    var tmp := new word[4](_ => 0);
    var k: nat, mask, i: nat := 4, 0, 0;
    Start(n, d, V4(a[..]), V4(b[..]));
    hide Divided, Clear, P2, V2, At, V4, Quotient;
    while i < 64
      invariant i <= 64 && if i == 0 then k == 4 && mask == 0 else At(i - 1, k, mask)
      invariant Divided(n, d, i, V4(a[..]), V4(b[..]), V2(c[2], c[3]))
      invariant Clear(i, c[2], c[3])
      invariant c[0] == old(c[0]) && c[1] == old(c[1])
    {
      k, mask := NextBit(k, mask, i);
      DivStep(a, b, c, tmp, k, mask, i, n, d);
      i := i + 1;
    }
    AllSteps(n, d, V4(a[..]), V4(b[..]), V2(c[2], c[3]));
  }

  method CopyWords(a: array<word>, b: array<word>)
    requires a.Length == b.Length == 4 && a != b
    modifies b
    ensures b[..] == a[..]
  {
    b[0], b[1], b[2], b[3] := a[0], a[1], a[2], a[3];
  }

  // ---------------------------------------------------------------- fdiv

  /** DivideByZero and Overflow: a flag is set and no result is stored. */
  datatype DivResult = DivStored(t: temp) | DivideByZero | DivOverflow

  /** The loop that normalises the divisor. */
  method NormaliseDivisor(b: array<word>, i0: int, ghost d: int) returns (i: int, ghost t: nat)
    requires b.Length == 4 && V4(b[..]) == d * W2 && 0 < d < W2
    modifies b
    ensures V4(b[..]) == Left(d, t) * W2 && HALF2 <= Left(d, t) < W2
    ensures i == i0 + t
  {
    i, t := i0, 0;
    ghost var g := d;
    hide Left;
    LeftStep(d, 0);
    while b[3] < HALF
      invariant i == i0 + t && g == Left(d, t)
      invariant V4(b[..]) == g * W2 && 0 < g < W2
      decreases W2 - g
    {
      i := i + 1;
      UpperTop(b[..], g);
      Double(b);
      LeftStep(d, t);
      t := t + 1;
      g := 2 * g;
    }
    UpperTop(b[..], g);
  }

  /** What fdiv stores: t and s are the shifts of the divisor and of the quotient. */
  ghost predicate Quotiented(x: temp, y: temp, r: temp, t: nat, s: nat) {
    && HALF2 <= Left(Mantissa(y), t) < W2
    && Mantissa(r) == Left(Quotient(Mantissa(x), Left(Mantissa(y), t)), s)
    && Exponent(r) == Exponent(x) - Exponent(y) + BIAS + t - s
  }

  /** fdiv. */
  method Fdiv(x: temp, y: temp) returns (r: DivResult)
    ensures r == DivideByZero <==> Mantissa(y) == 0
    ensures var i := Exponent(x) - Exponent(y) + BIAS; Mantissa(y) != 0 ==>
      && (i < 0 ==> r == DivStored(Temp(0, 0, 0x8000 * Xor(Sign(x), Sign(y)))))
      && (i >= 0 ==> exists t: nat, s: nat :: Ends(x, y, r, t, s))
    ensures Exponent(x) - Exponent(y) + BIAS >= 0 && Normal(x) && r.DivStored? ==>
      NearQuotient(x, y, r.t) && (Normal(r.t) || Exponent(r.t) == 0)
  {
    if y.a == 0 && y.b == 0 {
      return DivideByZero;
    }
    var i := Exponent(x) - Exponent(y) + BIAS;
    if i < 0 {
      return DivStored(Temp(0, 0, 0x8000 * Xor(Sign(x), Sign(y))));
    }
    ghost var t, s;
    r, t, s := DivideMantissas(x, y, i);
    if Normal(x) && r.DivStored? {
      NormalEnds(x, y, r, t, s);
    }
  }

  /** t is at most the quotient of x and y, and less than two units in the last place below it. */
  predicate NearQuotient(x: temp, y: temp, t: temp) {
    Times(Magnitude(t), Magnitude(y)) <= Magnitude(x) < Times(Magnitude(t) + 2.0 * Ulp(t), Magnitude(y))
  }

  lemma NormalEnds(x: temp, y: temp, r: DivResult, t: nat, s: nat)
    requires Ends(x, y, r, t, s) && Normal(x) && r.DivStored?
    ensures NearQuotient(x, y, r.t) && (Normal(r.t) || Exponent(r.t) == 0)
  {
    var n, d := Mantissa(x), Left(Mantissa(y), t);
    QuotientLarge(n, d);
    NormalQuotient(x, y, r.t, t, s);
    DividesBelow(x, y, r.t, t, s);
    TwoUlps(r.t, s, y);
  }

  /** A shift by one place at most makes the error two units at most. */
  lemma TwoUlps(r: temp, s: nat, y: temp)
    requires s <= 1 && Mantissa(y) > 0
    ensures Times(Magnitude(r) + Scaled(P2(s), Exponent(r)), Magnitude(y))
         <= Times(Magnitude(r) + 2.0 * Ulp(r), Magnitude(y))
  {
    assert P2(1) == 2 && P2(0) == 1;
    ScaledMono(0, Mantissa(y), Exponent(y));
    ScaledMono(0, 1, Exponent(r));
    TimesTwo(Exp2(Exponent(y) - BIAS - 63), 1.0);
    TimesTwo(Exp2(Exponent(r) - BIAS - 63), 1.0);
    ScaledAdd(1, 1, Exponent(r));
    hide Times, Scaled;
    TimesMono(Magnitude(r) + Scaled(P2(s), Exponent(r)), Magnitude(r) + 2.0 * Ulp(r), Magnitude(y));
  }

  /** How fdiv ends once the exponents have been subtracted. */
  ghost predicate Ends(x: temp, y: temp, r: DivResult, t: nat, s: nat) {
    && HALF2 <= Left(Mantissa(y), t) < W2
    && var q, e := Quotient(Mantissa(x), Left(Mantissa(y), t)), Exponent(x) - Exponent(y) + BIAS + t - s;
    && (r.DivStored? ==> Sign(r.t) == Xor(Sign(x), Sign(y)))
    && (q == 0 ==> r.DivStored? && Mantissa(r.t) == 0 && Exponent(r.t) == 0)
    && (q != 0 ==>
         if e >= 0x8000 then r == DivOverflow
         else r.DivStored? && Quotiented(x, y, r.t, t, s) && (Normal(r.t) || e == 0))
  }

  /** The rest of fdiv. */
  method DivideMantissas(x: temp, y: temp, i0: int) returns (r: DivResult, ghost t: nat, ghost s: nat)
    requires Mantissa(y) != 0 && i0 == Exponent(x) - Exponent(y) + BIAS >= 0
    ensures Ends(x, y, r, t, s)
  {
    s := 0;
    var sign := 0x8000 * Xor(Sign(x), Sign(y));
    var a := new word[4] [0, 0, x.a, x.b];
    var b := new word[4] [0, 0, y.a, y.b];
    var tmp := new word[4](_ => 0);
    var i;
    i, t := NormaliseDivisor(b, i0, Mantissa(y));
    Div64(a, b, tmp, Mantissa(x), Left(Mantissa(y), t));
    ghost var q := Quotient(Mantissa(x), Left(Mantissa(y), t));
    hide Left, Quotient;
    if tmp[0] != 0 || tmp[1] != 0 || tmp[2] != 0 || tmp[3] != 0 {
      i, s := Normalise(tmp, i);
      ShiftedUpper(tmp[..], q, s);
    } else {
      i := 0;
    }
    if i > 0x7fff {
      return DivOverflow, t, s;
    }
    r := DivStored(Temp(tmp[2], tmp[3], i + sign));
  }

  /** Only the upper words move. */
  lemma ShiftedUpper(c: seq<word>, q: int, s: nat)
    requires |c| == 4 && V4(c) == Left(q * W2, s)
    ensures c[0] == c[1] == 0 && V2(c[2], c[3]) == Left(q, s)
  {
    var p := P2(s);
    hide P2;
    Associate(q, W2, p);
    Associate(q, p, W2);
    var z := q * p;
    assert V4(c) == z * W2;
  }

  /** fdiv truncates: the result is at most the quotient, and less than 2^s units in the last place
      below. With y's magnitude on the other side. */
  lemma DividesBelow(x: temp, y: temp, r: temp, t: nat, s: nat)
    requires Quotiented(x, y, r, t, s)
    ensures Times(Magnitude(r), Magnitude(y)) <= Magnitude(x)
    ensures Magnitude(x) < Times(Magnitude(r) + Scaled(P2(s), Exponent(r)), Magnitude(y))
  {
    var n, d := Mantissa(x), Left(Mantissa(y), t);
    var q, e := Quotient(n, d), Exponent(x) - s - 63;
    QuotientBounds(n, Mantissa(y), P2(t), P2(s), q);
    var R := Mantissa(r);
    assert P2(63) == HALF2 by { P2Words(); }
    assert R == q * P2(s) && Exponent(r) + Exponent(y) - BIAS - 63 == e + t;
    hide Scaled, P2, Times, Quotient;
    ScaledProduct(R, Exponent(r), Mantissa(y), Exponent(y));
    ScaledProduct(R + P2(s), Exponent(r), Mantissa(y), Exponent(y));
    ScaledAdd(R, P2(s), Exponent(r));
    ScaledShift(R * Mantissa(y), t, e);
    ScaledShift((R + P2(s)) * Mantissa(y), t, e);
    ScaledShift(n, 63, e + s);
    ScaledShift(n * HALF2, s, e);
    ScaledMono((R * Mantissa(y)) * P2(t), n * HALF2 * P2(s), e);
    ScaledMono(n * HALF2 * P2(s), ((R + P2(s)) * Mantissa(y)) * P2(t), e);
  }

  lemma QuotientBounds(n: int, m: int, p: int, z: int, q: int)
    requires m * p > 0 && z > 0 && q == Quotient(n, m * p)
    ensures (q * z) * m * p <= n * HALF2 * z < (q * z + z) * m * p
  {
    var d, k := m * p, n * HALF2;
    assert k == (k / d) * d + k % d;
    Distribute(q, 1, d);
    Distribute(q, 1, z);
    Monotone(q * d, k, z);
    Monotone(k + 1, (q + 1) * d, z);
    Distribute(k, 1, z);
    Regroup(q, z, m, p);
    Regroup(q + 1, z, m, p);
  }

  lemma Regroup(q: int, z: int, m: int, p: int)
    ensures (q * z) * m * p == (q * (m * p)) * z
  {
    Associate(q * z, m, p);
    Associate(q, z, m * p);
    Associate(z, m * p, 1);
    Associate(q, m * p, z);
  }

  lemma QuotientLarge(n: int, d: int)
    requires n >= HALF2 && 0 < d < W2
    ensures Quotient(n, d) >= HALF2 / 2
  {
    var q := Quotient(n, d);
    assert n * HALF2 == q * d + (n * HALF2) % d;
    Monotone(q + 1, HALF2 / 2, d);
    Distribute(q, 1, d);
  }

  /** Normal operands: at most one shift. */
  lemma NormalQuotient(x: temp, y: temp, r: temp, t: nat, s: nat)
    requires Quotiented(x, y, r, t, s) && Normal(x)
    ensures s <= 1
  {
    var q := Quotient(Mantissa(x), Left(Mantissa(y), t));
    QuotientLarge(Mantissa(x), Left(Mantissa(y), t));
    assert Left(q, s) < W2;
    FewPlaces(q, s);
  }

  lemma {:induction false} FewPlaces(q: int, s: nat)
    requires q >= HALF2 / 2 && Left(q, s) < W2
    ensures s <= 1
  {
    LeftStep(q, 0);
    LeftStep(q, 1);
    LeftGrowing(q, 2, s);
  }

  lemma {:induction false} LeftGrowing(q: int, m: nat, n: nat)
    requires q >= 0
    ensures m <= n ==> Left(q, m) <= Left(q, n)
    decreases n
  {
    if m < n {
      LeftGrowing(q, m, n - 1);
      LeftStep(q, n - 1);
      Product(q, P2(n - 1), q);
    }
  }
}

// kernel/math/mul.c: the product of two 64-bit mantissas from four products of words, and fmul.

module Multiply {
  import opened Words
  import opened Floats

  /** mul64: the exact product; nothing is carried out of the top word. */
  method Mul64(x: temp, y: temp, c: array<word>)
    requires c.Length == 4
    modifies c
    ensures V4(c[..]) == Mantissa(x) * Mantissa(y)
  {
    var k, lo, hi;
    c[0], c[1] := Mull(x.a, y.a);
    c[2], c[3] := Mull(x.b, y.b);
    ghost var p := V4(c[..]);
    assert p == x.a * y.a + x.b * y.b * W2;
    CrossProducts(x.a, x.b, y.a, y.b);
    lo, hi := Mull(x.a, y.b);
    k := AddInto(c, lo, hi);
    assert k == 0;
    lo, hi := Mull(x.b, y.a);
    k := AddInto(c, lo, hi);
    assert k == 0;
  }

  lemma CrossProducts(a: word, b: word, c: word, d: word)
    ensures V2(a, b) * V2(c, d) == a * c + (a * d + b * c) * W + b * d * W2
    ensures V2(a, b) * V2(c, d) < W4
    ensures 0 <= a * c && 0 <= a * d && 0 <= b * c && 0 <= b * d
  {
    var x, y := V2(a, b), V2(c, d);
    Distribute(a, b * W, y);
    Distribute(c, d * W, a);
    Distribute(c, d * W, b);
    Associate(b, W, y);
    Associate(a, d, W);
    Associate(b, d, W);
    Product(x, y, W2 - 1);
    Product(a, c, W);
    Product(a, d, W);
    Product(b, c, W);
    Product(b, d, W);
  }

  /** Adds a two-word number to the words 1 and 2, with the carry into word 3. */
  method AddInto(c: array<word>, lo: word, hi: word) returns (k: bit)
    requires c.Length == 4
    modifies c
    ensures V4(c[..]) + k * W4 == V4(old(c[..])) + (lo + hi * W) * W
  {
    c[1], k := AddCarry(c[1], lo, 0);
    c[2], k := AddCarry(c[2], hi, k);
    c[3], k := AddCarry(c[3], 0, k);
  }

  /** Overflow: the flag is set and no result is stored. */
  datatype Result = Stored(t: temp) | Overflow

  /** The normalising loop: left until the top bit is set or the exponent is zero. */
  method Normalise(c: array<word>, i0: int) returns (i: int, ghost s: nat)
    requires c.Length == 4 && 0 <= i0
    modifies c
    ensures V4(c[..]) == Left(V4(old(c[..])), s)
    ensures 0 <= i == i0 - s
    ensures i == 0 || c[3] >= HALF || V4(old(c[..])) == 0
  {
    i, s := i0, 0;
    ghost var v := V4(c[..]);
    ghost var g := v;
    hide Left;
    LeftStep(v, 0);
    while i != 0 && c[3] < HALF
      invariant 0 <= i == i0 - s
      invariant V4(c[..]) == g == Left(v, s)
      decreases i
    {
      i := i - 1;
      Double(c);
      LeftStep(v, s);
      s := s + 1;
      g := 2 * g;
    }
  }

  /** The exponent of the product before it is normalised. */
  function ProductExponent(x: temp, y: temp): int {
    Exponent(x) + Exponent(y) - BIAS + 1
  }

  /** t is the product of x and y cut off: at most the product, and less than one unit in the last place
      below it. */
  predicate CutOff(x: temp, y: temp, t: temp) {
    Magnitude(t) <= Times(Magnitude(x), Magnitude(y)) < Magnitude(t) + Ulp(t)
  }

  /** fmul. */
  method Fmul(x: temp, y: temp) returns (r: Result)
    ensures ProductExponent(x, y) < 0 ==> r == Stored(Temp(0, 0, 0x8000 * Xor(Sign(x), Sign(y))))
    ensures ProductExponent(x, y) >= 0x8000 ==> r == Overflow
    ensures 0 <= ProductExponent(x, y) < 0x8000 ==> r.Stored? && Sign(r.t) == Xor(Sign(x), Sign(y))
    ensures r.Stored? && Mantissa(x) * Mantissa(y) == 0 ==> Mantissa(r.t) == 0 && Exponent(r.t) == 0
    ensures 0 <= ProductExponent(x, y) < 0x8000 && Mantissa(x) * Mantissa(y) != 0 ==>
      CutOff(x, y, r.t) && (Normal(r.t) || Exponent(r.t) == 0)
  {
    var sign := 0x8000 * Xor(Sign(x), Sign(y));
    var i := ProductExponent(x, y);
    if i < 0 {
      return Stored(Temp(0, 0, sign));
    }
    if i > 0x7fff {
      return Overflow;
    }
    hide Left, CutOff;
    var tmp := new word[4](_ => 0);
    Mul64(x, y, tmp);
    ghost var m, s := V4(tmp[..]), 0;
    if tmp[0] != 0 || tmp[1] != 0 || tmp[2] != 0 || tmp[3] != 0 {
      i, s := Normalise(tmp, i);
    } else {
      i := 0;
    }
    r := Stored(Temp(tmp[2], tmp[3], i + sign));
    if m != 0 {
      assert Mantissa(r.t) == Left(m, s) / W2;
      Truncates(x, y, r.t, s);
    }
  }

  lemma Truncates(x: temp, y: temp, r: temp, s: nat)
    requires var m := Mantissa(x) * Mantissa(y); Mantissa(r) == Left(m, s) / W2
    requires Exponent(r) == ProductExponent(x, y) - s
    ensures CutOff(x, y, r)
  {
    hide Scaled, P2, Times;
    var m, e := Mantissa(x) * Mantissa(y), Exponent(x) + Exponent(y) - BIAS - 63;
    var R := Mantissa(r);
    ScaledProduct(Mantissa(x), Exponent(x), Mantissa(y), Exponent(y));
    ScaledShift(m, s, e - s);
    assert R * W2 <= m * P2(s) < (R + 1) * W2;
    ScaledMono(R * W2, m * P2(s), e - s);
    ScaledMono(m * P2(s), (R + 1) * W2, e - s);
    P2Words();
    ScaledShift(R, 64, e - s);
    ScaledShift(R + 1, 64, e - s);
    ScaledAdd(R, 1, e - s + 64);
  }
}

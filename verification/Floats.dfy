// What a temporary real stands for: its mantissa times a power of two (IEEE 754-1985).

module Floats {
  import opened Words

  const BIAS: int := 16383

  // ---------------------------------------------------------------- products of reals, by their laws

  function Times(a: real, b: real): real {
    a * b
  }

  lemma TimesAssociate(a: real, b: real, c: real)
    ensures Times(Times(a, b), c) == Times(a, Times(b, c))
    ensures Times(a, b) == Times(b, a)
  {
  }

  lemma TimesDistribute(a: real, b: real, c: real)
    ensures Times(a + b, c) == Times(a, c) + Times(b, c)
  {
  }

  lemma TimesMono(a: real, b: real, c: real)
    requires c > 0.0
    ensures a <= b ==> Times(a, c) <= Times(b, c)
    ensures a < b ==> Times(a, c) < Times(b, c)
  {
  }

  lemma TimesTwo(a: real, b: real)
    ensures Times(a, 2.0 * b) == 2.0 * Times(a, b)
    ensures Times(2.0 * a, b) == 2.0 * Times(a, b)
    ensures Times(a, 1.0) == a && Times(1.0, a) == a && Times(0.0, a) == 0.0
  {
  }

  lemma TimesInt(a: int, b: int)
    ensures (a * b) as real == Times(a as real, b as real)
  {
  }

  // ---------------------------------------------------------------- powers of two

  function Exp2(k: int): (r: real)
    ensures r > 0.0
    decreases if k < 0 then -k else k
  {
    if k == 0 then 1.0 else if k > 0 then 2.0 * Exp2(k - 1) else Exp2(k + 1) / 2.0
  }

  lemma Exp2Step(k: int)
    ensures Exp2(k + 1) == 2.0 * Exp2(k)
  {
  }

  lemma {:induction false} Exp2Add(a: int, b: int)
    ensures Exp2(a + b) == Times(Exp2(a), Exp2(b))
    decreases if b < 0 then -b else b
  {
    hide Times;
    if b == 0 {
      TimesTwo(Exp2(a), 1.0);
    } else if b > 0 {
      Exp2Add(a, b - 1);
      Exp2Step(a + b - 1);
      TimesTwo(Exp2(a), Exp2(b - 1));
    } else {
      Exp2Add(a, b + 1);
      Exp2Step(a + b);
      TimesTwo(Exp2(a), Exp2(b));
    }
  }

  lemma {:induction false} Exp2IsP2(n: nat)
    ensures Exp2(n) == P2(n) as real
  {
    if n > 0 { Exp2IsP2(n - 1); }
  }

  // ---------------------------------------------------------------- values

  /** The magnitude of a mantissa with a biased exponent: the mantissa has 63 places behind the point. */
  function Scaled(m: int, e: int): real {
    Times(m as real, Exp2(e - BIAS - 63))
  }

  function Magnitude(t: temp): real {
    Scaled(Mantissa(t), Exponent(t))
  }

  /** A unit in the last place. */
  function Ulp(t: temp): real {
    Scaled(1, Exponent(t))
  }

  predicate Normal(t: temp) {
    Mantissa(t) >= HALF2
  }

  /** Moving the point: k more in the exponent, 2^k less in the mantissa. */
  lemma ScaledShift(m: int, k: nat, e: int)
    ensures Scaled(m * P2(k), e) == Scaled(m, e + k)
  {
    hide Times, Exp2, P2;
    Exp2Add(k, e - BIAS - 63);
    Exp2IsP2(k);
    TimesInt(m, P2(k));
    TimesAssociate(m as real, P2(k) as real, Exp2(e - BIAS - 63));
  }

  lemma ScaledMono(a: int, b: int, e: int)
    ensures a <= b ==> Scaled(a, e) <= Scaled(b, e)
    ensures a < b ==> Scaled(a, e) < Scaled(b, e)
  {
    hide Times;
    TimesMono(a as real, b as real, Exp2(e - BIAS - 63));
  }

  lemma ScaledAdd(a: int, b: int, e: int)
    ensures Scaled(a + b, e) == Scaled(a, e) + Scaled(b, e)
  {
    hide Times;
    TimesDistribute(a as real, b as real, Exp2(e - BIAS - 63));
  }

  lemma ScaledProduct(m: int, d: int, n: int, e: int)
    ensures Times(Scaled(m, d), Scaled(n, e)) == Scaled(m * n, d + e - BIAS - 63)
  {
    hide Times, Exp2;
    var p, q := Exp2(d - BIAS - 63), Exp2(e - BIAS - 63);
    var a, b := m as real, n as real;
    Exp2Add(d - BIAS - 63, e - BIAS - 63);
    TimesInt(m, n);
    TimesAssociate(a, p, Times(b, q));
    TimesAssociate(p, b, q);
    TimesAssociate(b, p, q);
    TimesAssociate(a, b, Times(p, q));
  }
}

// 32-bit words, their additions and multiplications with carries, and rows of four of them.

module Words {
  const W: int := 0x1_0000_0000
  const W2: int := 0x1_0000_0000_0000_0000
  const W3: int := 0x1_0000_0000_0000_0000_0000_0000
  const W4: int := 0x1_0000_0000_0000_0000_0000_0000_0000_0000
  const HALF: int := 0x8000_0000
  const HALF2: int := 0x8000_0000_0000_0000

  type word = x: int | 0 <= x < 0x1_0000_0000

  type bit = x: int | 0 <= x <= 1

  /** A temporary real: the 64-bit mantissa in a and b, and the exponent with the sign as its top bit. */
  datatype Temp = Temp(a: word, b: word, exponent: int)

  type temp = t: Temp | 0 <= t.exponent < 0x1_0000 witness Temp(0, 0, 0)

  function V2(lo: word, hi: word): (r: int)
    ensures 0 <= r < W2
  {
    lo + hi * W
  }

  function V4(c: seq<word>): (r: int)
    requires |c| == 4
    ensures 0 <= r < W4
  {
    c[0] + c[1] * W + c[2] * W2 + c[3] * W3
  }

  function Mantissa(t: temp): int {
    V2(t.a, t.b)
  }

  function Exponent(t: temp): (e: int)
    ensures 0 <= e < 0x8000
  {
    t.exponent % 0x8000
  }

  function Sign(t: temp): bit {
    t.exponent / 0x8000
  }

  function Xor(a: bit, b: bit): bit {
    if a == b then 0 else 1
  }

  /** addl and adcl. */
  method AddCarry(x: word, y: word, c: bit) returns (s: word, carry: bit)
    ensures s + carry * W == x + y + c
  {
    var t := x + y + c;
    if t < W { s, carry := t, 0; } else { s, carry := t - W, 1; }
  }

  /** subl and sbbl. */
  method SubBorrow(x: word, y: word, c: bit) returns (d: word, borrow: bit)
    ensures d - borrow * W == x - y - c
  {
    var t := x - y - c;
    if t >= 0 { d, borrow := t, 0; } else { d, borrow := t + W, 1; }
  }

  lemma Product(x: int, y: int, m: int)
    requires 0 <= x <= m && 0 <= y
    ensures 0 <= x * y <= m * y
  {
  }

  lemma Distribute(x: int, y: int, z: int)
    ensures (x + y) * z == x * z + y * z && z * (x + y) == z * x + z * y
  {
  }

  lemma Associate(x: int, y: int, z: int)
    ensures (x * y) * z == x * (y * z) && x * y == y * x
  {
  }

  lemma Monotone(x: int, y: int, m: int)
    requires m >= 0
    ensures x <= y ==> x * m <= y * m
  {
  }

  lemma QuotientIs(x: int, q: int, m: int, r: int)
    requires m > 0 && 0 <= r < m && x == q * m + r
    ensures x / m == q && x % m == r
  {
    assert x == (x / m) * m + x % m;
    Distribute(x / m, -q, m);
    Monotone(1, x / m - q, m);
    Monotone(x / m - q, -1, m);
  }

  lemma OneDivision(v: int, p: int, w: int)
    requires v >= 0 && p > 0 && w > 0
    ensures v / p / w == v / (p * w)
  {
    var a := v / p;
    var b := a / w;
    assert v == a * p + v % p && a == b * w + a % w;
    Distribute(b * w, a % w, p);
    Associate(b, w, p);
    Associate(w, p, 1);
    Product(a % w, p, w - 1);
    Distribute(w, -1, p);
    Product(1, p, w);
    QuotientIs(v, b, p * w, (a % w) * p + v % p);
  }

  /** mull. */
  method Mull(x: word, y: word) returns (lo: word, hi: word)
    ensures lo + hi * W == x * y
  {
    Product(x, y, W - 1);
    var p := x * y;
    assert 0 <= p <= (W - 1) * y;
    lo, hi := p % W, p / W;
  }

  // ---------------------------------------------------------------- powers of two

  function P2(n: nat): (p: int)
    ensures p >= 1
  {
    if n == 0 then 1 else 2 * P2(n - 1)
  }

  lemma {:induction false} P2Add(m: nat, n: nat)
    ensures P2(m + n) == P2(m) * P2(n)
    decreases n
  {
    if n > 0 {
      P2Add(m, n - 1);
      assert P2(m) * (2 * P2(n - 1)) == 2 * (P2(m) * P2(n - 1));
    }
  }

  lemma {:induction false} P2Monotone(m: nat, n: nat)
    requires m < n
    ensures P2(m) < P2(n)
    decreases n
  {
    if m < n - 1 { P2Monotone(m, n - 1); }
  }

  /** x shifted left by n places, without loss. */
  function Left(x: int, n: nat): int {
    x * P2(n)
  }

  lemma LeftStep(x: int, n: nat)
    ensures Left(x, n + 1) == 2 * Left(x, n)
    ensures Left(x, 0) == x
  {
    Associate(x, P2(n), 2);
  }

  lemma LeftGrows(x: int, n: nat)
    requires x >= 0
    ensures Left(x, n) >= x && (x > 0 ==> Left(x, n) >= P2(n))
  {
    Monotone(1, P2(n), x);
    Monotone(1, x, P2(n));
  }

  lemma P2Words()
    ensures P2(31) == HALF && P2(32) == W && P2(63) == HALF2 && P2(64) == W2 && P2(128) == W4
  {
    P2Eight();
    P2Add(8, 8);
    P2Add(16, 8);
    P2Add(16, 16);
    assert P2(32) == 2 * P2(31);
    P2Add(32, 32);
    assert P2(64) == 2 * P2(63);
    P2Add(64, 64);
  }

  lemma P2Eight()
    ensures P2(8) == 256
  {
    assert P2(2) == 4;
    P2Add(2, 2);
    P2Add(4, 4);
  }

  /** addl and adcl of a double word to itself, when the top bit is clear. */
  method DoubleWord(lo: word, hi: word) returns (l: word, h: word)
    requires hi < HALF
    ensures V2(l, h) == 2 * V2(lo, hi)
  {
    var k;
    l, k := AddCarry(lo, lo, 0);
    h, k := AddCarry(hi, hi, k);
  }

  /** Twice a row of words, the top bit lost if it is set. */
  method Double(c: array<word>)
    requires c.Length == 4
    modifies c
    ensures V4(c[..]) == (2 * V4(old(c[..]))) % W4
    ensures old(c[3]) < HALF ==> V4(c[..]) == 2 * V4(old(c[..]))
  {
    ghost var was := c[..];
    var k;
    c[0], k := AddCarry(c[0], c[0], 0);
    c[1], k := AddCarry(c[1], c[1], k);
    c[2], k := AddCarry(c[2], c[2], k);
    c[3], k := AddCarry(c[3], c[3], k);
    assert V4(c[..]) + k * W4 == 2 * V4(was);
    DoubledWithin(V4(c[..]), V4(was), k);
    assert was[3] < HALF ==> V4(was) < W4 / 2;
  }

  lemma DoubledWithin(d: int, v: int, k: bit)
    requires 0 <= d < W4 && d + k * W4 == 2 * v
    ensures d == (2 * v) % W4 && (v < W4 / 2 ==> d == 2 * v)
  {
  }

  /** A number in the upper words has its top bit at the sign of the last int. */
  lemma UpperTop(c: seq<word>, g: int)
    requires |c| == 4 && V4(c) == g * W2
    ensures c[3] >= HALF <==> g >= HALF2
    ensures 0 <= g < W2
  {
  }
}

/** Fixed-width unsigned arithmetic over mathematical integers: powers of two, the
    bitwise operators the repository's code uses, and the one fact all of its
    masked indexing rests on, that masking with `2^k - 1` is reduction modulo `2^k`. */
module Bits {
  const TWO_TO_THE_32: int := 0x1_0000_0000
  const TWO_TO_THE_64: int := 0x1_0000_0000_0000_0000

  type u8 = x: int | 0 <= x < 256
  type u32 = x: int | 0 <= x < TWO_TO_THE_32
  type u64 = x: int | 0 <= x < TWO_TO_THE_64

  function Pow2(k: nat): (p: nat)
    ensures p >= 1
  {
    if k == 0 then 1 else 2 * Pow2(k - 1)
  }

  ghost predicate IsPow2(n: nat) {
    exists k: nat :: n == Pow2(k)
  }

  /** Bitwise `&`. */
  function And(a: nat, b: nat): (r: nat)
    ensures r <= a && r <= b
  {
    if a == 0 || b == 0 then 0
    else (if a % 2 == 1 && b % 2 == 1 then 1 else 0) + 2 * And(a / 2, b / 2)
  }

  /** Bitwise `^`. */
  function Xor(a: nat, b: nat): nat
    decreases a + b
  {
    if a == 0 && b == 0 then 0
    else (if a % 2 != b % 2 then 1 else 0) + 2 * Xor(a / 2, b / 2)
  }

  /** Bitwise `|`. */
  function Or(a: nat, b: nat): nat
    decreases a + b
  {
    if a == 0 && b == 0 then 0
    else (if a % 2 == 1 || b % 2 == 1 then 1 else 0) + 2 * Or(a / 2, b / 2)
  }

  /** Shifts: `<<` where nothing is lost off the top, and `>>`. */
  function Shl(a: nat, k: nat): nat { a * Pow2(k) }

  function Shr(a: nat, k: nat): nat {
    QuotientIsNat(a, Pow2(k));
    a / Pow2(k)
  }

  lemma QuotientIsNat(a: nat, m: nat)
    requires m > 0
    ensures a / m >= 0
  {
    MulBound(a / m, m);
    assert a == a / m * m + a % m;
  }

  lemma AndStep(a: nat, b: nat)
    ensures And(a, b) == (if a % 2 == 1 && b % 2 == 1 then 1 else 0) + 2 * And(a / 2, b / 2)
  {
  }

  lemma {:induction false} XorIsSum(a: nat, b: nat)
    ensures Xor(a, b) == a + b - 2 * And(a, b)
    decreases a + b
  {
    if a != 0 || b != 0 {
      XorIsSum(a / 2, b / 2);
      AndStep(a, b);
    }
  }

  lemma {:induction false} OrIsSum(a: nat, b: nat)
    ensures Or(a, b) == a + b - And(a, b)
    decreases a + b
  {
    if a != 0 || b != 0 {
      OrIsSum(a / 2, b / 2);
      AndStep(a, b);
    }
  }

  /** Neither makes a number wider. */
  lemma {:induction false} XorBound(a: nat, b: nat, k: nat)
    requires a < Pow2(k) && b < Pow2(k)
    ensures Xor(a, b) < Pow2(k) && Or(a, b) < Pow2(k)
  {
    if k > 0 { XorBound(a / 2, b / 2, k - 1); }
  }

  lemma {:induction false} XorZero(a: nat, b: nat)
    ensures Xor(a, b) == 0 <==> a == b
    decreases a + b
  {
    if a != 0 || b != 0 { XorZero(a / 2, b / 2); }
  }

  /** Below and above bit `k`, `&` is two of itself. */
  lemma {:induction false} AndSplit(k: nat, x: nat, y: nat, u: nat, v: nat)
    requires x < Pow2(k) && u < Pow2(k)
    ensures And(x + Pow2(k) * y, u + Pow2(k) * v) == And(x, u) + Pow2(k) * And(y, v)
  {
    hide And;
    if k == 0 {
      assert x == 0 && u == 0 && And(0, 0) == 0 by { AndNothing(0, 0); }
    } else {
      var h := Pow2(k - 1);
      assert Pow2(k) == 2 * h;
      hide Pow2;
      AndSplit(k - 1, x / 2, y, u / 2, v);
      Twice(h, y);
      Twice(h, v);
      Twice(h, And(y, v));
      AndHalf(x, h * y, u, h * v, h * And(y, v));
    }
  }

  lemma Twice(h: nat, y: nat)
    ensures h * y >= 0 && (2 * h) * y == 2 * (h * y)
  {
  }

  lemma AndHalf(x: nat, p: nat, u: nat, q: nat, r: nat)
    requires And(x / 2 + p, u / 2 + q) == And(x / 2, u / 2) + r
    ensures And(x + 2 * p, u + 2 * q) == And(x, u) + 2 * r
  {
    AndStep(x + 2 * p, u + 2 * q);
    AndStep(x, u);
    hide And;
    assert (x + 2 * p) / 2 == x / 2 + p && (u + 2 * q) / 2 == u / 2 + q;
  }

  lemma {:induction false} MaskIsModulo(x: nat, k: nat)
    ensures And(x, Pow2(k) - 1) == x % Pow2(k)
  {
    if k > 0 {
      MaskIsModulo(x / 2, k - 1);
      HalveModulo(x, Pow2(k - 1));
      AndHalves(x, Pow2(k - 1) - 1);
    }
  }

  /** A mask of one more bit keeps the lowest bit and masks the rest. */
  lemma AndHalves(x: nat, m: nat)
    ensures And(x, 2 * m + 1) == 2 * And(x / 2, m) + x % 2
  {
    if x != 0 {
      assert (2 * m + 1) / 2 == m && (2 * m + 1) % 2 == 1;
    }
  }

  lemma HalveModulo(x: nat, h: nat)
    requires h > 0
    ensures x % (2 * h) == 2 * ((x / 2) % h) + x % 2
  {
    var q, r := (x / 2) / h, (x / 2) % h;
    assert x == 2 * (q * h + r) + x % 2;
    assert 2 * (q * h) == q * (2 * h);
    ModuloUnique(x, 2 * h, q, 2 * r + x % 2);
  }

  lemma MulBound(d: int, m: int)
    requires m > 0
    ensures d >= 1 ==> d * m >= m
    ensures d <= -1 ==> d * m <= -m
  {
  }

  lemma ModuloUnique(x: int, m: int, q: int, r: int)
    requires m > 0 && 0 <= r < m && x == q * m + r
    ensures x % m == r && x / m == q
  {
    var q', r' := x / m, x % m;
    assert x == q' * m + r';
    MulBound(q - q', m);
    assert (q - q') * m == q * m - q' * m == r' - r;
  }

  lemma {:induction false} Pow2Monotone(a: nat, b: nat)
    requires a <= b
    ensures Pow2(a) <= Pow2(b)
    decreases b
  {
    if a < b {
      Pow2Monotone(a, b - 1);
    }
  }

  lemma {:induction false} Pow2Add(a: nat, b: nat)
    ensures Pow2(a + b) == Pow2(a) * Pow2(b)
  {
    if a > 0 {
      Pow2Add(a - 1, b);
      assert Pow2(a + b) == 2 * (Pow2(a - 1) * Pow2(b)) == Pow2(a) * Pow2(b);
    }
  }

  lemma Pow2Values()
    ensures Pow2(4) == 16 && Pow2(8) == 256 && Pow2(16) == 0x1_0000 && Pow2(32) == TWO_TO_THE_32
  {
    assert Pow2(4) == 16;
    Pow2Add(4, 4);
    Pow2Add(8, 8);
    Pow2Add(16, 16);
  }

  /** Wrapping to 32 bits first changes nothing modulo a power of two that fits in them. */
  lemma WrapThenModulo(x: int, k: nat)
    requires k <= 32
    ensures (x % TWO_TO_THE_32) % Pow2(k) == x % Pow2(k)
  {
    Pow2Values();
    Pow2Add(32 - k, k);
    ModuloOfMultiple(x, Pow2(k), Pow2(32 - k), TWO_TO_THE_32);
  }

  lemma ModuloOfMultiple(x: int, m: int, q: int, n: int)
    requires m > 0 && q > 0 && n == q * m
    ensures (x % n) % m == x % m
  {
    var t, w := x / n, x % n;
    var u, v := w / m, w % m;
    assert x == n * t + w && w == m * u + v;
    MulRegroup(t, q, u, m);
    ModuloUnique(x, m, t * q + u, v);
  }

  lemma MulRegroup(t: int, q: int, u: int, m: int)
    ensures (t * q + u) * m == (q * m) * t + m * u
  {
    assert (t * q) * m == (q * m) * t;
  }

  lemma MulMonotone(a: int, b: int, p: nat)
    requires a <= b
    ensures a * p <= b * p
  {
  }

  lemma DivideTwice(n: nat, p: nat, q: nat)
    requires p > 0 && q > 0
    ensures q * p > 0 && n / p / q == n / (q * p)
  {
    var a, r := n / p, n % p;
    var b, t := a / q, a % q;
    assert n == p * a + r && a == b * q + t;
    MulRegroup(b, q, t, p);
    MulMonotone(t, q - 1, p);
    assert (q - 1) * p == q * p - p;
    assert a * p == p * a && p * t == t * p && (q * p) * b == b * (q * p);
    MulMonotone(1, q, p);
    ModuloUnique(n, q * p, b, t * p + r);
  }

  // ---------------------------------------------------------------------
  // 64-bit words
  // ---------------------------------------------------------------------

  lemma WordBound(a: u64, b: u64)
    ensures Xor(a, b) < TWO_TO_THE_64 && Or(a, b) < TWO_TO_THE_64
  {
    Pow2Values();
    Pow2Add(32, 32);
    XorBound(a, b, 64);
  }

  function Xor64(a: u64, b: u64): u64 {
    WordBound(a, b);
    Xor(a, b)
  }

  function Or64(a: u64, b: u64): u64 {
    WordBound(a, b);
    Or(a, b)
  }

  function WrappingMul(a: u64, b: u64): u64 { a * b % TWO_TO_THE_64 }

  /** Or-ing in bits above any set is adding them. */
  lemma OrAbove(a: nat, b: nat, k: nat)
    requires a < Pow2(k)
    ensures Or(a, Pow2(k) * b) == a + Pow2(k) * b
  {
    OrIsSum(a, Pow2(k) * b);
    AndSplit(k, a, 0, 0, b);
    assert a + Pow2(k) * 0 == a;
    AndNothing(a, b);
  }

  /** The same for a value shifted up over them. */
  lemma OrShifted(a: nat, b: nat, k: nat)
    requires a < Pow2(k)
    ensures Or(a, Shl(b, k)) == Or(Shl(b, k), a) == a + b * Pow2(k)
  {
    assert Shl(b, k) == Pow2(k) * b;
    OrAbove(a, b, k);
    OrCommutes(a, Shl(b, k));
  }

  lemma {:induction false} OrCommutes(a: nat, b: nat)
    ensures Or(a, b) == Or(b, a)
    decreases a + b
  {
    if a != 0 || b != 0 { OrCommutes(a / 2, b / 2); }
  }

  lemma AndNothing(a: nat, b: nat)
    ensures And(a, 0) == 0 && And(0, b) == 0
  {
  }
}

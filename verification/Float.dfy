/** Binary floating point by its bits, as src/beve/reader.rs widens it, and what those bits
    mean. Every finite number of the four formats is a whole number of 2^-1074, the least a
    double tells from zero, so that "exactly representable" is an equation of integers. */
module Floats {
  import opened Bits

  /** The widths of the fraction and of the exponent. */
  datatype Format = Format(man: nat, exp: nat)

  const BRAIN := Format(7, 8)
  const HALF := Format(10, 5)
  const SINGLE := Format(23, 8)
  const DOUBLE := Format(52, 11)

  datatype Parts = Parts(neg: bool, exp: nat, man: nat)

  function Split(f: Format, bits: nat): (p: Parts) {
    QuotientIsNat(bits, Pow2(f.man));
    Parts(bits / Pow2(f.exp + f.man) % 2 == 1, bits / Pow2(f.man) % Pow2(f.exp), bits % Pow2(f.man))
  }

  function Join(f: Format, p: Parts): (bits: nat) {
    Shl(if p.neg then 1 else 0, f.exp + f.man) + (Shl(p.exp, f.man) + p.man)
  }

  predicate Fits(f: Format, p: Parts) {
    p.exp < Pow2(f.exp) && p.man < Pow2(f.man)
  }

  lemma SplitFits(f: Format, bits: nat)
    ensures Fits(f, Split(f, bits))
  {
  }

  /** The fraction and exponent of joined bits are the low end of them. */
  lemma LowEnd(f: Format, p: Parts)
    requires Fits(f, p)
    ensures Shl(p.exp, f.man) + p.man < Pow2(f.exp + f.man)
  {
    Pow2Add(f.exp, f.man);
    MulMonotone(p.exp, Pow2(f.exp) - 1, Pow2(f.man));
    assert (Pow2(f.exp) - 1) * Pow2(f.man) == Pow2(f.exp) * Pow2(f.man) - Pow2(f.man);
  }

  lemma JoinSplits(f: Format, p: Parts)
    requires Fits(f, p)
    ensures Split(f, Join(f, p)) == p && Join(f, p) < 2 * Pow2(f.exp + f.man)
  {
    LowEnd(f, p);
    JoinHigh(f, p);
    JoinLow(f, p);
  }

  lemma JoinHigh(f: Format, p: Parts)
    requires Shl(p.exp, f.man) + p.man < Pow2(f.exp + f.man)
    ensures Join(f, p) / Pow2(f.exp + f.man) == (if p.neg then 1 else 0) && Join(f, p) < 2 * Pow2(f.exp + f.man)
  {
    hide Pow2;
    ModuloUnique(Join(f, p), Pow2(f.exp + f.man), if p.neg then 1 else 0, Shl(p.exp, f.man) + p.man);
  }

  lemma JoinLow(f: Format, p: Parts)
    requires Fits(f, p)
    ensures Join(f, p) % Pow2(f.man) == p.man && Join(f, p) / Pow2(f.man) % Pow2(f.exp) == p.exp
  {
    var s := if p.neg then 1 else 0;
    Pow2Add(f.exp, f.man);
    hide Pow2;
    Distribute(s, Pow2(f.exp), p.exp, Pow2(f.man));
    ModuloUnique(Join(f, p), Pow2(f.man), s * Pow2(f.exp) + p.exp, p.man);
    ModuloUnique(s * Pow2(f.exp) + p.exp, Pow2(f.exp), s, p.exp);
  }

  lemma Distribute(s: nat, e: nat, x: nat, m: nat)
    ensures (s * e + x) * m == s * (e * m) + x * m
  {
  }

  // ---------------------------------------------------------------------
  // What bits mean
  // ---------------------------------------------------------------------

  /** A number in units of 2^-1074. Zero has a sign too. */
  datatype Meaning = NotANumber | Infinite(neg: bool) | Finite(neg: bool, units: nat)

  /** The exponent that stands for none: all ones. */
  function Top(f: Format): nat { Pow2(f.exp) - 1 }

  function Bias(f: Format): nat
    requires f.exp > 0
  {
    Pow2(f.exp - 1) - 1
  }

  /** A format whose least fraction is some number of units. */
  predicate Countable(f: Format) {
    f.exp > 0 && Bias(f) + f.man <= 1075
  }

  /** The format's least fraction is 2 to this many units. */
  function Least(f: Format): nat
    requires Countable(f)
  {
    1075 - Bias(f) - f.man
  }

  function Units(f: Format, exp: nat, man: nat): nat
    requires Countable(f)
  {
    if exp == 0 then Shl(man, Least(f)) else Shl(Pow2(f.man) + man, exp - 1 + Least(f))
  }

  function MeaningOf(f: Format, p: Parts): Meaning
    requires Countable(f)
  {
    if p.exp != Top(f) then Finite(p.neg, Units(f, p.exp, p.man))
    else if p.man == 0 then Infinite(p.neg)
    else NotANumber
  }

  function Means(f: Format, bits: nat): Meaning
    requires Countable(f)
  {
    MeaningOf(f, Split(f, bits))
  }

  lemma Powers()
    ensures Pow2(3) == 8 && Pow2(5) == 32 && Pow2(7) == 128 && Pow2(10) == 1024 && Pow2(11) == 2048 && Pow2(13) == 8192
    ensures Pow2(15) == 0x8000 && Pow2(23) == 0x80_0000 && Pow2(29) == 0x2000_0000 && Pow2(31) == 0x8000_0000
    ensures Pow2(52) == 0x10_0000_0000_0000 && Pow2(63) == 0x8000_0000_0000_0000
  {
    Pow2Values();
    assert Pow2(3) == 8;
    assert Pow2(5) == 32;
    assert Pow2(7) == 128;
    Pow2Add(5, 5);
    Pow2Add(8, 3);
    Pow2Add(8, 5);
    Pow2Add(8, 7);
    Pow2Add(16, 7);
    Pow2Add(16, 13);
    Pow2Add(16, 15);
    Pow2Add(23, 29);
    Pow2Add(32, 31);
  }

  lemma Formats()
    ensures Bias(HALF) == 15 && Bias(BRAIN) == Bias(SINGLE) == 127 && Bias(DOUBLE) == 1023
    ensures Top(HALF) == 31 && Top(BRAIN) == Top(SINGLE) == 255 && Top(DOUBLE) == 2047
    ensures Countable(HALF) && Countable(BRAIN) && Countable(SINGLE) && Countable(DOUBLE)
  {
    Powers();
    Pow2Values();
  }

  // ---------------------------------------------------------------------
  // Widening
  // ---------------------------------------------------------------------

  /** The place of the highest bit set. */
  function Highest(n: nat): (k: nat)
    requires n > 0
    ensures Pow2(k) <= n < 2 * Pow2(k)
  {
    if n == 1 then 0 else 1 + Highest(n / 2)
  }

  /** `g` has room for every number of `f`: either they share their exponents, or `g` has
      exponents enough below those of `f` for a number `f` has none for. */
  predicate Wider(f: Format, g: Format) {
    && Countable(f) && Countable(g) && f.man <= g.man
    && (f.exp == g.exp || (f.exp < g.exp && Bias(f) + f.man <= Bias(g)))
  }

  function WidenedParts(f: Format, g: Format, p: Parts): Parts
    requires Wider(f, g) && Fits(f, p)
  {
    var man := Shl(p.man, g.man - f.man);
    if p.exp == Top(f) then Parts(p.neg, Top(g), man)
    else if p.exp > 0 then Parts(p.neg, p.exp + Bias(g) - Bias(f), man)
    else if p.man == 0 || f.exp == g.exp then Parts(p.neg, 0, man)
    else
      var k := Highest(p.man);
      Pow2Monotone(f.man, g.man);
      BelowFraction(k, p.man, f.man);
      BelowFraction(k, p.man, g.man);
      Parts(p.neg, k + Bias(g) - Bias(f) - f.man + 1, Shl(p.man, g.man - k) - Pow2(g.man))
  }

  lemma BelowFraction(k: nat, n: nat, w: nat)
    requires Pow2(k) <= n < 2 * Pow2(k) && n < Pow2(w)
    ensures k < w && Pow2(w) <= Shl(n, w - k) < 2 * Pow2(w)
  {
    hide Pow2;
    if k >= w { Pow2Monotone(w, k); }
    Pow2Add(k, w - k);
    Between(Pow2(k), n, Pow2(w - k));
  }

  lemma Between(q: nat, n: nat, p: nat)
    requires q <= n < 2 * q && p >= 1
    ensures q * p <= n * p < 2 * (q * p)
  {
    MulMonotone(q, n, p);
    MulMonotone(n + 1, 2 * q, p);
    assert (n + 1) * p == n * p + p && (2 * q) * p == 2 * (q * p);
  }

  lemma ShlTwice(a: nat, j: nat, k: nat)
    ensures Shl(Shl(a, j), k) == Shl(a, j + k)
  {
    Pow2Add(j, k);
    hide Pow2;
    assert (a * Pow2(j)) * Pow2(k) == a * (Pow2(j) * Pow2(k));
  }

  lemma ShlAdds(a: nat, b: nat, k: nat)
    ensures Shl(a + b, k) == Shl(a, k) + Shl(b, k)
  {
    hide Pow2;
  }

  lemma PowIsShl(j: nat, k: nat)
    ensures Pow2(j + k) == Shl(Pow2(j), k)
  {
    Pow2Add(j, k);
  }

  /** The exponents of the wider format begin no later and end no sooner. */
  lemma Exponents(f: Format, g: Format)
    requires Wider(f, g)
    ensures Bias(f) <= Bias(g) && Top(f) == 2 * Bias(f) + 1 && Top(g) == 2 * Bias(g) + 1
    ensures f.exp == g.exp ==> Bias(f) == Bias(g)
  {
    assert Pow2(f.exp) == 2 * Pow2(f.exp - 1) && Pow2(g.exp) == 2 * Pow2(g.exp - 1);
    hide Pow2;
  }

  /** What is widened fits, and is infinite or no number just when what it was widened from
      is. */
  lemma WidenedFits(f: Format, g: Format, p: Parts)
    requires Wider(f, g) && Fits(f, p)
    ensures var q := WidenedParts(f, g, p);
            Fits(g, q) && q.neg == p.neg && (q.exp == Top(g) <==> p.exp == Top(f)) && (p.exp == Top(f) ==> (q.man == 0 <==> p.man == 0))
  {
    Exponents(f, g);
    PowIsShl(f.man, g.man - f.man);
    ShlBelow(p.man, Pow2(f.man), g.man - f.man);
    hide Pow2, Shl;
    if p.exp == 0 && p.man != 0 && f.exp != g.exp {
      var k := Highest(p.man);
      Pow2Monotone(f.man, g.man);
      BelowFraction(k, p.man, f.man);
      BelowFraction(k, p.man, g.man);
    }
  }

  lemma ShlBelow(a: nat, b: nat, k: nat)
    requires a < b
    ensures Shl(a, k) < Shl(b, k) && (Shl(a, k) == 0 <==> a == 0)
  {
    hide Pow2;
    MulMonotone(a + 1, b, Pow2(k));
    assert (a + 1) * Pow2(k) == a * Pow2(k) + Pow2(k);
    if a > 0 { MulMonotone(1, a, Pow2(k)); }
  }

  /** Widening keeps the number. */
  lemma WidenedUnits(f: Format, g: Format, p: Parts)
    requires Wider(f, g) && Fits(f, p) && p.exp != Top(f)
    ensures var q := WidenedParts(f, g, p); Units(g, q.exp, q.man) == Units(f, p.exp, p.man)
  {
    hide *;
    if p.exp > 0 {
      NormalWidens(f, g, p);
    } else if p.man == 0 || f.exp == g.exp {
      LowWidens(f, g, p);
    } else {
      SubnormalWidens(f, g, p);
    }
  }

  lemma NormalWidens(f: Format, g: Format, p: Parts)
    requires Wider(f, g) && Fits(f, p) && p.exp != Top(f) && p.exp > 0
    ensures var q := WidenedParts(f, g, p); Units(g, q.exp, q.man) == Units(f, p.exp, p.man)
  {
    Exponents(f, g);
    hide Pow2, Shl, Top, Highest;
    NormalUnits(f, g.man - f.man, p.exp, p.man, p.exp + Bias(g) - Bias(f) - 1 + Least(g));
  }

  lemma LowWidens(f: Format, g: Format, p: Parts)
    requires Wider(f, g) && Fits(f, p) && p.exp != Top(f) && p.exp == 0 && (p.man == 0 || f.exp == g.exp)
    ensures var q := WidenedParts(f, g, p); Units(g, q.exp, q.man) == Units(f, p.exp, p.man)
  {
    Exponents(f, g);
    hide Pow2, Shl, Top, Highest;
    ShlTwice(p.man, g.man - f.man, Least(g));
    NoneShifted(g.man - f.man);
  }

  lemma SubnormalWidens(f: Format, g: Format, p: Parts)
    requires Wider(f, g) && Fits(f, p) && p.exp != Top(f) && p.exp == 0 && p.man > 0 && f.exp != g.exp
    ensures var q := WidenedParts(f, g, p); Units(g, q.exp, q.man) == Units(f, p.exp, p.man)
  {
    Exponents(f, g);
    var k := Highest(p.man);
    hide Pow2, Shl, Top, Highest;
    Pow2Monotone(f.man, g.man);
    BelowFraction(k, p.man, f.man);
    BelowFraction(k, p.man, g.man);
    ShlTwice(p.man, g.man - k, k + Bias(g) - Bias(f) - f.man + Least(g));
  }

  /** A normal number with `d` more bits of fraction. */
  lemma NormalUnits(f: Format, d: nat, exp: nat, man: nat, k: nat)
    requires Countable(f) && exp > 0 && d + k == exp - 1 + Least(f)
    ensures Shl(Pow2(f.man + d) + Shl(man, d), k) == Units(f, exp, man)
  {
    hide Pow2, Shl;
    PowIsShl(f.man, d);
    ShlAdds(Pow2(f.man), man, d);
    ShlTwice(Pow2(f.man) + man, d, k);
  }

  lemma NoneShifted(d: nat)
    ensures forall k: nat :: Shl(Shl(0, d), k) == 0 && Shl(0, k) == 0
  {
  }

  /** The bits of a wider format for the same number. */
  function Widened(f: Format, g: Format, bits: nat): nat
    requires Wider(f, g)
  {
    SplitFits(f, bits);
    Join(g, WidenedParts(f, g, Split(f, bits)))
  }

  /** Whatever the bits, the wider format's mean the same, subnormals, zeros, infinities and all. */
  lemma WideningKeeps(f: Format, g: Format, bits: nat)
    requires Wider(f, g)
    ensures Means(g, Widened(f, g, bits)) == Means(f, bits) && Widened(f, g, bits) < 2 * Pow2(g.exp + g.man)
  {
    SplitFits(f, bits);
    var p := Split(f, bits);
    hide Split, Join, Units, Top, WidenedParts;
    WidenedFits(f, g, p);
    JoinSplits(g, WidenedParts(f, g, p));
    if p.exp != Top(f) { WidenedUnits(f, g, p); }
  }

  // ---------------------------------------------------------------------
  // The four formats
  // ---------------------------------------------------------------------

  lemma FormatsWiden()
    ensures Wider(BRAIN, SINGLE) && Wider(HALF, SINGLE) && Wider(SINGLE, DOUBLE)
  {
    Formats();
  }

  /** A brain float is the top half of a single, so widening is a shift. */
  method Bf16ToF32(bits: nat) returns (r: nat)
    requires bits < 0x1_0000
    ensures Wider(BRAIN, SINGLE) && r == Widened(BRAIN, SINGLE, bits)
  {
    FormatsWiden();
    BrainShifts(bits);
    r := Shl(bits, 16);
  }

  lemma BrainShifts(bits: nat)
    requires bits < 0x1_0000
    ensures Wider(BRAIN, SINGLE) && Widened(BRAIN, SINGLE, bits) == Shl(bits, 16)
  {
    FormatsWiden();
    SplitFits(BRAIN, bits);
    BrainParts(Split(BRAIN, bits));
    BrainFields(bits);
    hide Pow2, Split, WidenedParts;
    BrainBits(Split(BRAIN, bits));
  }

  lemma BrainParts(p: Parts)
    requires Fits(BRAIN, p) && Wider(BRAIN, SINGLE)
    ensures WidenedParts(BRAIN, SINGLE, p) == Parts(p.neg, p.exp, Shl(p.man, 16))
  {
    Exponents(BRAIN, SINGLE);
    NoneShifted(16);
  }

  lemma BrainFields(bits: nat)
    requires bits < 0x1_0000
    ensures var p := Split(BRAIN, bits); bits == (if p.neg then 0x8000 else 0) + p.exp * 0x80 + p.man
  {
    Powers();
    Pow2Values();
    hide Pow2;
  }

  lemma BrainBits(p: Parts)
    ensures Join(SINGLE, Parts(p.neg, p.exp, Shl(p.man, 16))) == Shl((if p.neg then 0x8000 else 0) + p.exp * 0x80 + p.man, 16)
  {
    Powers();
    Pow2Values();
    hide Pow2;
  }

  /** The fields of a half, masked and shifted out. */
  lemma HalfFields(bits: nat)
    requires bits < 0x1_0000
    ensures var p := Split(HALF, bits);
            && Shr(bits, 15) == (if p.neg then 1 else 0)
            && And(Shr(bits, 10), 0x1f) == p.exp && And(bits, 0x3ff) == p.man
  {
    hide And, Pow2;
    Powers();
    MaskIsModulo(bits, 10);
    MaskIsModulo(Shr(bits, 10), 5);
  }

  /** The low end of a single's bits, or-ed together. */
  lemma OrJoins(q: Parts)
    requires Fits(SINGLE, q)
    ensures Or(Shl(q.exp, 23), q.man) == Shl(q.exp, 23) + q.man < Pow2(31)
  {
    OrShifted(q.man, q.exp, 23);
    LowEnd(SINGLE, q);
  }

  /** The sign of a half, over the low end of the single. */
  lemma SignAbove(bits: nat)
    requires bits < 0x1_0000 && Wider(HALF, SINGLE)
    ensures var p := Split(HALF, bits);
            && Fits(HALF, p)
            && var q := WidenedParts(HALF, SINGLE, p);
               Or(Shl(Shr(bits, 15), 31), Shl(q.exp, 23) + q.man) == Widened(HALF, SINGLE, bits)
  {
    hide Or, And, Pow2, Join, Shl, Shr, Split, WidenedParts;
    SplitFits(HALF, bits);
    var p := Split(HALF, bits);
    WidenedFits(HALF, SINGLE, p);
    HalfFields(bits);
    SignJoins(WidenedParts(HALF, SINGLE, p), Shr(bits, 15));
  }

  lemma SignJoins(q: Parts, s: nat)
    requires Fits(SINGLE, q) && s == if q.neg then 1 else 0
    ensures Or(Shl(s, 31), Shl(q.exp, 23) + q.man) == Join(SINGLE, q)
  {
    hide Pow2, Or;
    LowEnd(SINGLE, q);
    OrShifted(Shl(q.exp, 23) + q.man, s, 31);
  }

  lemma NormalFields(p: Parts)
    requires Fits(HALF, p) && 0 < p.exp < 31 && Wider(HALF, SINGLE)
    ensures var q := WidenedParts(HALF, SINGLE, p);
            Or(Shl(p.exp + 127 - 15, 23), Shl(p.man, 13)) == Shl(q.exp, 23) + q.man
  {
    Formats();
    WidenedFits(HALF, SINGLE, p);
    OrJoins(WidenedParts(HALF, SINGLE, p));
  }

  lemma TopFields(p: Parts)
    requires Fits(HALF, p) && p.exp == 31 && Wider(HALF, SINGLE)
    ensures var q := WidenedParts(HALF, SINGLE, p); Or(0x7f80_0000, Shl(p.man, 13)) == Shl(q.exp, 23) + q.man
  {
    Formats();
    Powers();
    WidenedFits(HALF, SINGLE, p);
    OrJoins(WidenedParts(HALF, SINGLE, p));
    assert Shl(255, 23) == 0x7f80_0000;
  }

  lemma NoFraction(p: Parts)
    requires Fits(HALF, p) && p.exp == 0 && p.man == 0 && Wider(HALF, SINGLE)
    ensures var q := WidenedParts(HALF, SINGLE, p); Shl(q.exp, 23) + q.man == 0
  {
    Formats();
    NoneShifted(13);
  }

  lemma SubnormalFields(p: Parts)
    requires Fits(HALF, p) && p.exp == 0 && p.man > 0 && Wider(HALF, SINGLE)
    ensures var q, k := WidenedParts(HALF, SINGLE, p), Highest(p.man);
            k <= 23 && Or(Shl(k + 127 - 24, 23), And(Shl(p.man, 23 - k), 0x7f_ffff)) == Shl(q.exp, 23) + q.man
  {
    hide And, Or, Pow2, Shl;
    Formats();
    Powers();
    var k := Highest(p.man);
    Pow2Monotone(10, 23);
    BelowFraction(k, p.man, 23);
    WidenedFits(HALF, SINGLE, p);
    OrJoins(WidenedParts(HALF, SINGLE, p));
    var x := Shl(p.man, 23 - k);
    MaskIsModulo(x, 23);
    ModuloUnique(x, Pow2(23), 1, x - Pow2(23));
  }

  /** IEEE binary16 to a single. A subnormal half becomes a normal single: its leading one is
      the implicit bit, and the exponent falls out of where that one sits. */
  method F16ToF32(bits: nat) returns (r: nat)
    requires bits < 0x1_0000
    ensures Wider(HALF, SINGLE) && r == Widened(HALF, SINGLE, bits)
  {
    hide *;
    FormatsWiden();
    HalfFields(bits);
    SignAbove(bits);
    ghost var p := Split(HALF, bits);
    ghost var q := WidenedParts(HALF, SINGLE, p);
    var sign := Shl(Shr(bits, 15), 31);
    var exp := And(Shr(bits, 10), 0x1f);
    var man := And(bits, 0x3ff);
    var rest := 0;
    if exp == 0 && man == 0 {
      NoFraction(p);
    } else if exp == 0 {
      SubnormalFields(p);
      var k := Highest(man);
      rest := Or(Shl(k + 127 - 24, 23), And(Shl(man, 23 - k), 0x7f_ffff));
    } else if exp == 0x1f {
      TopFields(p);
      rest := Or(0x7f80_0000, Shl(man, 13));
    } else {
      HalfExponent(p);
      NormalFields(p);
      rest := Or(Shl(exp + 127 - 15, 23), Shl(man, 13));
    }
    r := Or(sign, rest);
  }

  lemma HalfExponent(p: Parts)
    requires Fits(HALF, p)
    ensures p.exp < 32
  {
    Powers();
  }

  // ---------------------------------------------------------------------
  // Into a double
  // ---------------------------------------------------------------------

  /** The format of a float of width code `code`. */
  function FormatOf(code: nat): Format {
    match code case 0 => BRAIN case 1 => HALF case 2 => SINGLE case _ => DOUBLE
  }

  /** The double a float of width code `code` widens to, through a single if it is narrower. */
  function AsDouble(code: nat, bits: nat): nat {
    FormatsWiden();
    match code
    case 0 => Widened(SINGLE, DOUBLE, Widened(BRAIN, SINGLE, bits))
    case 1 => Widened(SINGLE, DOUBLE, Widened(HALF, SINGLE, bits))
    case 2 => Widened(SINGLE, DOUBLE, bits)
    case _ => bits
  }

  /** A float of any width read as a double is the same number. */
  lemma DoubleIsExact(code: nat, bits: nat)
    ensures Countable(FormatOf(code)) && Countable(DOUBLE)
    ensures Means(DOUBLE, AsDouble(code, bits)) == Means(FormatOf(code), bits)
  {
    Formats();
    FormatsWiden();
    hide Means, Widened;
    match code {
      case 0 =>
        WideningKeeps(BRAIN, SINGLE, bits);
        WideningKeeps(SINGLE, DOUBLE, Widened(BRAIN, SINGLE, bits));
      case 1 =>
        WideningKeeps(HALF, SINGLE, bits);
        WideningKeeps(SINGLE, DOUBLE, Widened(HALF, SINGLE, bits));
      case 2 => WideningKeeps(SINGLE, DOUBLE, bits);
      case _ =>
    }
  }
}

/** Scanning bytes eight at a time with word arithmetic: src/swar.rs.

    A word is the number its eight bytes spell, the first the lowest, and every word
    operation is followed byte by byte: the bitwise ones stay inside a byte, and a
    subtraction's borrow only travels upward. */
module Swar {
  import opened Bits
  import opened Wrappers
  import opened Headers

  const ONES: u64 := 0x0101_0101_0101_0101
  const HIGH: u64 := 0x8080_8080_8080_8080

  function WrappingSub(a: u64, b: u64): u64 { (a - b) % TWO_TO_THE_64 }

  function Not(a: u64): u64 { TWO_TO_THE_64 - 1 - a }

  /** Broadcast one byte across a word. */
  function Splat(b: u8): u64 { ONES * b % TWO_TO_THE_64 }

  /** Light the high bit of every byte of `chunk` below `b`, up to the first and perhaps some
      past it. */
  function LtMask(chunk: u64, b: u8): u64 {
    And(And(WrappingSub(chunk, Splat(b)), Not(chunk)), HIGH)
  }

  /** Light the high bit of every byte of `chunk` equal to `b`, likewise. */
  function EqMask(chunk: u64, b: u8): u64 {
    var x := Xor64(chunk, Splat(b));
    And(And(WrappingSub(x, ONES), Not(x)), HIGH)
  }

  const QUOTE: u8 := '"' as int
  const BACKSLASH: u8 := '\\' as int

  /** Light the high bit of every byte a JSON string cannot carry literally, likewise. */
  function EscapeMask(chunk: u64): nat {
    Or(Or(EqMask(chunk, QUOTE), EqMask(chunk, BACKSLASH)), LtMask(chunk, 0x20))
  }

  function TrailingZeros(m: nat): nat
    requires m > 0
  {
    if m % 2 == 1 then 0 else 1 + TrailingZeros(m / 2)
  }

  /** The byte the lowest bit set is in. */
  function FirstMatch(mask: nat): nat
    requires mask > 0
  {
    TrailingZeros(mask) / 8
  }

  predicate NeedsEscape(c: u8) {
    c < 0x20 || c == QUOTE || c == BACKSLASH
  }

  // ---------------------------------------------------------------------
  // Words as bytes
  // ---------------------------------------------------------------------

  function Repeated(b: u8, n: nat): (r: Bytes)
    ensures |r| == n
  {
    if n == 0 then [] else [b] + Repeated(b, n - 1)
  }

  function XorBytes(a: Bytes, b: Bytes): (r: Bytes)
    requires |a| == |b|
    ensures |r| == |a|
  {
    if a == [] then []
    else
      XorByte(a[0], b[0]);
      [Xor(a[0], b[0])] + XorBytes(a[1..], b[1..])
  }

  function OrBytes(a: Bytes, b: Bytes): (r: Bytes)
    requires |a| == |b|
    ensures |r| == |a|
  {
    if a == [] then []
    else
      XorByte(a[0], b[0]);
      [Or(a[0], b[0])] + OrBytes(a[1..], b[1..])
  }

  lemma XorByte(a: u8, b: u8)
    ensures Xor(a, b) < 256 && Or(a, b) < 256
  {
    Pow2Values();
    XorBound(a, b, 8);
  }

  lemma AndSplitByte(x: u8, y: nat, u: u8, v: nat)
    ensures And(x + 256 * y, u + 256 * v) == And(x, u) + 256 * And(y, v)
  {
    Pow2Values();
    AndSplit(8, x, y, u, v);
  }

  lemma {:induction false} XorWords(a: Bytes, b: Bytes)
    requires |a| == |b|
    ensures Xor(LittleEndian(a), LittleEndian(b)) == LittleEndian(XorBytes(a, b))
    ensures Or(LittleEndian(a), LittleEndian(b)) == LittleEndian(OrBytes(a, b))
  {
    hide And, Xor, Or;
    var x, y := LittleEndian(a), LittleEndian(b);
    XorIsSum(x, y);
    OrIsSum(x, y);
    if a != [] {
      var a', b' := a[1..], b[1..];
      XorWords(a', b');
      XorIsSum(LittleEndian(a'), LittleEndian(b'));
      OrIsSum(LittleEndian(a'), LittleEndian(b'));
      XorIsSum(a[0], b[0]);
      OrIsSum(a[0], b[0]);
      AndSplitByte(a[0], LittleEndian(a'), b[0], LittleEndian(b'));
      assert XorBytes(a, b)[1..] == XorBytes(a', b') && OrBytes(a, b)[1..] == OrBytes(a', b');
    }
  }

  /** What `(c - s - borrow) & !c & HIGH` leaves in each byte, the borrow out of one byte
      being taken from the next. */
  function Marks(c: Bytes, s: Bytes, borrow: nat): (r: Bytes)
    requires |c| == |s| && borrow <= 1
    ensures |r| == |c|
  {
    if c == [] then []
    else
      var t := c[0] - s[0] - borrow;
      [And(And(t % 256, 255 - c[0]), 0x80)] + Marks(c[1..], s[1..], if t < 0 then 1 else 0)
  }

  lemma ModuloSplit(r: u8, q: int, m: nat)
    requires m > 0
    ensures (r + 256 * q) % (256 * m) == r + 256 * (q % m)
  {
    var a, b := q / m, q % m;
    assert r + 256 * q == a * (256 * m) + (r + 256 * b);
    ModuloUnique(r + 256 * q, 256 * m, a, r + 256 * b);
  }

  /** The word operation: `(c - s - borrow) & !c & high`, below `limit`. */
  function MarkedWord(c: nat, s: nat, borrow: nat, limit: nat, high: nat): nat
    requires c < limit
  {
    And(And((c - s - borrow) % limit, limit - 1 - c), high)
  }

  /** The word operation is the byte operation, with the borrow carried along. */
  lemma {:induction false} MarksWord(c: Bytes, s: Bytes, borrow: nat)
    requires |c| == |s| && borrow <= 1
    ensures LittleEndian(c) < Pow256(|c|)
    ensures MarkedWord(LittleEndian(c), LittleEndian(s), borrow, Pow256(|c|), LittleEndian(Repeated(0x80, |c|)))
            == LittleEndian(Marks(c, s, borrow))
  {
    hide And, MarkedWord;
    LittleEndianBound(c);
    if c == [] {
      NothingMarked(borrow);
    } else {
      var c', s', m := c[1..], s[1..], Pow256(|c| - 1);
      var t := c[0] - s[0] - borrow;
      var b' := if t < 0 then 1 else 0;
      var high, marks := Repeated(0x80, |c|), Marks(c, s, borrow);
      RepeatedTail(0x80, |c|);
      assert marks == [And(And(t % 256, 255 - c[0]), 0x80)] + Marks(c', s', b');
      assert marks[1..] == Marks(c', s', b');
      Unfolded(c);
      Unfolded(s);
      Unfolded(high);
      Unfolded(marks);
      assert Pow256(|c|) == 256 * m && high[1..] == Repeated(0x80, |c'|);
      hide Marks, LittleEndian, Pow256, Repeated;
      MarksWord(c', s', b');
      MarkedStep(c[0], LittleEndian(c'), s[0], LittleEndian(s'), borrow, m, LittleEndian(high[1..]));
    }
  }

  lemma NothingMarked(borrow: nat)
    ensures MarkedWord(0, 0, borrow, 1, 0) == 0
  {
  }

  lemma Unfolded(b: Bytes)
    requires b != []
    ensures LittleEndian(b) == b[0] + 256 * LittleEndian(b[1..])
  {
  }

  /** One byte of it: its own mark, and the rest of the word with its borrow. */
  lemma MarkedStep(c0: u8, c: nat, s0: u8, s: nat, borrow: nat, m: nat, high: nat)
    requires borrow <= 1 && c < m
    ensures var t := c0 - s0 - borrow;
            MarkedWord(c0 + 256 * c, s0 + 256 * s, borrow, 256 * m, 0x80 + 256 * high)
            == And(And(t % 256, 255 - c0), 0x80) + 256 * MarkedWord(c, s, if t < 0 then 1 else 0, m, high)
  {
    hide And, MarkedWord;
    var t := c0 - s0 - borrow;
    var b' := if t < 0 then 1 else 0;
    var d: nat := (c - s - b') % m;
    SubtractStep(c0, c, s0, s, borrow, m);
    MarkedWordIs(c0 + 256 * c, s0 + 256 * s, borrow, 256 * m, 0x80 + 256 * high, t % 256 + 256 * d, 255 - c0 + 256 * (m - 1 - c));
    MarkedWordIs(c, s, b', m, high, d, m - 1 - c);
    AndsStep(t % 256, d, 255 - c0, m - 1 - c, 0x80, high);
  }

  lemma MarkedWordIs(c: nat, s: nat, borrow: nat, limit: nat, high: nat, left: nat, inverse: nat)
    requires c < limit && left == (c - s - borrow) % limit && inverse == limit - 1 - c
    ensures MarkedWord(c, s, borrow, limit, high) == And(And(left, inverse), high)
  {
  }

  lemma SubtractStep(c0: u8, c: nat, s0: u8, s: nat, borrow: nat, m: nat)
    requires m > 0 && borrow <= 1
    ensures var t := c0 - s0 - borrow;
            (c0 + 256 * c - (s0 + 256 * s) - borrow) % (256 * m) == t % 256 + 256 * ((c - s - (if t < 0 then 1 else 0)) % m)
  {
    var t := c0 - s0 - borrow;
    var q := c - s - if t < 0 then 1 else 0;
    assert c0 + 256 * c - (s0 + 256 * s) - borrow == t % 256 + 256 * q;
    ModuloSplit(t % 256, q, m);
  }

  lemma AndsStep(x: u8, d: nat, y: u8, e: nat, z: u8, f: nat)
    ensures And(And(x + 256 * d, y + 256 * e), z + 256 * f) == And(And(x, y), z) + 256 * And(And(d, e), f)
  {
    hide And;
    AndSplitByte(x, d, y, e);
    AndSplitByte(And(x, y), And(d, e), z, f);
  }

  // ---------------------------------------------------------------------
  // The first mark
  // ---------------------------------------------------------------------

  lemma TopBit(a: u8, b: u8)
    ensures And(a, b) == And(a % 128, b % 128) + if a >= 128 && b >= 128 then 128 else 0
  {
    assert Pow2(7) == 128 by { assert Pow2(4) == 16; }
    AndSplit(7, a % 128, a / 128, b % 128, b / 128);
    assert And(1, 1) == 1;
  }

  lemma HighBit(a: u8, b: u8)
    ensures And(And(a, b), 0x80) == if a >= 128 && b >= 128 then 0x80 else 0
  {
    hide And;
    TopBit(a, b);
    TopBit(And(a, b), 0x80);
    AndNothing(And(a, b) % 128, 0);
  }

  /** The place of the first byte `f` holds of, or the length if there is none. */
  function First(c: Bytes, f: u8 -> bool): (k: nat)
    ensures k <= |c|
    ensures forall j | 0 <= j < k :: !f(c[j])
    ensures k < |c| ==> f(c[k])
  {
    if c == [] || f(c[0]) then 0 else 1 + First(c[1..], f)
  }

  lemma FirstStep(c: Bytes, f: u8 -> bool)
    requires c != []
    ensures First(c, f) == if f(c[0]) then 0 else 1 + First(c[1..], f)
  {
  }

  /** Nothing is marked before the first byte below `b`, and that byte is. */
  lemma {:induction false} FirstMark(c: Bytes, b: u8)
    requires b <= 0x80
    ensures First(Marks(c, Repeated(b, |c|), 0), x => x != 0) == First(c, x => x < b)
    ensures forall i | 0 <= i < |c| :: Marks(c, Repeated(b, |c|), 0)[i] in {0, 0x80}
  {
    hide And, First;
    MarksAreHigh(c, Repeated(b, |c|), 0);
    if c != [] {
      var s, m := Repeated(b, |c|), Marks(c, Repeated(b, |c|), 0);
      HighBit((c[0] - b) % 256, 255 - c[0]);
      assert s[1..] == Repeated(b, |c| - 1);
      if c[0] >= b {
        FirstMark(c[1..], b);
        assert m[1..] == Marks(c[1..], s[1..], 0);
        FirstStep(c, x => x < b);
        FirstStep(m, x => x != 0);
      } else {
        FirstStep(c, x => x < b);
        FirstStep(m, x => x != 0);
      }
    }
  }

  lemma {:induction false} MarksAreHigh(c: Bytes, s: Bytes, borrow: nat)
    requires |c| == |s| && borrow <= 1
    ensures forall i | 0 <= i < |c| :: Marks(c, s, borrow)[i] in {0, 0x80}
  {
    if c != [] {
      var t := c[0] - s[0] - borrow;
      HighBit(t % 256, 255 - c[0]);
      MarksAreHigh(c[1..], s[1..], if t < 0 then 1 else 0);
    }
  }

  /** A word marked only in high bits is zero when nothing is marked, and otherwise its
      trailing zeros lead to the first mark. */
  lemma {:induction false} FirstMatchIsFirst(m: Bytes)
    requires forall i | 0 <= i < |m| :: m[i] in {0, 0x80}
    ensures LittleEndian(m) == 0 <==> First(m, x => x != 0) == |m|
    ensures LittleEndian(m) > 0 ==> FirstMatch(LittleEndian(m)) == First(m, x => x != 0)
  {
    if m != [] {
      var rest := LittleEndian(m[1..]);
      if m[0] == 0 {
        FirstMatchIsFirst(m[1..]);
        if rest > 0 { ZerosOfByte(rest); }
      } else {
        ZerosOfMark(rest);
      }
    }
  }

  lemma ZerosOfByte(w: nat)
    requires w > 0
    ensures TrailingZeros(256 * w) == 8 + TrailingZeros(w)
  {
    assert TrailingZeros(2 * w) == 1 + TrailingZeros(w);
    assert TrailingZeros(4 * w) == 2 + TrailingZeros(w);
    assert TrailingZeros(8 * w) == 3 + TrailingZeros(w);
    assert TrailingZeros(16 * w) == 4 + TrailingZeros(w);
    assert TrailingZeros(32 * w) == 5 + TrailingZeros(w);
    assert TrailingZeros(64 * w) == 6 + TrailingZeros(w);
    assert TrailingZeros(128 * w) == 7 + TrailingZeros(w);
  }

  lemma ZerosOfMark(w: nat)
    ensures TrailingZeros(0x80 + 256 * w) == 7
  {
    var odd := 1 + 2 * w;
    assert TrailingZeros(2 * odd) == 1 && TrailingZeros(4 * odd) == 2 && TrailingZeros(8 * odd) == 3;
    assert TrailingZeros(16 * odd) == 4 && TrailingZeros(32 * odd) == 5 && TrailingZeros(64 * odd) == 6;
    assert TrailingZeros(128 * odd) == 7;
  }

  // ---------------------------------------------------------------------
  // The scans
  // ---------------------------------------------------------------------

  /** A mask of a word's bytes: zero when `f` holds of none, and otherwise pointing at the
      first it holds of. */
  ghost predicate PointsAt(mask: nat, c: Bytes, f: u8 -> bool) {
    && (mask == 0 <==> First(c, f) == |c|)
    && (mask > 0 ==> FirstMatch(mask) == First(c, f))
  }

  lemma WordConstants()
    ensures Pow256(8) == TWO_TO_THE_64
    ensures LittleEndian(Repeated(1, 8)) == ONES && LittleEndian(Repeated(0x80, 8)) == HIGH
  {
    assert Pow256(4) == TWO_TO_THE_32;
    assert LittleEndian(Repeated(1, 4)) == 0x0101_0101 && LittleEndian(Repeated(0x80, 4)) == 0x8080_8080;
    RepeatedTail(1, 8);
    RepeatedTail(0x80, 8);
  }

  lemma {:induction false} RepeatedTail(b: u8, n: nat)
    ensures n > 0 ==> Repeated(b, n)[1..] == Repeated(b, n - 1)
    ensures forall k | 0 <= k < n :: Repeated(b, n)[k] == b
  {
    if n > 0 { RepeatedTail(b, n - 1); }
  }

  lemma {:induction false} SplatBytes(b: u8, n: nat)
    ensures LittleEndian(Repeated(b, n)) == b * LittleEndian(Repeated(1, n))
  {
    if n > 0 {
      SplatBytes(b, n - 1);
      RepeatedTail(b, n);
      RepeatedTail(1, n);
    }
  }

  lemma SplatWord(b: u8)
    ensures Splat(b) == LittleEndian(Repeated(b, 8))
  {
    WordConstants();
    SplatBytes(b, 8);
    assert b * ONES <= 255 * ONES;
  }

  /** Eight bytes as a little-endian word. */
  function Word(c: Bytes): (w: u64)
    requires |c| == 8
  {
    WordFits(c);
    LittleEndian(c)
  }

  lemma WordFits(c: Bytes)
    requires |c| == 8
    ensures LittleEndian(c) < TWO_TO_THE_64
  {
    WordConstants();
    LittleEndianBound(c);
  }

  /** The bytes `lt_mask` leaves. */
  function LtMarks(c: Bytes, b: u8): (r: Bytes)
    ensures |r| == |c|
  {
    Marks(c, Repeated(b, |c|), 0)
  }

  /** The bytes `eq_mask` leaves. */
  function EqMarks(c: Bytes, b: u8): (r: Bytes)
    ensures |r| == |c|
  {
    LtMarks(XorBytes(c, Repeated(b, |c|)), 1)
  }

  lemma LtWord(c: Bytes, b: u8)
    requires |c| == 8
    ensures LtMask(Word(c), b) == LittleEndian(LtMarks(c, b))
  {
    hide And, Marks, Splat, LittleEndian, Pow256, Repeated;
    WordConstants();
    SplatWord(b);
    MarksWord(c, Repeated(b, 8), 0);
  }

  lemma EqWord(c: Bytes, b: u8)
    requires |c| == 8
    ensures EqMask(Word(c), b) == LittleEndian(EqMarks(c, b))
  {
    assert Splat(1) == ONES;
    hide And, Xor, LittleEndian, Pow256, Repeated, XorBytes, Marks, Splat;
    WordConstants();
    LittleEndianBound(c);
    SplatWord(b);
    XorWords(c, Repeated(b, 8));
    LtWord(XorBytes(c, Repeated(b, 8)), 1);
  }

  lemma EqFirst(c: Bytes, b: u8)
    ensures First(EqMarks(c, b), m => m != 0) == First(c, x => x == b)
    ensures forall i | 0 <= i < |c| :: EqMarks(c, b)[i] in {0, 0x80}
  {
    hide First, Marks, Repeated, XorBytes;
    FirstMark(XorBytes(c, Repeated(b, |c|)), 1);
    XorFinds(c, b);
  }

  /** `lt_mask`, of a bound at most `0x80`, points at the first byte below it. */
  lemma LtMaskPoints(c: Bytes, b: u8)
    requires |c| == 8 && b <= 0x80
    ensures PointsAt(LtMask(Word(c), b), c, x => x < b)
  {
    hide LtMask, Marks, First, LittleEndian, FirstMatch;
    LtWord(c, b);
    FirstMark(c, b);
    FirstMatchIsFirst(LtMarks(c, b));
  }

  /** A byte with its own high bit set is never marked. */
  lemma {:induction false} HighBytesUnmarked(c: Bytes, s: Bytes, borrow: nat)
    requires |c| == |s| && borrow <= 1 && forall i | 0 <= i < |c| :: c[i] >= 0x80
    ensures First(Marks(c, s, borrow), m => m != 0) == |c|
  {
    if c != [] {
      hide And, First;
      var t := c[0] - s[0] - borrow;
      var b' := if t < 0 then 1 else 0;
      HighBit(t % 256, 255 - c[0]);
      HighBytesUnmarked(c[1..], s[1..], b');
      var m := Marks(c, s, borrow);
      assert m[1..] == Marks(c[1..], s[1..], b');
      FirstStep(m, x => x != 0);
    }
  }

  /** Past that bound it misses bytes: of eight bytes `0x80`, all below `b`, it marks none. */
  lemma LtMaskNeedsBound(b: u8)
    requires b > 0x80
    ensures var c := Repeated(0x80, 8); LtMask(Word(c), b) == 0 && First(c, x => x < b) == 0
  {
    hide LtMask, LittleEndian, FirstMatch, Marks;
    var c := Repeated(0x80, 8);
    RepeatedTail(0x80, 8);
    LtWord(c, b);
    HighBytesUnmarked(c, Repeated(b, 8), 0);
    MarksAreHigh(c, Repeated(b, 8), 0);
    FirstMatchIsFirst(LtMarks(c, b));
  }

  /** `eq_mask` points at the first byte equal to `b`. */
  lemma EqMaskPoints(c: Bytes, b: u8)
    requires |c| == 8
    ensures PointsAt(EqMask(Word(c), b), c, x => x == b)
  {
    hide EqMask, EqMarks, First, LittleEndian, FirstMatch;
    EqWord(c, b);
    EqFirst(c, b);
    FirstMatchIsFirst(EqMarks(c, b));
  }

  lemma {:induction false} XorFinds(c: Bytes, b: u8)
    ensures First(XorBytes(c, Repeated(b, |c|)), x => x < 1) == First(c, x => x == b)
  {
    if c != [] {
      var x := XorBytes(c, Repeated(b, |c|));
      XorZero(c[0], b);
      RepeatedTail(b, |c|);
      XorFinds(c[1..], b);
      assert x[1..] == XorBytes(c[1..], Repeated(b, |c| - 1));
    }
  }

  /** The union of two masks points at the first byte either would. */
  lemma UnionPoints(a: Bytes, b: Bytes)
    requires |a| == |b|
    requires forall i | 0 <= i < |a| :: a[i] in {0, 0x80} && b[i] in {0, 0x80}
    ensures forall i | 0 <= i < |a| :: OrBytes(a, b)[i] in {0, 0x80}
    ensures var u := OrBytes(a, b);
            var x, y := First(a, m => m != 0), First(b, m => m != 0);
            First(u, m => m != 0) == if x < y then x else y
  {
    if a != [] {
      OrMarks();
      hide Or, First;
      var x, y, u := a[1..], b[1..], OrBytes(a, b);
      UnionPoints(x, y);
      assert u[0] == Or(a[0], b[0]) && u[1..] == OrBytes(x, y);
      FirstStep(a, m => m != 0);
      FirstStep(b, m => m != 0);
      FirstStep(u, m => m != 0);
    }
  }

  lemma OrMarks()
    ensures Or(0, 0) == 0 && Or(0x80, 0) == 0x80 && Or(0, 0x80) == 0x80 && Or(0x80, 0x80) == 0x80
  {
    OrIsSum(0x80, 0);
    OrIsSum(0, 0x80);
    OrIsSum(0x80, 0x80);
    HighBit(0x80, 0x80);
    TopBit(0x80, 0x80);
  }

  lemma {:induction false} FirstEither(c: Bytes, f: u8 -> bool, g: u8 -> bool, h: u8 -> bool)
    requires forall x: u8 :: h(x) == (f(x) || g(x))
    ensures First(c, h) == if First(c, f) < First(c, g) then First(c, f) else First(c, g)
  {
    if c != [] { FirstEither(c[1..], f, g, h); }
  }

  /** `escape_mask` points at the first byte that a JSON string cannot carry. */
  lemma EscapeMaskPoints(c: Bytes)
    requires |c| == 8
    ensures PointsAt(EscapeMask(Word(c)), c, NeedsEscape)
  {
    hide EqMask, LtMask, EqMarks, LtMarks, Or, OrBytes, First, LittleEndian, FirstMatch;
    var q, s, low := EqMarks(c, QUOTE), EqMarks(c, BACKSLASH), LtMarks(c, 0x20);
    EqWord(c, QUOTE);
    EqWord(c, BACKSLASH);
    LtWord(c, 0x20);
    EqFirst(c, QUOTE);
    EqFirst(c, BACKSLASH);
    LtFirst(c, 0x20);
    XorWords(q, s);
    UnionPoints(q, s);
    XorWords(OrBytes(q, s), low);
    UnionPoints(OrBytes(q, s), low);
    FirstEither(c, x => x == QUOTE, x => x == BACKSLASH, x => x == QUOTE || x == BACKSLASH);
    FirstEither(c, x => x == QUOTE || x == BACKSLASH, x => x < 0x20, NeedsEscape);
    FirstMatchIsFirst(OrBytes(OrBytes(q, s), low));
  }

  lemma LtFirst(c: Bytes, b: u8)
    requires b <= 0x80
    ensures First(LtMarks(c, b), m => m != 0) == First(c, x => x < b)
    ensures forall i | 0 <= i < |c| :: LtMarks(c, b)[i] in {0, 0x80}
  {
    hide First, Marks, Repeated;
    FirstMark(c, b);
  }

  /** What the mask of one word says of the eight bytes it was loaded from. */
  lemma WordFinds(data: Bytes, i: nat, b: u8)
    requires i + 8 <= |data|
    ensures var m := EqMask(Word(data[i..i + 8]), b);
            && (m == 0 ==> forall j | i <= j < i + 8 :: data[j] != b)
            && (m != 0 ==> FirstMatch(m) < 8 && data[i + FirstMatch(m)] == b
                           && forall j | i <= j < i + FirstMatch(m) :: data[j] != b)
  {
    hide EqMask, First, Word, FirstMatch;
    var c := data[i..i + 8];
    EqMaskPoints(c, b);
    forall j | i <= j < i + First(c, x => x == b) ensures data[j] != b { assert data[j] == c[j - i]; }
  }

  /** Offset of the first `b` at or after `from`, if there is one. */
  method FindByte(data: Bytes, from: nat, b: u8) returns (r: Option<nat>)
    ensures r.Some? ==> from <= r.value < |data| && data[r.value] == b && forall j | from <= j < r.value :: data[j] != b
    ensures r.None? ==> forall j | from <= j < |data| :: data[j] != b
  {
    var n, i := |data|, from;
    while i + 8 <= n
      invariant from <= i && (i <= n || i == from)
      invariant forall j | from <= j < i && j < n :: data[j] != b
    {
      hide EqMask, Word, FirstMatch;
      var m := EqMask(Word(data[i..i + 8]), b);
      WordFinds(data, i, b);
      if m != 0 { return Some(i + FirstMatch(m)); }
      i := i + 8;
    }
    while i < n
      invariant from <= i && (i <= n || i == from)
      invariant forall j | from <= j < i && j < n :: data[j] != b
    {
      if data[i] == b { return Some(i); }
      i := i + 1;
    }
    return None;
  }
}

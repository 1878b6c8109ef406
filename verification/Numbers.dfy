/** What number a payload is. */
module NumberTheorems {
  import opened Bits
  import opened Wrappers
  import opened Headers
  import opened Wire
  import opened Grammar
  import opened Walks
  import opened WalkProofs
  import opened Trees
  import opened Floats
  import WalkTheorems

  // ---------------------------------------------------------------------
  // Widths
  // ---------------------------------------------------------------------

  /** An integer of width code `c` has 2^c bytes, and so has a float but for code 0, the
      16-bit brain float. Five codes are defined. */
  lemma WidthIsPower(h: u8)
    ensures FixedWidth(h) ==
            if Sub(h) == CAT_OTHER || CountOf(h) > 4 then None
            else if Sub(h) == CAT_FLOAT && CountOf(h) == 0 then Some(2)
            else Some(Pow2(CountOf(h)))
    ensures IsFloat128(h) <==> Sub(h) == CAT_FLOAT && FixedWidth(h) == Some(16)
  {
    assert Pow2(0) == 1 && Pow2(1) == 2 && Pow2(2) == 4 && Pow2(3) == 8 && Pow2(4) == 16;
  }

  /** An object's keys are strings, under one header only, or integers of one of the five
      widths. */
  lemma KeyWidths(h: u8)
    requires Ty(h) == TY_OBJECT
    ensures KeyWidth(h) ==
            if h == TY_OBJECT then Some(0)
            else if (Sub(h) == CAT_SIGNED || Sub(h) == CAT_UNSIGNED) && CountOf(h) <= 4 then Some(Pow2(CountOf(h)))
            else None
  {
    WidthIsPower(h);
    HeaderFields(h);
  }

  // ---------------------------------------------------------------------
  // Integers
  // ---------------------------------------------------------------------

  predicate IsInteger(h: u8) {
    FixedWidth(h).Some? && (Sub(h) == CAT_SIGNED || Sub(h) == CAT_UNSIGNED)
  }

  /** The numbers that `h` has a payload for. */
  predicate Holds(h: u8, n: int)
    requires IsInteger(h)
  {
    var range := Pow256(FixedWidth(h).value);
    if Sub(h) == CAT_SIGNED then 0 - range <= 2 * n < range else 0 <= n < range
  }

  /** The payload of `n`: its low bytes, little end first. */
  function IntegerBytes(h: u8, n: int): (b: Bytes)
    requires IsInteger(h)
    ensures |b| == FixedWidth(h).value
  {
    LowBytes(n % Pow256(FixedWidth(h).value), FixedWidth(h).value)
  }

  /** The numbers a tree can hold. */
  predicate InTree(h: u8, n: int) {
    if Sub(h) == CAT_SIGNED then -0x8000_0000_0000_0000 <= n < 0x8000_0000_0000_0000 else n < 0x1_0000_0000_0000_0000
  }

  lemma Pow256Even(w: nat)
    requires w > 0
    ensures Pow256(w) % 2 == 0
  {
  }

  /** The one number congruent to `v` modulo 256^w in the signed range of `w` bytes. */
  lemma SignExtendIs(v: nat, w: nat)
    requires w > 0 && v < Pow256(w)
    ensures SignExtend(v, w) % Pow256(w) == v && 0 - Pow256(w) <= 2 * SignExtend(v, w) < Pow256(w)
  {
    hide Pow256;
    var s := SignExtend(v, w);
    ModuloUnique(s, Pow256(w), if s == v then 0 else -1, v);
  }

  lemma SignExtendBack(n: int, w: nat)
    requires w > 0 && 0 - Pow256(w) <= 2 * n < Pow256(w)
    ensures SignExtend(n % Pow256(w), w) == n
  {
    hide Pow256;
    ModuloUnique(n, Pow256(w), if n < 0 then -1 else 0, if n < 0 then n + Pow256(w) else n);
  }

  /** Every integer a header holds reads from its bytes as itself, or, past 64 bits, is out
      of a tree's range. */
  lemma IntegerRoundTrip(h: u8, n: int)
    requires IsInteger(h) && Holds(h, n)
    ensures NumberOf(h, IntegerBytes(h, n)) == Int(n)
    ensures Representable(h, IntegerBytes(h, n)) <==> InTree(h, n)
    ensures KeyText(h, IntegerBytes(h, n)) == Decimal(n)
  {
    hide Pow256, LowBytes, SignExtend;
    var w := FixedWidth(h).value;
    LowBytesRoundTrip(n % Pow256(w), w);
    if Sub(h) == CAT_SIGNED { SignExtendBack(n, w); } else { ModuloUnique(n, Pow256(w), 0, n); }
  }

  /** A number's document, with anything around it. */
  lemma IntegerDocument(h: u8, n: int, d: Bytes, p: nat, e: nat, depth: nat)
    requires IsInteger(h) && Ty(h) == TY_NUMBER && Holds(h, n) && Spans(d, p, [h] + IntegerBytes(h, n), e)
    requires depth <= MAX_DEPTH
    ensures var num := Grammar.Num(h, IntegerBytes(h, n));
            && TreeOf(num) == Value.Num(Int(n))
            && WValue(Build, d, p, depth) == if InTree(h, n) then Out.Ok(num, e) else Out.Err(NumberOutOfRange, e)
  {
    hide Representable, IntegerBytes, NumberOf;
    var payload := IntegerBytes(h, n);
    IntegerRoundTrip(h, n);
    SpanSplit(d, p, [h], payload, e);
    SpanHead(d, p, h);
    WidthIsPower(h);
    assert WValue(Build, d, p, depth) == WBody(Build, d, p + 1, h, depth) == WNum(Build, d, p + 1, h);
  }

  // ---------------------------------------------------------------------
  // Typed arrays of integers
  // ---------------------------------------------------------------------

  function Packed(h: u8, ns: seq<int>): (b: Bytes)
    requires IsInteger(h)
    ensures |b| == |ns| * FixedWidth(h).value
  {
    if ns == [] then [] else IntegerBytes(h, ns[0]) + Packed(h, ns[1..])
  }

  function Ints(ns: seq<int>): (r: seq<Value>)
    ensures |r| == |ns|
  {
    seq(|ns|, i requires 0 <= i < |ns| => Value.Num(Int(ns[i])))
  }

  lemma {:induction false} PackedReads(h: u8, ns: seq<int>)
    requires IsInteger(h) && forall i | 0 <= i < |ns| :: Holds(h, ns[i])
    ensures Numbers(h, FixedWidth(h).value, Packed(h, ns)) == Ints(ns)
    ensures AllRepresentable(h, FixedWidth(h).value, Packed(h, ns)) <==> forall i | 0 <= i < |ns| :: InTree(h, ns[i])
  {
    hide IntegerBytes, Representable, NumberOf, Holds, InTree;
    var w := FixedWidth(h).value;
    if ns != [] {
      var payload := Packed(h, ns);
      IntegerRoundTrip(h, ns[0]);
      PackedReads(h, ns[1..]);
      assert payload[..w] == IntegerBytes(h, ns[0]) && payload[w..] == Packed(h, ns[1..]);
      assert Ints(ns) == [Value.Num(Int(ns[0]))] + Ints(ns[1..]);
    }
  }

  /** A typed array of integers, plain or aligned, whichever size field counts them. */
  lemma IntegersDocument(form: TypedPreamble, ns: seq<int>, d: Bytes, p: nat, e: nat, depth: nat)
    requires (form.Plain? || form.Aligned?) && IsInteger(form.h) && form.z != [] && |ns| == form.Count()
    requires BlockFits(form, Packed(form.h, ns)) && depth < MAX_DEPTH
    requires forall i | 0 <= i < |ns| :: Holds(form.h, ns[i]) && InTree(form.h, ns[i])
    requires Spans(d, p, [OuterHeader(form)] + (EncodePreamble(form) + Packed(form.h, ns)), e)
    ensures var r := WValue(Build, d, p, depth);
            r.Ok? && r.pos == e && TreeOf(r.value) == Array(Ints(ns))
  {
    hide Packed, Holds, InTree, AllRepresentable, Numbers, SizeValue, WValue, Ints;
    var node := FixedArr(form, Packed(form.h, ns));
    PackedReads(form.h, ns);
    WidthIsPower(form.h);
    assert WellFormed(node);
    assert Accepts(Build, node);
    assert Encode(node) == [OuterHeader(form)] + (EncodePreamble(form) + Packed(form.h, ns));
    WalkTheorems.WalkIffEncoding(Build, d, p, depth, node, e);
  }

  // ---------------------------------------------------------------------
  // Complex integers
  // ---------------------------------------------------------------------

  function PackedPairs(h: u8, zs: seq<(int, int)>): Bytes
    requires IsInteger(h)
  {
    if zs == [] then []
    else IntegerBytes(h, zs[0].0) + IntegerBytes(h, zs[0].1) + PackedPairs(h, zs[1..])
  }

  function PairTree(z: (int, int)): Value {
    Array([Value.Num(Int(z.0)), Value.Num(Int(z.1))])
  }

  function PairTrees(zs: seq<(int, int)>): (r: seq<Value>)
    ensures |r| == |zs|
  {
    seq(|zs|, i requires 0 <= i < |zs| => PairTree(zs[i]))
  }

  lemma PairReads(h: u8, z: (int, int))
    requires IsInteger(h) && Holds(h, z.0) && Holds(h, z.1)
    ensures Array(Numbers(h, FixedWidth(h).value, IntegerBytes(h, z.0) + IntegerBytes(h, z.1))) == PairTree(z)
  {
    hide IntegerBytes, NumberOf, Holds;
    PackedReads(h, [z.0, z.1]);
    assert Packed(h, [z.0, z.1]) == IntegerBytes(h, z.0) + IntegerBytes(h, z.1) by {
      assert Packed(h, [z.0, z.1][1..]) == IntegerBytes(h, z.1) + Packed(h, []);
    }
    assert Ints([z.0, z.1]) == [Value.Num(Int(z.0)), Value.Num(Int(z.1))];
  }

  /** A run of complex integers reads as its pairs, the real part first. */
  lemma {:induction false} PairsRead(h: u8, zs: seq<(int, int)>)
    requires IsInteger(h) && forall i | 0 <= i < |zs| :: Holds(h, zs[i].0) && Holds(h, zs[i].1)
    ensures Pairs(h, FixedWidth(h).value, PackedPairs(h, zs)) == PairTrees(zs)
  {
    hide IntegerBytes, Numbers, Holds, PairTree;
    var w := FixedWidth(h).value;
    if zs != [] {
      var payload, first := PackedPairs(h, zs), IntegerBytes(h, zs[0].0) + IntegerBytes(h, zs[0].1);
      PairReads(h, zs[0]);
      PairsRead(h, zs[1..]);
      assert payload[..2 * w] == first && payload[2 * w..] == PackedPairs(h, zs[1..]);
      assert PairTrees(zs) == [PairTree(zs[0])] + PairTrees(zs[1..]);
    }
  }

  /** One complex integer reads as a pair and a run of them as an array of pairs. */
  lemma ComplexTree(pre: ComplexPreamble, zs: seq<(int, int)>)
    requires IsInteger(pre.class_) && (pre.One? ==> |zs| == 1)
    requires forall i | 0 <= i < |zs| :: Holds(pre.class_, zs[i].0) && Holds(pre.class_, zs[i].1)
    ensures TreeOf(Cpx(pre, PackedPairs(pre.class_, zs))) == if pre.One? then PairTree(zs[0]) else Array(PairTrees(zs))
  {
    hide IntegerBytes, Numbers, Pairs, Holds;
    if pre.One? {
      PairReads(pre.class_, zs[0]);
      var first := IntegerBytes(pre.class_, zs[0].0) + IntegerBytes(pre.class_, zs[0].1);
      assert PackedPairs(pre.class_, zs) == first + PackedPairs(pre.class_, zs[1..]) == first;
    } else {
      PairsRead(pre.class_, zs);
    }
  }

  // ---------------------------------------------------------------------
  // Floats
  // ---------------------------------------------------------------------

  /** A float of any width that a double exists for is read as the same number, if it is finite,
      and is else out of a tree's range. */
  lemma FloatReads(h: u8, payload: Bytes)
    requires Sub(h) == CAT_FLOAT && CountOf(h) <= 3
    ensures Countable(FormatOf(CountOf(h))) && Countable(DOUBLE)
    ensures var meaning := Means(FormatOf(CountOf(h)), LittleEndian(payload));
            && (Representable(h, payload) <==> meaning.Finite?)
            && NumberOf(h, payload).Float? && Means(DOUBLE, NumberOf(h, payload).bits) == meaning
  {
    hide Representable, Means, AsDouble;
    FiniteAsDouble(h, payload);
    DoubleIsExact(CountOf(h), LittleEndian(payload));
  }

  lemma Pow256OfWidths()
    ensures Pow256(2) == 0x1_0000 && Pow256(4) == 0x1_0000_0000 && Pow256(8) == 0x1_0000_0000_0000_0000
  {
    assert Pow256(1) == 0x100 && Pow256(2) == 0x1_0000 && Pow256(3) == 0x100_0000 && Pow256(4) == 0x1_0000_0000;
    assert Pow256(5) == 0x100_0000_0000 && Pow256(6) == 0x1_0000_0000_0000 && Pow256(7) == 0x100_0000_0000_0000;
  }
}

/** BEVE header bytes and compressed sizes: src/beve/header.rs. */
module Headers {
  import opened Bits
  import opened Wrappers

  type Bytes = seq<u8>

  datatype ErrorCode =
    | UnexpectedEnd
    | InvalidHeader
    | InvalidUtf8
    | InvalidPadding
    | ExceededMaxDepth
    | UnsupportedFeature
    | InvalidMatrixLayout
    | NumberOutOfRange
    | ExpectedObject
    | ExpectedArray
    | UnsupportedKeyType
    | UnknownKey
    | MissingKey
    | ExpectedTag
    | UnknownVariant
    | InvalidPointer
    | NoSuchValue
    | TrailingContent

  // ---------------------------------------------------------------------
  // Header fields: three bits of count, two of sub-type, three of type
  // ---------------------------------------------------------------------

  const TY_NULL_BOOL: u8 := 0
  const TY_NUMBER: u8 := 1
  const TY_STRING: u8 := 2
  const TY_OBJECT: u8 := 3
  const TY_TYPED_ARRAY: u8 := 4
  const TY_GENERIC_ARRAY: u8 := 5
  const TY_EXTENSION: u8 := 6
  const TY_UNDEFINED: u8 := 7

  const CAT_FLOAT: u8 := 0
  const CAT_SIGNED: u8 := 1
  const CAT_UNSIGNED: u8 := 2
  const CAT_OTHER: u8 := 3

  const OTHER_BOOL: u8 := 0
  const OTHER_STRING: u8 := 1
  const OTHER_ALIGNED: u8 := 2

  const EXT_DELIMITER: u8 := 0
  const EXT_TYPE_TAG: u8 := 1
  const EXT_MATRIX: u8 := 2
  const EXT_COMPLEX: u8 := 3

  const COMPLEX_ONE: u8 := 0
  const COMPLEX_MANY: u8 := 1
  const COMPLEX_ALIGNED: u8 := 2

  const LAYOUT_RIGHT: u8 := 0
  const LAYOUT_LEFT: u8 := 1

  function Header(ty: u8, sub: u8, count: u8): u8
    requires ty < 8 && sub < 4 && count < 8
  {
    count * 32 + sub * 8 + ty
  }

  function Ty(h: u8): u8 { h % 8 }

  function Sub(h: u8): u8 { h / 8 % 4 }

  function CountOf(h: u8): u8 { h / 32 }

  function ExtId(h: u8): u8 { h / 8 }

  const NULL: u8 := 0
  const FALSE: u8 := 8
  const TRUE: u8 := 24
  const STRING: u8 := TY_STRING
  const GENERIC_ARRAY: u8 := TY_GENERIC_ARRAY
  const DELIMITER: u8 := TY_EXTENSION
  const TYPE_TAG: u8 := TY_EXTENSION + 8 * EXT_TYPE_TAG
  const MATRIX: u8 := TY_EXTENSION + 8 * EXT_MATRIX
  const COMPLEX: u8 := TY_EXTENSION + 8 * EXT_COMPLEX
  const BOOL_ARRAY: u8 := Header(TY_TYPED_ARRAY, CAT_OTHER, OTHER_BOOL)
  const STRING_ARRAY: u8 := Header(TY_TYPED_ARRAY, CAT_OTHER, OTHER_STRING)
  const ALIGNED_ARRAY: u8 := Header(TY_TYPED_ARRAY, CAT_OTHER, OTHER_ALIGNED)

  /** `h` with its type bits replaced. */
  function Retyped(h: u8, ty: u8): u8
    requires ty < 8
  {
    h - Ty(h) + ty
  }

  function ComplexComponents(class_: u8): u8 { Retyped(class_, TY_TYPED_ARRAY) }

  function ComplexElement(class_: u8): u8 { Retyped(class_, TY_UNDEFINED) }

  function ElementOf(array_: u8): u8 { Retyped(array_, TY_NUMBER) }

  /** Bytes one element of category `cat` at width code `count` occupies. */
  function ByteWidth(cat: u8, count: u8): (r: Option<nat>)
    ensures r.Some? ==> 1 <= r.value <= 16
  {
    if cat == CAT_FLOAT then
      match count case 0 => Some(2) case 1 => Some(2) case 2 => Some(4) case 3 => Some(8) case 4 => Some(16) case _ => None
    else if cat == CAT_SIGNED || cat == CAT_UNSIGNED then
      match count case 0 => Some(1) case 1 => Some(2) case 2 => Some(4) case 3 => Some(8) case 4 => Some(16) case _ => None
    else None
  }

  /** The width of the element a header or class header describes. */
  function FixedWidth(h: u8): Option<nat> {
    ByteWidth(Sub(h), CountOf(h))
  }

  /** A well-formed number of no Rust type. */
  predicate IsFloat128(h: u8) {
    Sub(h) == CAT_FLOAT && CountOf(h) == 4
  }

  /** Bytes one element carrying the header `elem` occupies in a block. */
  function ElementWidth(elem: u8): Option<nat> {
    match FixedWidth(elem)
    case None => None
    case Some(w) =>
      if Ty(elem) == TY_NUMBER then Some(w)
      else if Ty(elem) == TY_UNDEFINED then Some(2 * w)
      else None
  }

  // ---------------------------------------------------------------------
  // Compressed sizes
  // ---------------------------------------------------------------------

  /** Largest size the codec can express. */
  const MAX_SIZE: nat := 0x3fff_ffff_ffff_ffff

  function SizeLen(n: nat): (r: nat)
    ensures r in {1, 2, 4, 8}
  {
    if n < 0x40 then 1 else if n < 0x4000 then 2 else if n < 0x4000_0000 then 4 else 8
  }

  function WidthCode(width: nat): u8 {
    if width == 1 then 0 else if width == 2 then 1 else if width == 4 then 2 else 3
  }

  /** Bytes of a compressed size that follow its first one. */
  function SizeExtra(b0: u8): (r: nat)
    ensures r in {0, 1, 3, 7}
  {
    match b0 % 4
    case 0 => 0
    case 1 => 1
    case 2 => 3
    case _ => 7
  }

  function LittleEndian(b: Bytes): (v: nat) {
    if b == [] then 0 else b[0] + 256 * LittleEndian(b[1..])
  }

  /** The low `width` bytes of `n`, little end first. */
  function LowBytes(n: nat, width: nat): (b: Bytes)
    ensures |b| == width
  {
    if width == 0 then [] else [n % 256] + LowBytes(n / 256, width - 1)
  }

  function Pow256(k: nat): (p: nat)
    ensures p >= 1
  {
    if k == 0 then 1 else 256 * Pow256(k - 1)
  }

  /** The bytes of a whole size field. */
  predicate IsSizeField(z: Bytes) {
    z != [] && |z| == 1 + SizeExtra(z[0])
  }

  /** What a size field states: the first byte's six bits, and above them the bytes after it. */
  function SizeValue(z: Bytes): nat
    requires z != []
  {
    z[0] / 4 + 64 * LittleEndian(z[1..])
  }

  /** The shortest size field stating `n`. */
  function SizeBytes(n: nat): (z: Bytes)
    requires n <= MAX_SIZE
  {
    [n % 64 * 4 + WidthCode(SizeLen(n))] + LowBytes(n / 64, SizeLen(n) - 1)
  }

  lemma {:induction false} LowBytesRoundTrip(n: nat, width: nat)
    requires n < Pow256(width)
    ensures LittleEndian(LowBytes(n, width)) == n
  {
    if width > 0 { LowBytesRoundTrip(n / 256, width - 1); }
  }

  lemma {:induction false} LittleEndianBound(b: Bytes)
    ensures LittleEndian(b) < Pow256(|b|)
  {
    if b != [] { LittleEndianBound(b[1..]); }
  }

  lemma Pow256Values()
    ensures Pow256(0) == 1 && Pow256(1) == 0x100 && Pow256(3) == 0x100_0000 && Pow256(7) == 0x100_0000_0000_0000
  {
    assert Pow256(1) == 0x100 && Pow256(2) == 0x1_0000 && Pow256(3) == 0x100_0000;
    assert Pow256(4) == 0x1_0000_0000 && Pow256(5) == 0x100_0000_0000 && Pow256(6) == 0x1_0000_0000_0000;
  }

  lemma SizeBytesStates(n: nat)
    requires n <= MAX_SIZE
    ensures IsSizeField(SizeBytes(n)) && SizeValue(SizeBytes(n)) == n
  {
    Pow256Values();
    var z := SizeBytes(n);
    assert z[1..] == LowBytes(n / 64, SizeLen(n) - 1);
    LowBytesRoundTrip(n / 64, SizeLen(n) - 1);
  }

  /** No size field stating `n` is shorter than the one `encode_size` writes. */
  lemma SizeBytesShortest(z: Bytes, n: nat)
    requires IsSizeField(z) && SizeValue(z) == n
    ensures n <= MAX_SIZE && |SizeBytes(n)| <= |z|
  {
    Pow256Values();
    LittleEndianBound(z[1..]);
  }

  /** Encode `n` into `out`, returning the number of bytes used. */
  method EncodeSize(n: u64, out: array<u8>) returns (width: nat)
    requires n <= MAX_SIZE && out.Length == 8
    modifies out
    ensures width == |SizeBytes(n)| <= 8
    ensures out[..width] == SizeBytes(n) && out[width..] == old(out[width..])
  {
    hide LowBytes, Pow256, SizeBytes, WidthCode, SizeLen, Or, And, Pow2, Shl;
    LowBits(n);
    var low := Shl(And(n % 256, 0x3f), 2);
    var rest := Shr(n, 6);
    width := SizeLen(n);
    ghost var field := SizeBytes(n);
    SizeBytesParts(n);
    FirstByte(n % 64, WidthCode(width));
    out[0] := Or(low, WidthCode(width));
    var i := 1;
    while i < width
      invariant 1 <= i <= width
      invariant forall k | 0 <= k < i :: out[k] == field[k]
      invariant forall k | width <= k < 8 :: out[k] == old(out[k])
    {
      LowByteAt(rest, width - 1, i - 1);
      Pow256IsPow2(i - 1);
      out[i] := Shr(rest, 8 * (i - 1)) % 256;
      i := i + 1;
    }
  }

  /** The low six bits of a size and the rest of it. */
  lemma LowBits(n: nat)
    ensures And(n % 256, 0x3f) == n % 64 && Shr(n, 6) == n / 64
  {
    hide And;
    assert Pow2(6) == 64;
    hide Pow2;
    LowSix(n % 256);
    assert n % 256 % 64 == n % 64;
  }

  lemma LowSix(x: nat)
    ensures And(x, 0x3f) == x % 64
  {
    hide And;
    assert Pow2(6) == 64;
    MaskIsModulo(x, 6);
  }

  /** A size's low bits and its width code share a byte. */
  lemma FirstByte(low: nat, code: nat)
    requires low < 64
    ensures Shl(low, 2) == low * 4
    ensures code < 4 ==> Or(Shl(low, 2), code) == low * 4 + code < 256
  {
    assert Pow2(2) == 4;
    if code < 4 { OrShifted(code, low, 2); }
  }

  lemma {:induction false} Pow256IsPow2(k: nat)
    ensures Pow2(8 * k) == Pow256(k) && Pow2(6 + 8 * k) == 64 * Pow256(k)
  {
    assert Pow2(6) == 64;
    Pow2Values();
    Pow2Add(6, 8 * k);
    if k > 0 {
      Pow256IsPow2(k - 1);
      Pow2Add(8, 8 * (k - 1));
    }
  }

  lemma SizeBytesParts(n: nat)
    requires n <= MAX_SIZE
    ensures |SizeBytes(n)| == SizeLen(n) && SizeBytes(n)[0] == n % 64 * 4 + WidthCode(SizeLen(n))
    ensures SizeBytes(n)[1..] == LowBytes(n / 64, SizeLen(n) - 1)
    ensures SizeLen(n) >= 1 && WidthCode(SizeLen(n)) < 4
  {
  }

  lemma {:induction false} LowByteAt(n: nat, width: nat, k: nat)
    requires k < width
    ensures LowBytes(n, width)[k] == n / Pow256(k) % 256
  {
    if k > 0 {
      LowByteAt(n / 256, width - 1, k - 1);
      DivideTwice(n, 256, Pow256(k - 1));
    }
  }

  lemma {:induction false} LittleEndianAppend(b: Bytes, x: u8)
    ensures LittleEndian(b + [x]) == LittleEndian(b) + Pow256(|b|) * x
  {
    if b != [] {
      assert (b + [x])[1..] == b[1..] + [x];
      LittleEndianAppend(b[1..], x);
      assert 256 * (Pow256(|b| - 1) * x) == Pow256(|b|) * x;
    }
  }

  /** The size field at `pos`, if the data holds all of it. */
  predicate HoldsSize(data: Bytes, pos: nat) {
    pos < |data| && pos + 1 + SizeExtra(data[pos]) <= |data|
  }

  function SizeFieldAt(data: Bytes, pos: nat): (z: Bytes)
    requires HoldsSize(data, pos)
    ensures IsSizeField(z)
  {
    data[pos..pos + 1 + SizeExtra(data[pos])]
  }

  /** Decode a compressed size from `data` at `pos`, and where it ends. */
  method DecodeSize(data: Bytes, pos: nat) returns (r: Result<u64, ErrorCode>, end: nat)
    ensures r.Ok? <==> HoldsSize(data, pos)
    ensures r.Ok? ==> r.value == SizeValue(SizeFieldAt(data, pos)) && end == pos + |SizeFieldAt(data, pos)|
    ensures r.Err? ==> r == Err(UnexpectedEnd) && end == pos
  {
    if pos >= |data| { return Err(UnexpectedEnd), pos; }
    var b0 := data[pos];
    var extra := SizeExtra(b0);
    end := pos + 1 + extra;
    if end > |data| { return Err(UnexpectedEnd), pos; }
    hide Or, Shl, Shr, Pow2, Pow256, SizeExtra;
    SixBits(b0);
    var v := Shr(b0, 2);
    var k := 0;
    while k < extra
      invariant 0 <= k <= extra
      invariant v == b0 / 4 + 64 * LittleEndian(data[pos + 1..pos + 1 + k])
    {
      NextByteAbove(b0, data[pos + 1..pos + 1 + k], data[pos + 1 + k]);
      v := Or(v, Shl(data[pos + 1 + k], 6 + 8 * k));
      assert data[pos + 1..pos + 1 + k] + [data[pos + 1 + k]] == data[pos + 1..pos + 1 + (k + 1)];
      k := k + 1;
    }
    assert SizeFieldAt(data, pos)[1..] == data[pos + 1..end];
    SizeValueBound(SizeFieldAt(data, pos));
    r := Ok(v);
  }

  lemma SixBits(b0: u8)
    ensures Shr(b0, 2) == b0 / 4
  {
    assert Pow2(2) == 4;
  }

  /** A byte shifted to its place stands above every bit gathered before it, so that or-ing it
      in adds it. */
  lemma NextByteAbove(b0: u8, b: Bytes, x: u8)
    ensures var v := b0 / 4 + 64 * LittleEndian(b);
            Or(v, Shl(x, 6 + 8 * |b|)) == b0 / 4 + 64 * LittleEndian(b + [x])
  {
    hide Or, LittleEndian, Pow256, Pow2;
    var v := b0 / 4 + 64 * LittleEndian(b);
    LittleEndianBound(b);
    LittleEndianAppend(b, x);
    Pow256IsPow2(|b|);
    OrShifted(v, x, 6 + 8 * |b|);
    Scaled(x, Pow256(|b|));
  }

  lemma Scaled(x: nat, p: nat)
    ensures x * (64 * p) == 64 * (p * x)
  {
  }

  lemma SizeValueBound(z: Bytes)
    requires IsSizeField(z)
    ensures SizeValue(z) <= MAX_SIZE
  {
    Pow256Values();
    LittleEndianBound(z[1..]);
  }

  /** Whatever follows it, an encoded size decodes to what was encoded and nothing more is
      taken. */
  lemma SizeRoundTrip(n: nat, before: Bytes, tail: Bytes)
    requires n <= MAX_SIZE
    ensures var data := before + SizeBytes(n) + tail;
            && HoldsSize(data, |before|)
            && SizeFieldAt(data, |before|) == SizeBytes(n) && SizeValue(SizeFieldAt(data, |before|)) == n
  {
    SizeBytesStates(n);
    var data := before + SizeBytes(n) + tail;
    assert data[|before|] == SizeBytes(n)[0];
  }

  // ---------------------------------------------------------------------
  // Object keys
  // ---------------------------------------------------------------------

  /** The complete encoding of a struct key: its size, then its text. */
  function KeyBytes(key: Bytes): Bytes
    requires |key| <= MAX_SIZE
  {
    SizeBytes(|key|) + key
  }

  method EncodeKey(key: Bytes) returns (out: array<u8>)
    requires |key| <= MAX_SIZE
    ensures fresh(out) && out[..] == KeyBytes(key)
  {
    hide SizeBytes, LowBytes, SizeLen;
    SizeBytesParts(|key|);
    var n := SizeLen(|key|) + |key|;
    out := new u8[n](_ => 0);
    var head := new u8[8](_ => 0);
    var used := EncodeSize(|key|, head);
    for i := 0 to used
      invariant out[..i] == head[..i]
      invariant head[..used] == SizeBytes(|key|)
    {
      out[i] := head[i];
    }
    for j := 0 to |key|
      invariant out[..used] == SizeBytes(|key|)
      invariant out[used..used + j] == key[..j]
    {
      out[used + j] := key[j];
    }
    assert out[..] == out[..used] + out[used..used + |key|];
  }

  /** Reading a size and then that many bytes recovers a key exactly, and ends where the
      key does. */
  lemma KeyRoundTrip(key: Bytes, tail: Bytes)
    requires |key| <= MAX_SIZE
    ensures var data := KeyBytes(key) + tail;
            && HoldsSize(data, 0)
            && var z := SizeFieldAt(data, 0);
               SizeValue(z) == |key| && data[|z|..|z| + SizeValue(z)] == key && |z| + |key| == |KeyBytes(key)|
  {
    SizeRoundTrip(|key|, [], key + tail);
    SizeBytesStates(|key|);
    assert KeyBytes(key) + tail == [] + SizeBytes(|key|) + (key + tail);
  }
}

/** The hashes a key map is built and read with: the mixing half of src/keymap.rs. */
module KeyHashes {
  import opened Bits
  import opened Wrappers
  import opened Headers

  const GOLDEN: u64 := 0x9E37_79B9_7F4A_7C15
  const DIGEST_BASIS: u64 := GOLDEN

  /** What of a key a hashed scheme feeds to its final mix. */
  datatype Mode = Front2 | Front4 | Front8 | Sized | PerLength | Full

  // ---------------------------------------------------------------------
  // Hash primitives
  // ---------------------------------------------------------------------

  function RotateRight49(h: u64): u64 {
    h / 0x2_0000_0000_0000 + h % 0x2_0000_0000_0000 * 0x8000
  }

  function Bitmix(h: u64, seed: u64): u64 {
    var h := WrappingMul(h, seed);
    Xor64(h, RotateRight49(h))
  }

  function RichBitmix(h: u64, seed: u64): u64 {
    var h := Xor64(h, h / 0x80_0000);
    var h := WrappingMul(h, 0x2127_599b_f432_5c37);
    var h := Xor64(h, seed);
    var h := WrappingMul(h, 0x8803_55f2_1e6d_1965);
    Xor64(h, h / 0x8000_0000_0000)
  }

  function SeedAt(i: nat): u64 {
    var z := WrappingMul((i + 1) % TWO_TO_THE_64, GOLDEN);
    var z := WrappingMul(Xor64(z, z / 0x4000_0000), 0xBF58_476D_1CE4_E5B9);
    var z := WrappingMul(Xor64(z, z / 0x800_0000), 0x94D0_49BB_1331_11EB);
    Xor64(z, z / 0x8000_0000)
  }

  /** The first `n` bytes as a little-endian word. */
  function Front(data: Bytes, n: nat): (v: u64)
    requires n <= 8 && n <= |data|
  {
    FrontBound(data, n);
    LittleEndian(data[..n])
  }

  lemma FrontBound(data: Bytes, n: nat)
    requires n <= 8 && n <= |data|
    ensures LittleEndian(data[..n]) < Pow256(n) <= TWO_TO_THE_64
    ensures n < 8 ==> Pow256(n) <= 0x100_0000_0000_0000
  {
    LittleEndianBound(data[..n]);
    Pow256Values();
    assert Pow256(2) == 0x1_0000 && Pow256(4) == 0x1_0000_0000 && Pow256(5) == 0x100_0000_0000;
    assert Pow256(6) == 0x1_0000_0000_0000 && Pow256(8) == 256 * Pow256(7);
    assert n in {0, 1, 2, 3, 4, 5, 6, 7, 8};
  }

  /** A byte with a key's length above it. */
  function WithLength(b: u8, len: nat): u64 {
    Or64(b, len * 256 % TWO_TO_THE_64)
  }

  function Chunks(data: Bytes, i: nat, h: u64): u64
    requires i <= |data|
    decreases |data| - i
  {
    if i + 8 <= |data| then Chunks(data, i + 8, Bitmix(Front(data[i..], 8), h)) else h
  }

  /** The fold of a whole key, before any seed. */
  function Digest(key: Bytes): u64 {
    if |key| < 8 then Or64(Front(key, |key|), |key| * 0x100_0000_0000_0000)
    else RichBitmix(Front(key[|key| - 8..], 8), Chunks(key, 0, Xor64(DIGEST_BASIS, 2 * |key| % TWO_TO_THE_64)))
  }

  predicate Reaches(key: Bytes, mode: Mode, column: nat, perLen: seq<u8>) {
    match mode
    case Front2 => |key| >= 2
    case Front4 => |key| >= 4
    case Front8 => |key| >= 8
    case Sized => column < |key|
    case PerLength => |key| < |perLen| && perLen[|key|] < |key|
    case Full => true
  }

  function Preimage(key: Bytes, mode: Mode, column: nat, perLen: seq<u8>): u64
    requires Reaches(key, mode, column, perLen)
  {
    match mode
    case Front2 => Front(key, 2)
    case Front4 => Front(key, 4)
    case Front8 => Front(key, 8)
    case Sized => WithLength(key[column], |key|)
    case PerLength => WithLength(key[perLen[|key|]], |key|)
    case Full => Digest(key)
  }

  function Mix(pre: u64, seed: u64, mode: Mode): u64 {
    if mode == Front8 then RichBitmix(pre, seed) else Bitmix(pre, seed)
  }

  function Slot(pre: u64, seed: u64, mode: Mode, mask: nat): (s: nat)
    ensures s <= mask
  {
    And(Mix(pre, seed, mode), mask)
  }

  // ---------------------------------------------------------------------
  // The loops of the digest
  // ---------------------------------------------------------------------

  lemma {:induction false} PowersAgree(k: nat)
    ensures Pow2(8 * k) == Pow256(k)
  {
    if k > 0 {
      PowersAgree(k - 1);
      Pow2Values();
      Pow2Add(8, 8 * (k - 1));
    }
  }

  lemma FrontGrows(data: Bytes, i: nat)
    requires i < 8 && i < |data|
    ensures 0 <= Pow256(i) * data[i] < TWO_TO_THE_64
    ensures Front(data, i + 1) == Or64(Front(data, i), Pow256(i) * data[i])
  {
    hide Or, LittleEndian, Pow256, Pow2;
    FrontBound(data, i);
    FrontBound(data, i + 1);
    PowersAgree(i);
    var init := data[..i];
    assert data[..i + 1] == init + [data[i]];
    LittleEndianAppend(init, data[i]);
    OrAbove(LittleEndian(init), data[i], 8 * i);
  }

  method ToU64Below8(data: Bytes, n: nat) returns (v: u64)
    requires n <= 8 && n <= |data|
    ensures v == Front(data, n)
  {
    v := 0;
    var i := 0;
    while i < n
      invariant 0 <= i <= n && v == Front(data, i)
    {
      hide Or64, Front;
      FrontGrows(data, i);
      v := Or64(v, Pow256(i) * data[i]);
      i := i + 1;
    }
  }

  method KeyDigest(data: Bytes, n: nat) returns (h: u64)
    requires n <= |data|
    ensures h == Digest(data[..n])
  {
    hide Bitmix, RichBitmix, Front, Or64, Xor64;
    ghost var key := data[..n];
    if n < 8 {
      var v := ToU64Below8(data, n);
      FrontOfFront(data, n, n);
      return Or64(v, n * 0x100_0000_0000_0000);
    }
    h := Xor64(DIGEST_BASIS, 2 * n % TWO_TO_THE_64);
    ghost var all := Chunks(key, 0, h);
    var i := 0;
    while i + 8 <= n
      invariant 0 <= i <= n && all == Chunks(key, i, h)
    {
      var chunk := ToU64Below8(data[i..], 8);
      ChunkOfKey(data, n, i);
      h := Bitmix(chunk, h);
      i := i + 8;
    }
    var tail := ToU64Below8(data[n - 8..], 8);
    ChunkOfKey(data, n, n - 8);
    return RichBitmix(tail, h);
  }

  lemma FrontOfFront(data: Bytes, n: nat, k: nat)
    requires k <= 8 && k <= n <= |data|
    ensures Front(data[..n], k) == Front(data, k)
  {
    assert data[..n][..k] == data[..k];
  }

  lemma ChunkOfKey(data: Bytes, n: nat, i: nat)
    requires i + 8 <= n <= |data|
    ensures Front(data[..n][i..], 8) == Front(data[i..], 8)
  {
    assert data[..n][i..][..8] == data[i..][..8];
  }

  /** No two keys shorter than eight bytes fold alike, whatever bytes they end in. */
  lemma ShortDigestInjective(a: Bytes, b: Bytes)
    requires |a| < 8 && |b| < 8 && Digest(a) == Digest(b)
    ensures a == b
  {
    hide Or, LittleEndian;
    ShortDigest(a);
    ShortDigest(b);
    assert |a| == |b|;
    LittleEndianInjective(a, b);
  }

  lemma ShortDigest(a: Bytes)
    requires |a| < 8
    ensures Digest(a) == LittleEndian(a) + |a| * 0x100_0000_0000_0000
    ensures LittleEndian(a) < 0x100_0000_0000_0000
  {
    hide Or, LittleEndian, RichBitmix, Chunks, Pow2, Pow256;
    assert a[..|a|] == a;
    FrontBound(a, |a|);
    PowersAgree(7);
    Pow256Values();
    OrAbove(LittleEndian(a), |a|, 56);
  }

  lemma {:induction false} LittleEndianInjective(a: Bytes, b: Bytes)
    requires |a| == |b| && LittleEndian(a) == LittleEndian(b)
    ensures a == b
  {
    if a != [] {
      assert a[0] == LittleEndian(a) % 256 && b[0] == LittleEndian(b) % 256;
      LittleEndianInjective(a[1..], b[1..]);
      assert a == [a[0]] + a[1..] && b == [b[0]] + b[1..];
    }
  }
}

/** Packed booleans, one per bit and low bit first: the packing half of src/beve/impls.rs
    and the unpacking and padding check of src/beve/reader.rs. */
module PackedBools {
  import opened Bits
  import opened Headers
  import opened Wire

  predicate BitAt(byte: u8, k: nat)
  {
    byte / Pow2(k) % 2 == 1
  }

  /** Element `i` of a packed payload. */
  predicate Element(payload: Bytes, i: nat)
    requires i / 8 < |payload|
  {
    BitAt(payload[i / 8], i % 8)
  }

  function Unpack(n: nat, payload: Bytes): (r: seq<bool>)
    requires |payload| == DivCeil8(n)
    ensures |r| == n
  {
    seq(n, i requires 0 <= i < n => Element(payload, i))
  }

  /** The byte whose low bits are `items`, the first the lowest. */
  function PackByte(items: seq<bool>): (b: u8)
    requires |items| <= 8
    ensures b < Pow2(|items|)
  {
    Pow2Monotone(|items|, 8);
    Pow2Values();
    if items == [] then 0
    else
      var k := |items| - 1;
      PackByte(items[..k]) + if items[k] then Pow2(k) else 0
  }

  /** The payload `items` packs to. */
  function Pack(items: seq<bool>): (r: Bytes)
    ensures |r| == DivCeil8(|items|)
  {
    if items == [] then []
    else if |items| <= 8 then [PackByte(items)]
    else [PackByte(items[..8])] + Pack(items[8..])
  }

  lemma BitBelowSum(b: nat, k: nat, j: nat)
    requires j < k
    ensures (b + Pow2(k)) / Pow2(j) % 2 == b / Pow2(j) % 2
  {
    Pow2Add(k - j, j);
    ParityOfSum(b, Pow2(j), Pow2(k - j - 1), Pow2(k));
  }

  lemma BitOfSum(b: nat, k: nat)
    requires b < Pow2(k)
    ensures b / Pow2(k) == 0 && (b + Pow2(k)) / Pow2(k) == 1
  {
    ModuloUnique(b, Pow2(k), 0, b);
    AddMultiple(b, Pow2(k), 1);
  }

  lemma BitAboveSum(b: nat, j: nat)
    requires b < Pow2(j)
    ensures b / Pow2(j) == 0
  {
    ModuloUnique(b, Pow2(j), 0, b);
  }

  lemma ParityOfSum(b: nat, p: nat, w: nat, s: nat)
    requires p > 0 && s == (2 * w) * p
    ensures (b + s) / p % 2 == b / p % 2
  {
    AddMultiple(b, p, 2 * w);
  }

  lemma AddMultiple(b: nat, p: nat, w: nat)
    requires p > 0
    ensures (b + w * p) / p == b / p + w
  {
    var q, r := b / p, b % p;
    assert b == p * q + r;
    assert (q + w) * p == p * q + w * p;
    ModuloUnique(b + w * p, p, q + w, r);
  }

  lemma {:induction false} PackByteBits(items: seq<bool>, j: nat)
    requires |items| <= 8 && j < 8
    ensures BitAt(PackByte(items), j) == (j < |items| && items[j])
  {
    if items != [] {
      var k := |items| - 1;
      PackByteBits(items[..k], j);
      var low := PackByte(items[..k]);
      if j < k {
        BitBelowSum(low, k, j);
      } else if j == k {
        BitOfSum(low, k);
      } else {
        Pow2Monotone(k + 1, j);
        BitAboveSum(low, j);
        BitAboveSum(PackByte(items), j);
      }
    }
  }

  /** A byte is determined by its bits. */
  lemma {:induction false} BitsDetermine(a: nat, b: nat, n: nat)
    requires a < Pow2(n) && b < Pow2(n)
    requires forall j: nat | j < n :: (a / Pow2(j) % 2 == 1) == (b / Pow2(j) % 2 == 1)
    ensures a == b
  {
    if n > 0 {
      assert (a / Pow2(0) % 2 == 1) == (b / Pow2(0) % 2 == 1);
      forall j: nat | j < n - 1 ensures (a / 2 / Pow2(j) % 2 == 1) == (b / 2 / Pow2(j) % 2 == 1) {
        DivideTwice(a, 2, Pow2(j));
        DivideTwice(b, 2, Pow2(j));
        assert Pow2(j) * 2 == Pow2(j + 1);
      }
      BitsDetermine(a / 2, b / 2, n - 1);
    }
  }

  lemma {:induction false} PackBits(items: seq<bool>, i: nat)
    requires i < 8 * |Pack(items)|
    ensures Element(Pack(items), i) == (i < |items| && items[i])
    decreases |items|
  {
    if |items| <= 8 {
      PackByteBits(items, i);
    } else if i < 8 {
      PackByteBits(items[..8], i);
    } else {
      PackBits(items[8..], i - 8);
      assert Pack(items)[i / 8] == Pack(items[8..])[(i - 8) / 8];
    }
  }

  /** Unpacking what was packed returns the same list, with its padding in order. */
  lemma PackedUnpacks(items: seq<bool>)
    ensures Unpack(|items|, Pack(items)) == items
    ensures items != [] ==> BoolPaddingOk(|items|, Pack(items)[|Pack(items)| - 1])
  {
    forall i: nat | i < |items| ensures Unpack(|items|, Pack(items))[i] == items[i] {
      PackBits(items, i);
    }
    if items != [] {
      LastByteFits(items);
    }
  }

  lemma {:induction false} LastByteFits(items: seq<bool>)
    requires items != []
    ensures BoolPaddingOk(|items|, Pack(items)[|Pack(items)| - 1])
    decreases |items|
  {
    if |items| > 8 {
      LastByteFits(items[8..]);
    } else {
      ModuloUnique(PackByte(items), Pow2(|items|), 0, PackByte(items));
    }
  }

  /** A last byte with its padding in order has no bit past the last element. */
  lemma PaddingBits(n: nat, last: u8, j: nat)
    requires BoolPaddingOk(n, last) && n % 8 != 0 && n % 8 <= j < 8
    ensures !BitAt(last, j)
  {
    Pow2Monotone(n % 8, j);
    var p := Pow2(n % 8);
    assert last == p * (last / p) + last % p;
    ModuloUnique(last, Pow2(j), 0, last);
  }

  lemma SameBit(n: nat, payload: Bytes, k: nat, j: nat)
    requires |payload| == DivCeil8(n) && k < |payload| && j < 8
    requires payload != [] ==> BoolPaddingOk(n, payload[|payload| - 1])
    ensures BitAt(Pack(Unpack(n, payload))[k], j) == BitAt(payload[k], j)
  {
    var i := 8 * k + j;
    PackBits(Unpack(n, payload), i);
    assert i / 8 == k && i % 8 == j;
    if i >= n { PaddingBits(n, payload[k], j); }
  }

  /** A payload whose padding is in order is exactly what its elements pack to, so no list
      of booleans has two encodings. */
  lemma UnpackedPacks(n: nat, payload: Bytes)
    requires |payload| == DivCeil8(n)
    requires payload != [] ==> BoolPaddingOk(n, payload[|payload| - 1])
    ensures Pack(Unpack(n, payload)) == payload
  {
    var items := Unpack(n, payload);
    var packed := Pack(items);
    forall k | 0 <= k < |payload| ensures packed[k] == payload[k] {
      forall j: nat | j < 8 ensures (packed[k] / Pow2(j) % 2 == 1) == (payload[k] / Pow2(j) % 2 == 1) {
        SameBit(n, payload, k, j);
      }
      Pow2Values();
      BitsDetermine(packed[k], payload[k], 8);
    }
  }

  /** `bool::write_payload`: pack a list a byte at a time, appending to what is written. */
  method WritePayload(items: seq<bool>, written: Bytes) returns (out: Bytes)
    ensures out == written + Pack(items)
  {
    hide Written, Pow2, Or, Shl;
    out := written;
    var byte: u8 := 0;
    ghost var f: nat := 0;
    NothingWritten(items, written);
    for i := 0 to |items|
      invariant f % 8 == 0 && f <= i < f + 8 && Written(items, written, out, byte, f, i)
    {
      BitWritten(items, written, out, byte, f, i);
      byte := Or(byte, Shl(if items[i] then 1 else 0, i % 8));
      if i % 8 == 7 {
        ByteWritten(items, written, out, byte, f, i + 1);
        out := out + [byte];
        byte := 0;
        f := f + 8;
      }
    }
    AllWritten(items, written, out, byte, f);
    if |items| % 8 != 0 {
      out := out + [byte];
    }
  }

  /** Of the first `i` items, the whole bytes are in `out` and the bits left over in `byte`. */
  ghost predicate Written(items: seq<bool>, written: Bytes, out: Bytes, byte: u8, f: nat, i: nat) {
    && f % 8 == 0 && f <= i <= f + 8 && i <= |items|
    && byte == PackByte(items[f..i]) && out == written + Pack(items[..f])
  }

  lemma NothingWritten(items: seq<bool>, written: Bytes)
    ensures Written(items, written, written, 0, 0, 0)
  {
    assert items[..0] == [] && written + [] == written;
  }

  lemma BitWritten(items: seq<bool>, written: Bytes, out: Bytes, byte: u8, f: nat, i: nat)
    requires Written(items, written, out, byte, f, i) && i < |items| && i < f + 8
    ensures var b := Or(byte, Shl(if items[i] then 1 else 0, i % 8)); b < 256 && Written(items, written, out, b, f, i + 1)
  {
    hide Pack, PackByte, Or;
    PackOneMore(items, f, i);
    assert i % 8 == i - f;
    OrShifted(byte, if items[i] then 1 else 0, i % 8);
  }

  lemma PackOneMore(items: seq<bool>, from: nat, i: nat)
    requires from <= i < |items| && i < from + 8
    ensures PackByte(items[from..i + 1]) == PackByte(items[from..i]) + if items[i] then Pow2(i - from) else 0
    ensures PackByte(items[from..i]) + (if items[i] then Pow2(i - from) else 0) < 256
  {
    var bits := items[from..i + 1];
    assert bits[..|bits| - 1] == items[from..i];
  }

  lemma ByteWritten(items: seq<bool>, written: Bytes, out: Bytes, byte: u8, f: nat, i: nat)
    requires Written(items, written, out, byte, f, i) && i == f + 8
    ensures Written(items, written, out + [byte], 0, f + 8, i)
  {
    PackOneByte(items, f, i);
    assert items[i..i] == [];
    hide Pack;
    assert written + (Pack(items[..f]) + [byte]) == out + [byte];
  }

  lemma AllWritten(items: seq<bool>, written: Bytes, out: Bytes, byte: u8, f: nat)
    requires Written(items, written, out, byte, f, |items|) && |items| < f + 8
    ensures (if |items| % 8 != 0 then out + [byte] else out) == written + Pack(items)
  {
    hide Pack, PackByte;
    var n := |items|;
    assert n % 8 == n - f;
    if f < n {
      ByteInPlace(items, f);
      var head := Pack(items[..f]);
      assert out + [byte] == written + (head + [byte]);
    } else {
      assert items[..f] == items;
    }
  }

  lemma ByteInPlace(items: seq<bool>, f: nat)
    requires f % 8 == 0 && f < |items| < f + 8
    ensures Pack(items) == Pack(items[..f]) + [PackByte(items[f..|items|])]
  {
    hide Pack, PackByte;
    PackOneByte(items, f, |items|);
    assert items[..|items|] == items;
  }

  lemma PackOneByte(items: seq<bool>, f: nat, e: nat)
    requires f % 8 == 0 && f < e <= f + 8 && e <= |items|
    ensures Pack(items[..e]) == Pack(items[..f]) + [PackByte(items[f..e])]
  {
    hide Pack, PackByte;
    PackAppend(items[..f], items[f..e]);
    assert items[..e] == items[..f] + items[f..e];
  }

  lemma {:induction false} PackAppend(done: seq<bool>, cur: seq<bool>)
    requires |done| % 8 == 0 && 0 < |cur| <= 8
    ensures Pack(done + cur) == Pack(done) + [PackByte(cur)]
    decreases |done|
  {
    if done == [] {
      assert done + cur == cur;
    } else {
      var rest := done[8..];
      PackAppend(rest, cur);
      assert (done + cur)[..8] == done[..8] && (done + cur)[8..] == rest + cur;
      if |done| == 8 { assert done[..8] == done; }
    }
  }
}

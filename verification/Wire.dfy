/** The primitives every BEVE walk locates a value with, as functions of the document and a
    position in it. Each answers what was found and where the cursor then stands, or an
    error and where the cursor stopped. */
module Wire {
  import opened Bits
  import opened Wrappers
  import opened Headers

  /** Deepest nesting accepted. */
  const MAX_DEPTH: nat := 256

  datatype Out<+T> = Ok(value: T, pos: nat) | Err(code: ErrorCode, pos: nat) {
    predicate IsFailure() { Err? }

    function PropagateFailure<U>(): Out<U>
      requires Err?
    {
      Out.Err(code, pos)
    }

    function Extract(): (T, nat)
      requires Ok?
    {
      (value, pos)
    }
  }

  function Head(d: Bytes, p: nat): (r: Out<u8>)
    ensures r.pos >= p
    ensures r.Ok? ==> p < r.pos <= |d|
  {
    if p < |d| then Out.Ok(d[p], p + 1) else Out.Err(UnexpectedEnd, p)
  }

  function Take(d: Bytes, p: nat, n: nat): (r: Out<Bytes>)
    ensures r.pos >= p
    ensures r.Ok? ==> p <= r.pos <= |d|
  {
    if p + n <= |d| then Out.Ok(d[p..p + n], p + n) else Out.Err(UnexpectedEnd, p)
  }

  /** A size field, as its bytes. Every size fits in a 64-bit `usize`, so a count of things
      is the same read. */
  function SizeField(d: Bytes, p: nat): (r: Out<Bytes>)
    ensures r.pos >= p
    ensures r.Ok? ==> p < r.pos <= |d| && IsSizeField(r.value)
  {
    if HoldsSize(d, p) then Out.Ok(SizeFieldAt(d, p), p + |SizeFieldAt(d, p)|) else Out.Err(UnexpectedEnd, p)
  }

  // ---------------------------------------------------------------------
  // Checks that look at no document
  // ---------------------------------------------------------------------

  /** Bytes one key of the object headed by `h` occupies, or zero for a string key. */
  function KeyWidth(h: u8): Option<nat> {
    if Sub(h) == CAT_FLOAT then (if CountOf(h) == 0 then Some(0) else None)
    else if Sub(h) == CAT_SIGNED || Sub(h) == CAT_UNSIGNED then ByteWidth(Sub(h), CountOf(h))
    else None
  }

  /** A string or generic-array header that is its type and nothing else. */
  predicate BareHeader(h: u8) {
    Sub(h) == 0 && CountOf(h) == 0
  }

  function DivCeil8(n: nat): nat {
    if n % 8 == 0 then n / 8 else n / 8 + 1
  }

  /** The last byte of an `n`-element packed-boolean array sets no bit past its last
      element. */
  predicate BoolPaddingOk(n: nat, last: u8) {
    n % 8 == 0 || last / Pow2(n % 8) == 0
  }

  predicate AlignedPaddingOk(pad: u8, width: nat) {
    pad < width
  }

  /** Bytes of `n` elements of `width` bytes, if that is a number of bytes at all. */
  function CheckedMul(n: nat, width: nat): Option<nat> {
    if n * width < TWO_TO_THE_64 then Some(n * width) else None
  }

  // ---------------------------------------------------------------------
  // UTF-8, as section 4 of RFC 3629 defines it
  // ---------------------------------------------------------------------

  predicate Continuation(b: u8) { 0x80 <= b < 0xC0 }

  predicate ValidUtf8(s: Bytes) {
    if s == [] then true
    else if s[0] < 0x80 then ValidUtf8(s[1..])
    else if 0xC2 <= s[0] < 0xE0 then
      |s| >= 2 && Continuation(s[1]) && ValidUtf8(s[2..])
    else if 0xE0 <= s[0] < 0xF0 then
      && |s| >= 3 && Continuation(s[1]) && Continuation(s[2])
      && (s[0] == 0xE0 ==> s[1] >= 0xA0) && (s[0] == 0xED ==> s[1] < 0xA0)
      && ValidUtf8(s[3..])
    else if 0xF0 <= s[0] < 0xF5 then
      && |s| >= 4 && Continuation(s[1]) && Continuation(s[2]) && Continuation(s[3])
      && (s[0] == 0xF0 ==> s[1] >= 0x90) && (s[0] == 0xF4 ==> s[1] < 0x90)
      && ValidUtf8(s[4..])
    else false
  }

  // ---------------------------------------------------------------------
  // Preambles
  // ---------------------------------------------------------------------

  /** An aligned block's `PADDING_LENGTH | PADDING`. */
  function Padding(d: Bytes, p: nat, width: nat): (r: Out<Bytes>)
    ensures r.pos >= p
    ensures r.Ok? ==> p < r.pos <= |d|
  {
    var (one, p1) :- Take(d, p, 1);
    if !AlignedPaddingOk(one[0], width) then Out.Err(InvalidPadding, p1) else Take(d, p1, one[0])
  }

  /** An aligned typed array past its outer header: the inner header, the size and the
      padding. */
  function AlignedHead(d: Bytes, p: nat): (r: Out<(u8, Bytes, Bytes)>)
    ensures r.pos >= p
    ensures r.Ok? ==> p < r.pos <= |d| && IsSizeField(r.value.1) && FixedWidth(r.value.0).Some?
  {
    var (inner, p1) :- Head(d, p);
    if Ty(inner) != TY_TYPED_ARRAY || Sub(inner) == CAT_OTHER || FixedWidth(inner).None? then
      Out.Err(InvalidHeader, p1)
    else
      var (z, p2) :- SizeField(d, p1);
      var (pad, p3) :- Padding(d, p2, FixedWidth(inner).value);
      Out.Ok((inner, z, pad), p3)
  }

  /** The aligned array an aligned complex array holds, up to its payload. */
  function AlignedPairs(d: Bytes, p: nat, class_: u8, width: nat): (r: Out<(Bytes, Bytes)>)
    ensures r.pos >= p
    ensures r.Ok? ==> p < r.pos <= |d| && IsSizeField(r.value.0) && SizeValue(r.value.0) % 2 == 0
  {
    var (outer, p1) :- Head(d, p);
    if outer != ALIGNED_ARRAY then Out.Err(InvalidHeader, p1)
    else
      var (inner, p2) :- Head(d, p1);
      if inner != ComplexComponents(class_) then Out.Err(InvalidHeader, p2)
      else
        var (z, p3) :- SizeField(d, p2);
        if SizeValue(z) % 2 != 0 then Out.Err(InvalidHeader, p3)
        else
          var (pad, p4) :- Padding(d, p3, width);
          Out.Ok((z, pad), p4)
  }

  /** A typed array's preamble, as the bytes it was read from. */
  datatype TypedPreamble =
    | Bools(z: Bytes)
    | Strings(z: Bytes)
    | Plain(h: u8, z: Bytes)
    | Aligned(h: u8, z: Bytes, pad: Bytes)
  {
    function Count(): nat
      requires z != []
    {
      SizeValue(z)
    }
  }

  function Preamble(d: Bytes, p: nat, h: u8): (r: Out<TypedPreamble>)
    ensures r.pos >= p
    ensures r.Ok? ==> p < r.pos <= |d| && IsSizeField(r.value.z)
    ensures r.Ok? && (r.value.Plain? || r.value.Aligned?) ==> FixedWidth(r.value.h).Some?
  {
    if Sub(h) == CAT_OTHER then
      if CountOf(h) == OTHER_BOOL then
        var (z, p1) :- SizeField(d, p);
        Out.Ok(Bools(z), p1)
      else if CountOf(h) == OTHER_STRING then
        var (z, p1) :- SizeField(d, p);
        Out.Ok(Strings(z), p1)
      else if CountOf(h) == OTHER_ALIGNED then
        var (a, p1) :- AlignedHead(d, p);
        Out.Ok(Aligned(a.0, a.1, a.2), p1)
      else Out.Err(InvalidHeader, p)
    else if FixedWidth(h).None? then Out.Err(InvalidHeader, p)
    else
      var (z, p1) :- SizeField(d, p);
      Out.Ok(Plain(h, z), p1)
  }

  /** `Preamble`, with a packed-boolean payload also confirmed present and its padding
      checked. */
  function TypedHead(d: Bytes, p: nat, h: u8): (r: Out<TypedPreamble>)
    ensures r.pos >= p
    ensures r.Ok? ==> p < r.pos <= |d| && IsSizeField(r.value.z)
    ensures r.Ok? && (r.value.Plain? || r.value.Aligned?) ==> FixedWidth(r.value.h).Some?
  {
    var (form, p1) :- Preamble(d, p, h);
    if form.Bools? then
      var bytes := DivCeil8(form.Count());
      if p1 + bytes > |d| then Out.Err(UnexpectedEnd, p1)
      else if bytes > 0 && !BoolPaddingOk(form.Count(), d[p1 + bytes - 1]) then Out.Err(InvalidPadding, p1 + bytes)
      else Out.Ok(form, p1)
    else Out.Ok(form, p1)
  }

  /** A complex value's class header and, for the run forms, all before the payload. */
  datatype ComplexPreamble =
    | One(class_: u8)
    | Many(class_: u8, z: Bytes)
    | AlignedMany(class_: u8, z: Bytes, pad: Bytes)
  {
    /** How many pairs follow. */
    function Pairs(): nat
      requires One? || z != []
    {
      match this
      case One(_) => 1
      case Many(_, z) => SizeValue(z)
      case AlignedMany(_, z, _) => SizeValue(z) / 2
    }

    predicate Sized() {
      One? || IsSizeField(z)
    }
  }

  function ComplexHead(d: Bytes, p: nat): (r: Out<ComplexPreamble>)
    ensures r.pos >= p
    ensures r.Ok? ==> p < r.pos <= |d| && FixedWidth(r.value.class_).Some? && r.value.Sized()
  {
    var (class_, p1) :- Head(d, p);
    if FixedWidth(class_).None? then Out.Err(InvalidHeader, p1)
    else if Ty(class_) == COMPLEX_ONE then Out.Ok(One(class_), p1)
    else if Ty(class_) == COMPLEX_MANY then
      var (z, p2) :- SizeField(d, p1);
      Out.Ok(Many(class_, z), p2)
    else if Ty(class_) == COMPLEX_ALIGNED then
      var (a, p2) :- AlignedPairs(d, p1, class_, FixedWidth(class_).value);
      Out.Ok(AlignedMany(class_, a.0, a.1), p2)
    else Out.Err(InvalidHeader, p1)
  }
}

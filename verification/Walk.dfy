/** One walk, four modes. Skipping, validating, transcoding and reading into a tree are the
    same recursion over the same extents, and differ only in what each refuses. */
module Walks {
  import opened Bits
  import opened Wrappers
  import opened Headers
  import opened Wire
  import opened Grammar

  datatype Mode = Skip | Validate | Transcode | Build {
    /** Whether the walk decodes the numbers it meets rather than stepping over them. */
    predicate Decodes() { Transcode? || Build? }
  }

  // ---------------------------------------------------------------------
  // Numbers
  // ---------------------------------------------------------------------

  /** Reinterpret the low `width` bytes of `v` as a two's-complement signed value. */
  function SignExtend(v: nat, width: nat): int {
    if 2 * v >= Pow256(width) then v - Pow256(width) else v
  }

  const I64_MAX: int := 0x7fff_ffff_ffff_ffff

  /** Whether a tree can hold the number: finite if a float, 64 bits wide if not. */
  predicate Representable(h: u8, payload: Bytes) {
    var v := LittleEndian(payload);
    if Sub(h) == CAT_FLOAT then
      match CountOf(h)
      case 0 => v / 0x80 % 0x100 != 0xff
      case 1 => v / 0x400 % 0x20 != 0x1f
      case 2 => v / 0x80_0000 % 0x100 != 0xff
      case 3 => v / 0x10_0000_0000_0000 % 0x800 != 0x7ff
      case _ => false
    else if Sub(h) == CAT_UNSIGNED then v < TWO_TO_THE_64
    else -I64_MAX - 1 <= SignExtend(v, |payload|) <= I64_MAX
  }

  /** Every `width`-byte chunk of `payload` is one a tree can hold. */
  predicate AllRepresentable(h: u8, width: nat, payload: Bytes)
    requires width > 0
  {
    |payload| < width || (Representable(h, payload[..width]) && AllRepresentable(h, width, payload[width..]))
  }

  // ---------------------------------------------------------------------
  // The walk
  // ---------------------------------------------------------------------

  function WText(m: Mode, d: Bytes, p: nat): (r: Out<Text>)
    ensures r.pos >= p
    ensures r.Ok? ==> p < r.pos <= |d|
  {
    var (z, p1) :- SizeField(d, p);
    var (text, p2) :- Take(d, p1, SizeValue(z));
    if m != Skip && !ValidUtf8(text) then Out.Err(InvalidUtf8, p2) else Out.Ok(Text(z, text), p2)
  }

  function WTexts(m: Mode, d: Bytes, p: nat, n: nat): (r: Out<seq<Text>>)
    requires p <= |d|
    ensures r.pos >= p
    ensures r.Ok? ==> p <= r.pos <= |d|
    decreases n
  {
    if n == 0 then Out.Ok([], p)
    else
      var (t, p1) :- WText(m, d, p);
      var (ts, p2) :- WTexts(m, d, p1, n - 1);
      Out.Ok([t] + ts, p2)
  }

  function WNum(m: Mode, d: Bytes, p: nat, h: u8): (r: Out<Node>)
    ensures r.pos >= p
    ensures r.Ok? ==> p <= r.pos <= |d|
  {
    if FixedWidth(h).None? then Out.Err(InvalidHeader, p)
    else if m.Decodes() && IsFloat128(h) then Out.Err(UnsupportedFeature, p)
    else
      var (payload, p1) :- Take(d, p, FixedWidth(h).value);
      if m == Build && !Representable(h, payload) then Out.Err(NumberOutOfRange, p1)
      else Out.Ok(Num(h, payload), p1)
  }

  /** `n` elements of `width` bytes, described by the header `h`. */
  function WBlock(m: Mode, d: Bytes, p: nat, h: u8, n: nat, width: nat): (r: Out<Bytes>)
    requires FixedWidth(h).Some?
    ensures r.pos >= p
    ensures r.Ok? ==> p <= r.pos <= |d|
  {
    if m.Decodes() && n > 0 && IsFloat128(h) then Out.Err(UnsupportedFeature, p)
    else if CheckedMul(n, width).None? then Out.Err(UnexpectedEnd, p)
    else
      var (payload, p1) :- Take(d, p, n * width);
      if m == Build && !AllRepresentable(h, FixedWidth(h).value, payload) then Out.Err(NumberOutOfRange, p1)
      else Out.Ok(payload, p1)
  }

  function WTyped(m: Mode, d: Bytes, p: nat, h: u8): (r: Out<Node>)
    ensures r.pos >= p
    ensures r.Ok? ==> p < r.pos <= |d|
  {
    var (form, p1) :- TypedHead(d, p, h);
    WElements(m, d, p1, form)
  }

  /** A typed array's payload, in any of its three shapes. */
  function WElements(m: Mode, d: Bytes, p: nat, form: TypedPreamble): (r: Out<Node>)
    requires p <= |d| && IsSizeField(form.z)
    requires form.Plain? || form.Aligned? ==> FixedWidth(form.h).Some?
    ensures r.pos >= p
    ensures r.Ok? ==> p <= r.pos <= |d|
  {
    if form.Bools? then
      var (payload, p1) :- Take(d, p, DivCeil8(form.Count()));
      Out.Ok(BoolArr(form.z, payload), p1)
    else if form.Strings? then
      var (texts, p1) :- WTexts(m, d, p, form.Count());
      Out.Ok(StrArr(form.z, texts), p1)
    else
      var (payload, p1) :- WBlock(m, d, p, form.h, form.Count(), FixedWidth(form.h).value);
      Out.Ok(FixedArr(form, payload), p1)
  }

  function WComplex(m: Mode, d: Bytes, p: nat): (r: Out<Node>)
    ensures r.pos >= p
    ensures r.Ok? ==> p < r.pos <= |d|
  {
    var (pre, p1) :- ComplexHead(d, p);
    var (payload, p2) :- WBlock(m, d, p1, pre.class_, pre.Pairs(), 2 * FixedWidth(pre.class_).value);
    Out.Ok(Cpx(pre, payload), p2)
  }

  function WValue(m: Mode, d: Bytes, p: nat, depth: nat): (r: Out<Node>)
    ensures r.pos >= p
    ensures r.Ok? ==> p < r.pos <= |d|
    decreases |d| - p, 1, 0
  {
    var (h, p1) :- Head(d, p);
    WBody(m, d, p1, h, depth)
  }

  function WBody(m: Mode, d: Bytes, p: nat, h: u8, depth: nat): (r: Out<Node>)
    requires p <= |d|
    ensures r.pos >= p
    ensures r.Ok? ==> p <= r.pos <= |d|
    decreases |d| - p, 0, 2
  {
    if Ty(h) == TY_NULL_BOOL then
      if h == NULL || h == FALSE || h == TRUE then Out.Ok(Atom(h), p) else Out.Err(InvalidHeader, p)
    else if Ty(h) == TY_NUMBER then WNum(m, d, p, h)
    else if Ty(h) == TY_STRING then
      if !BareHeader(h) then Out.Err(InvalidHeader, p)
      else
        var (t, p1) :- WText(m, d, p);
        Out.Ok(Str(t), p1)
    else if Ty(h) == TY_OBJECT then
      WObject(m, d, p, h, depth)
    else if Ty(h) == TY_TYPED_ARRAY then
      if depth >= MAX_DEPTH then Out.Err(ExceededMaxDepth, p) else WTyped(m, d, p, h)
    else if Ty(h) == TY_GENERIC_ARRAY then
      if !BareHeader(h) then Out.Err(InvalidHeader, p) else WArray(m, d, p, depth)
    else if Ty(h) == TY_EXTENSION then WExtension(m, d, p, h, depth)
    else Out.Err(InvalidHeader, p)
  }

  function WObject(m: Mode, d: Bytes, p: nat, h: u8, depth: nat): (r: Out<Node>)
    requires p <= |d|
    ensures r.pos >= p
    ensures r.Ok? ==> p <= r.pos <= |d|
    decreases |d| - p, 0, 0
  {
    if KeyWidth(h).None? then Out.Err(InvalidHeader, p)
    else
      var (z, p1) :- SizeField(d, p);
      if depth >= MAX_DEPTH then Out.Err(ExceededMaxDepth, p1)
      else
        var (members, p2) :- WMembers(m, d, p1, h, SizeValue(z), depth + 1);
        Out.Ok(Obj(h, z, members), p2)
  }

  function WArray(m: Mode, d: Bytes, p: nat, depth: nat): (r: Out<Node>)
    requires p <= |d|
    ensures r.pos >= p
    ensures r.Ok? ==> p <= r.pos <= |d|
    decreases |d| - p, 0, 0
  {
    var (z, p1) :- SizeField(d, p);
    if depth >= MAX_DEPTH then Out.Err(ExceededMaxDepth, p1)
    else
      var (items, p2) :- WValues(m, d, p1, SizeValue(z), depth + 1);
      Out.Ok(Arr(z, items), p2)
  }

  function WExtension(m: Mode, d: Bytes, p: nat, h: u8, depth: nat): (r: Out<Node>)
    requires p <= |d|
    ensures r.pos >= p
    ensures r.Ok? ==> p <= r.pos <= |d|
    decreases |d| - p, 0, 1
  {
    if ExtId(h) == EXT_DELIMITER then Out.Err(InvalidHeader, p)
    else if ExtId(h) == EXT_TYPE_TAG && !m.Decodes() then WTagged(m, d, p, depth)
    else if ExtId(h) == EXT_MATRIX then WMatrix(m, d, p, depth)
    else if ExtId(h) == EXT_COMPLEX then WComplex(m, d, p)
    else Out.Err(UnsupportedFeature, p)
  }

  function WTagged(m: Mode, d: Bytes, p: nat, depth: nat): (r: Out<Node>)
    requires p <= |d|
    ensures r.pos >= p
    ensures r.Ok? ==> p <= r.pos <= |d|
    decreases |d| - p, 0, 0
  {
    var (z, p1) :- SizeField(d, p);
    if depth >= MAX_DEPTH then Out.Err(ExceededMaxDepth, p1)
    else
      var (value, p2) :- WValue(m, d, p1, depth + 1);
      Out.Ok(Tagged(z, value), p2)
  }

  function WMatrix(m: Mode, d: Bytes, p: nat, depth: nat): (r: Out<Node>)
    requires p <= |d|
    ensures r.pos >= p
    ensures r.Ok? ==> p <= r.pos <= |d|
    decreases |d| - p, 0, 0
  {
    var (layout, p1) :- Take(d, p, 1);
    if m.Decodes() && layout[0] != LAYOUT_RIGHT && layout[0] != LAYOUT_LEFT then Out.Err(InvalidMatrixLayout, p1)
    else if depth >= MAX_DEPTH then Out.Err(ExceededMaxDepth, p1)
    else
      var (extents, p2) :- WValue(m, d, p1, depth + 1);
      var (value, p3) :- WValue(m, d, p2, depth + 1);
      Out.Ok(Mat(layout[0], extents, value), p3)
  }

  /** Two values, one after the other. */
  function WPair(m: Mode, d: Bytes, p: nat, depth: nat): (r: Out<(Node, Node)>)
    ensures r.pos >= p
    ensures r.Ok? ==> p < r.pos <= |d|
  {
    var (x, p1) :- WValue(m, d, p, depth);
    var (y, p2) :- WValue(m, d, p1, depth);
    Out.Ok((x, y), p2)
  }

  /** A matrix is a layout byte and a pair of values. */
  lemma MatrixIsPair(m: Mode, d: Bytes, p: nat, depth: nat)
    requires p <= |d|
    ensures WMatrix(m, d, p, depth) ==
            if p == |d| then Out.Err(UnexpectedEnd, p)
            else if m.Decodes() && d[p] != LAYOUT_RIGHT && d[p] != LAYOUT_LEFT then Out.Err(InvalidMatrixLayout, p + 1)
            else if depth >= MAX_DEPTH then Out.Err(ExceededMaxDepth, p + 1)
            else
              match WPair(m, d, p + 1, depth + 1)
              case Ok(xy, e) => Out.Ok(Mat(d[p], xy.0, xy.1), e)
              case Err(code, e) => Out.Err(code, e)
  {
    hide WValue;
    if p < |d| { assert d[p..p + 1] == [d[p]]; }
  }

  function WValues(m: Mode, d: Bytes, p: nat, n: nat, depth: nat): (r: Out<seq<Node>>)
    requires p <= |d|
    ensures r.pos >= p
    ensures r.Ok? ==> p <= r.pos <= |d|
    decreases |d| - p, 2, n
  {
    if n == 0 then Out.Ok([], p)
    else
      var (x, p1) :- WValue(m, d, p, depth);
      var (xs, p2) :- WValues(m, d, p1, n - 1, depth);
      Out.Ok([x] + xs, p2)
  }

  function WKey(m: Mode, d: Bytes, p: nat, h: u8): (r: Out<Text>)
    requires p <= |d| && KeyWidth(h).Some?
    ensures r.pos >= p
    ensures r.Ok? ==> p <= r.pos <= |d|
  {
    if Sub(h) == CAT_FLOAT then WText(m, d, p)
    else
      var (key, p1) :- Take(d, p, KeyWidth(h).value);
      Out.Ok(Text([], key), p1)
  }

  function WMembers(m: Mode, d: Bytes, p: nat, h: u8, n: nat, depth: nat): (r: Out<seq<Member>>)
    requires p <= |d| && KeyWidth(h).Some?
    ensures r.pos >= p
    ensures r.Ok? ==> p <= r.pos <= |d|
    decreases |d| - p, 2, n
  {
    if n == 0 then Out.Ok([], p)
    else
      var (key, p1) :- WKey(m, d, p, h);
      var (x, p2) :- WValue(m, d, p1, depth);
      var (xs, p3) :- WMembers(m, d, p2, h, n - 1, depth);
      Out.Ok([Member(key.z, key.text, x)] + xs, p3)
  }

  // ---------------------------------------------------------------------
  // What each mode accepts
  // ---------------------------------------------------------------------

  predicate TextOk(m: Mode, t: Text) {
    m != Skip ==> ValidUtf8(t.text)
  }

  predicate TextsOk(m: Mode, ts: seq<Text>) {
    ts == [] || (TextOk(m, ts[0]) && TextsOk(m, ts[1..]))
  }

  predicate BlockOk(m: Mode, h: u8, n: nat, payload: Bytes)
    requires FixedWidth(h).Some?
  {
    && (m.Decodes() ==> n == 0 || !IsFloat128(h))
    && (m == Build ==> AllRepresentable(h, FixedWidth(h).value, payload))
  }

  /** Whether a walk in mode `m` takes the well-formed value `n`, depth aside. Skipping takes
      all; validating asks that text be UTF-8; transcoding refuses type tags, 128-bit floats
      it would have to decode and undefined matrix layouts as well; a tree also refuses a
      number it has no form for. */
  predicate Accepts(m: Mode, n: Node)
    requires WellFormed(n)
    decreases n, 1
  {
    match n
    case Atom(_) => true
    case Num(h, payload) => (m.Decodes() ==> !IsFloat128(h)) && (m == Build ==> Representable(h, payload))
    case Str(t) => TextOk(m, t)
    case Obj(h, _, members) => AcceptsMembers(m, h, members)
    case Arr(_, items) => AcceptsAll(m, items)
    case BoolArr(_, _) => true
    case StrArr(_, texts) => TextsOk(m, texts)
    case FixedArr(form, payload) => BlockOk(m, form.h, form.Count(), payload)
    case Tagged(_, value) => !m.Decodes() && Accepts(m, value)
    case Mat(layout, extents, value) =>
      && (m.Decodes() ==> layout == LAYOUT_RIGHT || layout == LAYOUT_LEFT)
      && Accepts(m, extents) && Accepts(m, value)
    case Cpx(pre, payload) => BlockOk(m, pre.class_, pre.Pairs(), payload)
  }

  predicate AcceptsAll(m: Mode, items: seq<Node>)
    requires AllWellFormed(items)
    decreases items, 0
  {
    items == [] || (Accepts(m, items[0]) && AcceptsAll(m, items[1..]))
  }

  predicate AcceptsMembers(m: Mode, h: u8, members: seq<Member>)
    requires MembersWellFormed(h, members)
    decreases members, 0
  {
    || members == []
    || (&& (Sub(h) == CAT_FLOAT ==> TextOk(m, Text(members[0].z, members[0].key)))
        && Accepts(m, members[0].value) && AcceptsMembers(m, h, members[1..]))
  }
}

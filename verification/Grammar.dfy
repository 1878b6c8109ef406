/** The BEVE grammar, written top down: a value as a tree that keeps every byte a document
    is free to choose, and the one byte string each tree stands for. Nothing here reads a
    document; the walks are proved against it. */
module Grammar {
  import opened Bits
  import opened Wrappers
  import opened Headers
  import opened Wire

  /** A size field and the text it measures. */
  datatype Text = Text(z: Bytes, text: Bytes)

  /** An object member. An integer key has no size field of its own, so `z` is empty. */
  datatype Member = Member(z: Bytes, key: Bytes, value: Node)

  datatype Node =
    | Atom(h: u8)
    | Num(h: u8, payload: Bytes)
    | Str(text: Text)
    | Obj(h: u8, z: Bytes, members: seq<Member>)
    | Arr(z: Bytes, items: seq<Node>)
    | BoolArr(z: Bytes, payload: Bytes)
    | StrArr(z: Bytes, texts: seq<Text>)
    | FixedArr(form: TypedPreamble, payload: Bytes)
    | Tagged(z: Bytes, value: Node)
    | Mat(layout: u8, extents: Node, value: Node)
    | Cpx(pre: ComplexPreamble, payload: Bytes)

  // ---------------------------------------------------------------------
  // The bytes a tree stands for
  // ---------------------------------------------------------------------

  function EncodeText(t: Text): Bytes { t.z + t.text }

  function EncodeTexts(ts: seq<Text>): Bytes {
    if ts == [] then [] else EncodeText(ts[0]) + EncodeTexts(ts[1..])
  }

  /** A typed array's own header. */
  function OuterHeader(f: TypedPreamble): u8 {
    match f
    case Bools(_) => BOOL_ARRAY
    case Strings(_) => STRING_ARRAY
    case Plain(h, _) => h
    case Aligned(_, _, _) => ALIGNED_ARRAY
  }

  /** What stands between a typed array's header and its payload. */
  function EncodePreamble(f: TypedPreamble): Bytes
    requires f.Aligned? ==> |f.pad| < 256
  {
    match f
    case Bools(z) => z
    case Strings(z) => z
    case Plain(_, z) => z
    case Aligned(h, z, pad) => [h] + (z + ([|pad|] + pad))
  }

  /** What stands between the complex extension's header and its payload. */
  function EncodeComplexHead(f: ComplexPreamble): Bytes
    requires f.AlignedMany? ==> |f.pad| < 256
  {
    match f
    case One(c) => [c]
    case Many(c, z) => [c] + z
    case AlignedMany(c, z, pad) => [c] + ([ALIGNED_ARRAY] + ([ComplexComponents(c)] + (z + ([|pad|] + pad))))
  }

  function HeaderOf(n: Node): u8 {
    match n
    case Atom(h) => h
    case Num(h, _) => h
    case Str(_) => STRING
    case Obj(h, _, _) => h
    case Arr(_, _) => GENERIC_ARRAY
    case BoolArr(_, _) => BOOL_ARRAY
    case StrArr(_, _) => STRING_ARRAY
    case FixedArr(form, _) => OuterHeader(form)
    case Tagged(_, _) => TYPE_TAG
    case Mat(_, _, _) => MATRIX
    case Cpx(_, _) => COMPLEX
  }

  function Encode(n: Node): (b: Bytes)
    requires WellFormed(n)
    decreases n, 1, 1
  {
    [HeaderOf(n)] + EncodeBody(n)
  }

  /** All of a value but its header. */
  function EncodeBody(n: Node): (b: Bytes)
    requires WellFormed(n)
    decreases n, 1, 0
  {
    match n
    case Atom(_) => []
    case Num(_, payload) => payload
    case Str(t) => EncodeText(t)
    case Obj(h, z, members) => z + EncodeMembers(h, members)
    case Arr(z, items) => z + EncodeAll(items)
    case BoolArr(z, payload) => z + payload
    case StrArr(z, texts) => z + EncodeTexts(texts)
    case FixedArr(form, payload) => EncodePreamble(form) + payload
    case Tagged(z, value) => z + Encode(value)
    case Mat(layout, extents, value) => [layout] + (Encode(extents) + Encode(value))
    case Cpx(form, payload) => EncodeComplexHead(form) + payload
  }

  function EncodeAll(items: seq<Node>): Bytes
    requires AllWellFormed(items)
    decreases items, 0
  {
    if items == [] then [] else Encode(items[0]) + EncodeAll(items[1..])
  }

  function EncodeMembers(h: u8, members: seq<Member>): Bytes
    requires MembersWellFormed(h, members)
    decreases members, 0
  {
    if members == [] then []
    else EncodeText(Text(members[0].z, members[0].key)) + (Encode(members[0].value) + EncodeMembers(h, members[1..]))
  }

  // ---------------------------------------------------------------------
  // Which trees are values
  // ---------------------------------------------------------------------

  predicate TextFits(t: Text) {
    IsSizeField(t.z) && SizeValue(t.z) == |t.text|
  }

  predicate TextsFit(ts: seq<Text>) {
    ts == [] || (TextFits(ts[0]) && TextsFit(ts[1..]))
  }

  predicate KeyFits(h: u8, m: Member) {
    match KeyWidth(h)
    case None => false
    case Some(w) => if Sub(h) == CAT_FLOAT then TextFits(Text(m.z, m.key)) else m.z == [] && |m.key| == w
  }

  /** A typed array's preamble, `n` elements of which fit `payload`. */
  predicate BlockFits(form: TypedPreamble, payload: Bytes) {
    && (form.Plain? || form.Aligned?)
    && IsSizeField(form.z)
    && Sub(form.h) != CAT_OTHER && Ty(form.h) == TY_TYPED_ARRAY
    && FixedWidth(form.h).Some?
    && |payload| == form.Count() * FixedWidth(form.h).value < TWO_TO_THE_64
    && (form.Aligned? ==> |form.pad| < FixedWidth(form.h).value)
  }

  predicate ComplexFits(pre: ComplexPreamble, payload: Bytes) {
    && FixedWidth(pre.class_).Some?
    && pre.Sized()
    && Ty(pre.class_) == (if pre.One? then COMPLEX_ONE else if pre.Many? then COMPLEX_MANY else COMPLEX_ALIGNED)
    && |payload| == pre.Pairs() * (2 * FixedWidth(pre.class_).value) < TWO_TO_THE_64
    && (pre.AlignedMany? ==> |pre.pad| < FixedWidth(pre.class_).value && SizeValue(pre.z) % 2 == 0)
  }

  predicate WellFormed(n: Node)
    decreases n, 1
  {
    match n
    case Atom(h) => h == NULL || h == FALSE || h == TRUE
    case Num(h, payload) => Ty(h) == TY_NUMBER && FixedWidth(h) == Some(|payload|)
    case Str(t) => TextFits(t)
    case Obj(h, z, members) =>
      && Ty(h) == TY_OBJECT && KeyWidth(h).Some?
      && IsSizeField(z) && SizeValue(z) == |members| && MembersWellFormed(h, members)
    case Arr(z, items) => IsSizeField(z) && SizeValue(z) == |items| && AllWellFormed(items)
    case BoolArr(z, payload) =>
      && IsSizeField(z) && |payload| == DivCeil8(SizeValue(z))
      && (payload != [] ==> BoolPaddingOk(SizeValue(z), payload[|payload| - 1]))
    case StrArr(z, texts) => IsSizeField(z) && SizeValue(z) == |texts| && TextsFit(texts)
    case FixedArr(form, payload) => BlockFits(form, payload)
    case Tagged(z, value) => IsSizeField(z) && WellFormed(value)
    case Mat(_, extents, value) => WellFormed(extents) && WellFormed(value)
    case Cpx(pre, payload) => ComplexFits(pre, payload)
  }

  predicate AllWellFormed(items: seq<Node>)
    decreases items, 0
  {
    items == [] || (WellFormed(items[0]) && AllWellFormed(items[1..]))
  }

  predicate MembersWellFormed(h: u8, members: seq<Member>)
    decreases members, 0
  {
    members == [] || (KeyFits(h, members[0]) && WellFormed(members[0].value) && MembersWellFormed(h, members[1..]))
  }

  // ---------------------------------------------------------------------
  // Nesting
  // ---------------------------------------------------------------------

  function Max(a: nat, b: nat): nat { if a < b then b else a }

  /** How many containers deep a value goes. A typed array is a container; a complex array
      is not. */
  function Nesting(n: Node): nat
    decreases n, 1
  {
    match n
    case Atom(_) => 0
    case Num(_, _) => 0
    case Str(_) => 0
    case Cpx(_, _) => 0
    case Obj(_, _, members) => 1 + MemberNesting(members)
    case Arr(_, items) => 1 + AllNesting(items)
    case BoolArr(_, _) => 1
    case StrArr(_, _) => 1
    case FixedArr(_, _) => 1
    case Tagged(_, value) => 1 + Nesting(value)
    case Mat(_, extents, value) => 1 + Max(Nesting(extents), Nesting(value))
  }

  function AllNesting(items: seq<Node>): nat
    decreases items, 0
  {
    if items == [] then 0 else Max(Nesting(items[0]), AllNesting(items[1..]))
  }

  function MemberNesting(members: seq<Member>): nat
    decreases members, 0
  {
    if members == [] then 0 else Max(Nesting(members[0].value), MemberNesting(members[1..]))
  }
}

/** Reading a BEVE document into a tree of unknown shape: `read_body` of src/value.rs. */
module Trees {
  import opened Bits
  import opened Wrappers
  import opened Headers
  import opened Wire
  import opened Grammar
  import opened Walks
  import opened Readers
  import Floats
  import HashTables
  import AssocLists
  import PackedBools
  import Transcoder

  /** A number: an integer by its value, a float by its bits as a double. */
  datatype Number = Int(v: int) | Float(bits: nat)

  datatype Value =
    | Null
    | Bool(b: bool)
    | Num(n: Number)
    | String(s: Bytes)
    | Array(items: seq<Value>)
    | Object(members: seq<(Bytes, Value)>)

  /** The bytes of text that is all ASCII. */
  function Ascii(s: string): (b: Bytes)
    ensures |b| == |s|
  {
    seq<u8>(|s|, i requires 0 <= i < |s| => s[i] as int % 0x80)
  }

  /** The members a matrix reads as. */
  const EXTENTS: Bytes := Ascii("extents")
  const LAYOUT: Bytes := Ascii("layout")
  const VALUE: Bytes := Ascii("value")
  const LAYOUT_RIGHT_NAME: Bytes := Ascii("layout_right")
  const LAYOUT_LEFT_NAME: Bytes := Ascii("layout_left")

  // ---------------------------------------------------------------------
  // The tree a value stands for
  // ---------------------------------------------------------------------

  function NumberOf(h: u8, payload: Bytes): Number {
    if Sub(h) == CAT_FLOAT then Float(Floats.AsDouble(CountOf(h), LittleEndian(payload)))
    else if Sub(h) == CAT_UNSIGNED then Int(LittleEndian(payload))
    else Int(SignExtend(LittleEndian(payload), |payload|))
  }

  /** The decimal digits of `n`. */
  function Digits(n: nat): Bytes {
    if n < 10 then [48 + n] else Digits(n / 10) + [48 + n % 10]
  }

  function Decimal(v: int): Bytes {
    if v < 0 then [45] + Digits(-v) else Digits(v)
  }

  /** An object key as text: itself, or an integer's digits. */
  function KeyText(h: u8, key: Bytes): Bytes {
    if Sub(h) == CAT_FLOAT then key
    else if Sub(h) == CAT_SIGNED then Decimal(SignExtend(LittleEndian(key), |key|))
    else Decimal(LittleEndian(key))
  }

  function Numbers(h: u8, width: nat, payload: Bytes): seq<Value>
    requires width > 0
  {
    if |payload| < width then [] else [Value.Num(NumberOf(h, payload[..width]))] + Numbers(h, width, payload[width..])
  }

  function Pairs(h: u8, width: nat, payload: Bytes): seq<Value>
    requires width > 0
  {
    if |payload| < 2 * width then []
    else [Array(Numbers(h, width, payload[..2 * width]))] + Pairs(h, width, payload[2 * width..])
  }

  function Bools(bits: seq<bool>): (r: seq<Value>)
    ensures |r| == |bits|
  {
    seq(|bits|, i requires 0 <= i < |bits| => Bool(bits[i]))
  }

  function Strings(ts: seq<Text>): seq<Value> {
    if ts == [] then [] else [String(ts[0].text)] + Strings(ts[1..])
  }

  /** The width of one element, of a header that describes any. */
  function Width(h: u8): (w: nat)
    ensures w >= 1
  {
    if FixedWidth(h).Some? then FixedWidth(h).value else 1
  }

  function ElementHeader(form: TypedPreamble): u8 {
    match form case Plain(h, _) => h case Aligned(h, _, _) => h case _ => 0
  }

  function TreeOf(n: Node): Value
    decreases n, 1
  {
    match n
    case Atom(h) => if h == NULL then Null else Bool(h == TRUE)
    case Num(h, payload) => Value.Num(NumberOf(h, payload))
    case Str(t) => String(t.text)
    case Obj(h, _, members) => Object(Filled([], h, members))
    case Arr(_, items) => Array(TreesOf(items))
    case BoolArr(z, payload) => Array(BoolItems(z, payload))
    case StrArr(_, texts) => Array(Strings(texts))
    case FixedArr(form, payload) => Array(Numbers(ElementHeader(form), Width(ElementHeader(form)), payload))
    case Tagged(_, value) => TreeOf(value)
    case Mat(layout, extents, value) => MatrixTree(layout, TreeOf(extents), TreeOf(value))
    case Cpx(pre, payload) =>
      if pre.One? then Array(Numbers(pre.class_, Width(pre.class_), payload))
      else Array(Pairs(pre.class_, Width(pre.class_), payload))
  }

  function MatrixTree(layout: u8, extents: Value, value: Value): Value {
    Object([(LAYOUT, String(if layout == LAYOUT_RIGHT then LAYOUT_RIGHT_NAME else LAYOUT_LEFT_NAME)),
            (EXTENTS, extents), (VALUE, value)])
  }

  function BoolItems(z: Bytes, payload: Bytes): seq<Value> {
    if z != [] && |payload| == DivCeil8(SizeValue(z)) then Bools(PackedBools.Unpack(SizeValue(z), payload)) else []
  }

  function TreesOf(items: seq<Node>): (r: seq<Value>)
    decreases items, 0
  {
    if items == [] then [] else [TreeOf(items[0])] + TreesOf(items[1..])
  }

  /** `entries` with each member inserted in turn: a key met again keeps its place and takes
      the later value. */
  function Filled(entries: seq<(Bytes, Value)>, h: u8, members: seq<Member>): seq<(Bytes, Value)>
    decreases members, 0
  {
    if members == [] then entries
    else
      Filled(AssocLists.Inserted(entries, KeyText(h, members[0].key), TreeOf(members[0].value)), h, members[1..])
  }

  // ---------------------------------------------------------------------
  // The walk that builds it
  // ---------------------------------------------------------------------

  /** The walk's answer is `o`, and a value it returns is the tree of what was walked. */
  ghost predicate Builds(a: Answer<Value>, pos: nat, o: Out<Node>) {
    Ends(a, pos, o) && (o.Ok? ==> a.value == TreeOf(o.value))
  }

  predicate IsFinite(bits: nat) {
    bits / 0x10_0000_0000_0000 % 0x800 != 0x7ff
  }

  /** A float that a tree can hold is one that is finite as a double. */
  lemma FiniteAsDouble(h: u8, payload: Bytes)
    requires Sub(h) == CAT_FLOAT && CountOf(h) <= 3
    ensures Representable(h, payload) <==> IsFinite(Floats.AsDouble(CountOf(h), LittleEndian(payload)))
    ensures Floats.Countable(Floats.FormatOf(CountOf(h)))
    ensures Representable(h, payload) <==> Floats.Means(Floats.FormatOf(CountOf(h)), LittleEndian(payload)).Finite?
  {
    hide LittleEndian, Floats.AsDouble, Floats.Units, Floats.Split, Floats.Top, Floats.Countable;
    var code, v := CountOf(h), LittleEndian(payload);
    Floats.DoubleIsExact(code, v);
    Floats.Formats();
    ExponentFields(v);
    ExponentFields(Floats.AsDouble(code, v));
  }

  lemma ExponentFields(v: nat)
    ensures Floats.Split(Floats.BRAIN, v).exp == v / 0x80 % 0x100 && Floats.Split(Floats.HALF, v).exp == v / 0x400 % 0x20
    ensures Floats.Split(Floats.SINGLE, v).exp == v / 0x80_0000 % 0x100
    ensures Floats.Split(Floats.DOUBLE, v).exp == v / 0x10_0000_0000_0000 % 0x800
  {
    hide Pow2;
    Floats.Powers();
    Pow2Values();
  }

  /** One number from its payload, `payload` being exactly as long as its header says. */
  method ReadNumber(h: u8, payload: Bytes) returns (a: Answer<Number>)
    requires FixedWidth(h) == Some(|payload|)
    ensures Representable(h, payload) ==> a == Result.Ok(NumberOf(h, payload))
    ensures !Representable(h, payload) && !IsFloat128(h) ==> a == Result.Err(NumberOutOfRange)
  {
    var v := LittleEndian(payload);
    if Sub(h) == CAT_FLOAT {
      if CountOf(h) > 3 { return Result.Err(UnsupportedFeature); }
      FiniteAsDouble(h, payload);
      var bits := ReadFloat(CountOf(h), payload);
      return if IsFinite(bits) then Result.Ok(Float(bits)) else Result.Err(NumberOutOfRange);
    } else if Sub(h) == CAT_UNSIGNED {
      return if v < TWO_TO_THE_64 then Result.Ok(Int(v)) else Result.Err(NumberOutOfRange);
    }
    var w := SignExtend(v, |payload|);
    return if -I64_MAX - 1 <= w <= I64_MAX then Result.Ok(Int(w)) else Result.Err(NumberOutOfRange);
  }

  /** A float's bits as a double, through a single if it is narrower than one. */
  method ReadFloat(code: u8, payload: Bytes) returns (bits: nat)
    requires code <= 3 && (code <= 1 ==> |payload| == 2)
    ensures bits == Floats.AsDouble(code, LittleEndian(payload))
  {
    var v := LittleEndian(payload);
    if code == 3 { return v; }
    Floats.FormatsWiden();
    if code <= 1 {
      LittleEndianBound(payload);
      Pow256Values();
      assert Pow256(2) == 0x1_0000;
    }
    var single := v;
    if code == 0 {
      single := Floats.Bf16ToF32(v);
    } else if code == 1 {
      single := Floats.F16ToF32(v);
    }
    return Floats.Widened(Floats.SINGLE, Floats.DOUBLE, single);
  }

  /** Read the value at the cursor, its header installed or its own. */
  method Read(r: Reader) returns (a: Answer<Value>)
    requires r.Valid()
    modifies r`pos, r`depth, r`implied
    ensures r.Valid() && r.depth == old(r.depth) && r.implied == None
    ensures old(r.implied).None? ==> Builds(a, r.pos, WValue(Build, r.data, old(r.pos), old(r.depth)))
    ensures old(r.implied).Some? ==> Builds(a, r.pos, WBody(Build, r.data, old(r.pos), old(r.implied).value, old(r.depth)))
    decreases |r.data| - r.pos, 2, 0
  {
    var h :- r.TakeHead();
    a := ReadBody(r, h);
  }

  method ReadBody(r: Reader, h: u8) returns (a: Answer<Value>)
    requires r.Valid() && r.implied == None
    modifies r`pos, r`depth, r`implied
    ensures r.Valid() && r.depth == old(r.depth) && r.implied == None
    ensures Builds(a, r.pos, WBody(Build, r.data, old(r.pos), h, old(r.depth)))
    decreases |r.data| - r.pos, 1, 0
  {
    hide WObject, WArray, WTyped, WExtension, WText;
    if Ty(h) == TY_NULL_BOOL {
      return if h == NULL then Result.Ok(Null) else if h == FALSE then Result.Ok(Bool(false))
             else if h == TRUE then Result.Ok(Bool(true)) else Result.Err(InvalidHeader);
    } else if Ty(h) == TY_NUMBER {
      var width :- Transcoder.DecodableWidth(h);
      var payload :- r.TakeBytes(width);
      var n :- ReadNumber(h, payload);
      return Result.Ok(Value.Num(n));
    } else if Ty(h) == TY_STRING {
      if !BareHeader(h) { return Result.Err(InvalidHeader); }
      var s :- Transcoder.StrBody(r);
      return Result.Ok(String(s));
    } else if Ty(h) == TY_OBJECT {
      a := ReadObject(r, h);
    } else if Ty(h) == TY_TYPED_ARRAY {
      var _ :- r.Enter();
      a := TypedItems(r, h);
      r.Leave();
    } else if Ty(h) == TY_GENERIC_ARRAY {
      if !BareHeader(h) { return Result.Err(InvalidHeader); }
      a := ReadArray(r);
    } else if Ty(h) == TY_EXTENSION {
      a := ReadExtension(r, h);
    } else {
      return Result.Err(InvalidHeader);
    }
  }

  method ReadExtension(r: Reader, h: u8) returns (a: Answer<Value>)
    requires r.Valid() && r.implied == None
    modifies r`pos, r`depth, r`implied
    ensures r.Valid() && r.depth == old(r.depth) && r.implied == None
    ensures Builds(a, r.pos, WExtension(Build, r.data, old(r.pos), h, old(r.depth)))
    decreases |r.data| - r.pos, 0, 1
  {
    hide WComplex, WMatrix, WTagged;
    if ExtId(h) == EXT_COMPLEX {
      a := ReadComplex(r);
    } else if ExtId(h) == EXT_MATRIX {
      a := ReadMatrix(r);
    } else {
      return Result.Err(if ExtId(h) == EXT_DELIMITER then InvalidHeader else UnsupportedFeature);
    }
  }

  method ReadObject(r: Reader, h: u8) returns (a: Answer<Value>)
    requires r.Valid() && r.implied == None
    modifies r`pos, r`depth, r`implied
    ensures r.Valid() && r.depth == old(r.depth) && r.implied == None
    ensures Builds(a, r.pos, WObject(Build, r.data, old(r.pos), h, old(r.depth)))
    decreases |r.data| - r.pos, 0, 0
  {
    hide WMembers, Filled, SizeField, SizeValue, KeyWidth;
    if KeyWidth(h).None? { return Result.Err(InvalidHeader); }
    ghost var z;
    var members;
    members, z := r.Size();
    if members.Err? { return Result.Err(members.error); }
    var _ :- r.Enter();
    var map_ := ReadMembers(r, h, members.value);
    r.Leave();
    return if map_.Ok? then Result.Ok(Object(map_.value)) else Result.Err(map_.error);
  }

  method ReadKey(r: Reader, h: u8) returns (a: Answer<Bytes>)
    requires r.Valid() && KeyWidth(h).Some?
    modifies r`pos
    ensures r.Valid() && Ends(a, r.pos, WKey(Build, r.data, old(r.pos), h))
    ensures a.Ok? ==> a.value == KeyText(h, WKey(Build, r.data, old(r.pos), h).value.text)
  {
    var key: Bytes;
    if Sub(h) == CAT_FLOAT {
      key :- Transcoder.StrBody(r);
    } else {
      key :- r.TakeBytes(KeyWidth(h).value);
    }
    return Result.Ok(KeyText(h, key));
  }

  /** Insert each member in turn, as `OrderedMap.Insert` does. */
  method ReadMembers(r: Reader, h: u8, members: nat) returns (a: Answer<seq<(Bytes, Value)>>)
    requires r.Valid() && r.implied == None && KeyWidth(h).Some?
    modifies r`pos, r`depth, r`implied
    ensures r.Valid() && r.depth == old(r.depth) && r.implied == None
    ensures Ends(a, r.pos, WMembers(Build, r.data, old(r.pos), h, members, old(r.depth)))
    ensures a.Ok? ==> a.value == Filled([], h, WMembers(Build, r.data, old(r.pos), h, members, old(r.depth)).value)
    decreases |r.data| - r.pos, 3, 0
  {
    hide WValue, WKey, TreeOf, KeyText, AssocLists.Inserted;
    ghost var all := WMembers(Build, r.data, r.pos, h, members, r.depth);
    var map_: seq<(Bytes, Value)> := [];
    for i := 0 to members
      invariant r.Valid() && r.depth == old(r.depth) && r.implied == None && r.pos >= old(r.pos)
      invariant SameEnd(all, WMembers(Build, r.data, r.pos, h, members - i, r.depth))
      invariant all.Ok? ==>
                  Filled([], h, all.value) == Filled(map_, h, WMembers(Build, r.data, r.pos, h, members - i, r.depth).value)
    {
      var key :- ReadKey(r, h);
      var value :- Read(r);
      map_ := AssocLists.Inserted(map_, key, value);
    }
    return Result.Ok(map_);
  }

  method ReadArray(r: Reader) returns (a: Answer<Value>)
    requires r.Valid() && r.implied == None
    modifies r`pos, r`depth, r`implied
    ensures r.Valid() && r.depth == old(r.depth) && r.implied == None
    ensures Builds(a, r.pos, WArray(Build, r.data, old(r.pos), old(r.depth)))
    decreases |r.data| - r.pos, 0, 0
  {
    ghost var z;
    var n;
    n, z := r.Size();
    if n.Err? { return Result.Err(n.error); }
    var _ :- r.Enter();
    var items := ReadItems(r, n.value);
    r.Leave();
    return if items.Ok? then Result.Ok(Array(items.value)) else Result.Err(items.error);
  }

  method ReadItems(r: Reader, n: nat) returns (a: Answer<seq<Value>>)
    requires r.Valid() && r.implied == None
    modifies r`pos, r`depth, r`implied
    ensures r.Valid() && r.depth == old(r.depth) && r.implied == None
    ensures Ends(a, r.pos, WValues(Build, r.data, old(r.pos), n, old(r.depth)))
    ensures a.Ok? ==> a.value == TreesOf(WValues(Build, r.data, old(r.pos), n, old(r.depth)).value)
    decreases |r.data| - r.pos, 3, 0
  {
    hide WValue, TreeOf;
    ghost var all := WValues(Build, r.data, r.pos, n, r.depth);
    var items: seq<Value> := [];
    for i := 0 to n
      invariant r.Valid() && r.depth == old(r.depth) && r.implied == None && r.pos >= old(r.pos)
      invariant SameEnd(all, WValues(Build, r.data, r.pos, n - i, r.depth))
      invariant all.Ok? ==>
                  TreesOf(all.value) == items + TreesOf(WValues(Build, r.data, r.pos, n - i, r.depth).value)
    {
      var value :- Read(r);
      items := items + [value];
    }
    return Result.Ok(items);
  }

  method TypedItems(r: Reader, h: u8) returns (a: Answer<Value>)
    requires r.Valid() && r.implied == None
    modifies r`pos, r`implied
    ensures r.Valid() && r.implied == None
    ensures Builds(a, r.pos, WTyped(Build, r.data, old(r.pos), h))
  {
    hide WBlock, WTexts, TypedHead, AllRepresentable, Numbers, PackedBools.Unpack;
    var form :- r.TakeTypedHead(h);
    match form {
      case Bools(n) =>
        var payload :- r.TakeBytes(DivCeil8(n));
        return Result.Ok(Array(Bools(PackedBools.Unpack(n, payload))));
      case Strings(n) =>
        var items :- ReadStrings(r, n);
        return Result.Ok(Array(items));
      case Fixed(elem, n) =>
        var items :- ReadBlock(r, elem, n, FixedWidth(elem).value);
        return Result.Ok(Array(items));
    }
  }

  method ReadStrings(r: Reader, n: nat) returns (a: Answer<seq<Value>>)
    requires r.Valid()
    modifies r`pos
    ensures r.Valid() && Ends(a, r.pos, WTexts(Build, r.data, old(r.pos), n))
    ensures a.Ok? ==> a.value == Strings(WTexts(Build, r.data, old(r.pos), n).value)
  {
    hide WText;
    ghost var all := WTexts(Build, r.data, r.pos, n);
    var items: seq<Value> := [];
    for i := 0 to n
      invariant r.Valid()
      invariant SameEnd(all, WTexts(Build, r.data, r.pos, n - i))
      invariant all.Ok? ==> Strings(all.value) == items + Strings(WTexts(Build, r.data, r.pos, n - i).value)
    {
      var s :- Transcoder.StrBody(r);
      items := items + [String(s)];
    }
    return Result.Ok(items);
  }

  /** The `n` numbers of a block, refused before its payload if they are of a type nothing
      decodes. */
  method ReadBlock(r: Reader, h: u8, n: nat, width: nat) returns (a: Answer<seq<Value>>)
    requires r.Valid() && FixedWidth(h) == Some(width)
    modifies r`pos
    ensures r.Valid() && Ends(a, r.pos, WBlock(Build, r.data, old(r.pos), h, n, width))
    ensures a.Ok? ==> a.value == Numbers(h, width, WBlock(Build, r.data, old(r.pos), h, n, width).value)
  {
    var payload :- Transcoder.Block(r, h, n, width);
    a := Chunks(h, width, payload);
  }

  method Chunks(h: u8, width: nat, payload: Bytes) returns (a: Answer<seq<Value>>)
    requires FixedWidth(h) == Some(width) && (|payload| < width || !IsFloat128(h))
    ensures a == if AllRepresentable(h, width, payload) then Result.Ok(Numbers(h, width, payload))
                 else Result.Err(NumberOutOfRange)
  {
    var items: seq<Value> := [];
    var rest := payload;
    while |rest| >= width
      invariant |rest| >= width ==> !IsFloat128(h)
      invariant Numbers(h, width, payload) == items + Numbers(h, width, rest)
      invariant AllRepresentable(h, width, payload) == AllRepresentable(h, width, rest)
      decreases |rest|
    {
      var n :- ReadNumber(h, rest[..width]);
      items := items + [Value.Num(n)];
      rest := rest[width..];
    }
    assert items + [] == items;
    return Result.Ok(items);
  }

  method ReadMatrix(r: Reader) returns (a: Answer<Value>)
    requires r.Valid() && r.implied == None
    modifies r`pos, r`depth, r`implied
    ensures r.Valid() && r.depth == old(r.depth) && r.implied == None
    ensures Builds(a, r.pos, WMatrix(Build, r.data, old(r.pos), old(r.depth)))
    decreases |r.data| - r.pos, 0, 0
  {
    hide WValue;
    var layout :- r.TakeBytes(1);
    if layout[0] != LAYOUT_RIGHT && layout[0] != LAYOUT_LEFT { return Result.Err(InvalidMatrixLayout); }
    var _ :- r.Enter();
    a := Read(r);
    if a.Ok? {
      var extents := a.value;
      a := Read(r);
      if a.Ok? { a := Result.Ok(MatrixTree(layout[0], extents, a.value)); }
    }
    r.Leave();
  }

  method ReadComplex(r: Reader) returns (a: Answer<Value>)
    requires r.Valid() && r.implied == None
    modifies r`pos, r`implied
    ensures r.Valid() && r.implied == None && Builds(a, r.pos, WComplex(Build, r.data, old(r.pos)))
  {
    hide ComplexHead, AllRepresentable, Numbers, Pairs;
    var head :- r.TakeComplexHead();
    var class_, width := head.0, head.1;
    var payload :- Transcoder.Block(r, class_, if head.2.Some? then head.2.value else 1, 2 * width);
    if head.2.None? {
      var pair :- Chunks(class_, width, payload);
      return Result.Ok(Array(pair));
    }
    var pairs :- PairChunks(class_, width, payload);
    return Result.Ok(Array(pairs));
  }

  method PairChunks(h: u8, width: nat, payload: Bytes) returns (a: Answer<seq<Value>>)
    requires FixedWidth(h) == Some(width) && (|payload| < 2 * width || !IsFloat128(h))
    requires exists n: nat :: |payload| == n * (2 * width)
    ensures a == if AllRepresentable(h, width, payload) then Result.Ok(Pairs(h, width, payload))
                 else Result.Err(NumberOutOfRange)
  {
    hide Representable, Numbers, Pairs, AllRepresentable, ByteWidth;
    NoPairs(h, width);
    ghost var n: nat :| |payload| == n * (2 * width);
    var items: seq<Value> := [];
    var rest := payload;
    while |rest| >= 2 * width
      invariant |rest| == n * (2 * width)
      invariant |rest| >= 2 * width ==> !IsFloat128(h)
      invariant Pairs(h, width, payload) == items + Pairs(h, width, rest)
      invariant AllRepresentable(h, width, payload) == AllRepresentable(h, width, rest)
      decreases |rest|
    {
      SplitRepresentable(h, width, rest);
      OnePairMore(h, width, rest);
      OneLess(n, 2 * width);
      var pair :- Chunks(h, width, rest[..2 * width]);
      items := items + [Array(pair)];
      rest := rest[2 * width..];
      n := n - 1;
    }
    NoneLeft(n, 2 * width);
    assert rest == [] && items + [] == items;
    return Result.Ok(items);
  }

  lemma NoPairs(h: u8, width: nat)
    requires width > 0
    ensures Pairs(h, width, []) == [] && AllRepresentable(h, width, [])
  {
  }

  lemma OneLess(n: nat, w: nat)
    requires n * w >= w > 0
    ensures n > 0 && (n - 1) * w == n * w - w
  {
  }

  lemma NoneLeft(n: nat, w: nat)
    requires n * w < w
    ensures n * w == 0
  {
    if n > 0 { MulMonotone(1, n, w); }
  }

  lemma OnePairMore(h: u8, width: nat, payload: Bytes)
    requires width > 0 && |payload| >= 2 * width
    ensures Pairs(h, width, payload) == [Array(Numbers(h, width, payload[..2 * width]))] + Pairs(h, width, payload[2 * width..])
  {
    hide Numbers;
  }

  lemma SplitRepresentable(h: u8, width: nat, payload: Bytes)
    requires width > 0 && |payload| >= 2 * width
    ensures AllRepresentable(h, width, payload) <==>
            AllRepresentable(h, width, payload[..2 * width]) && AllRepresentable(h, width, payload[2 * width..])
  {
    var pair := payload[..2 * width];
    assert pair[..width] == payload[..width];
    assert pair[width..][..width] == payload[width..][..width];
    assert payload[width..][width..] == payload[2 * width..];
    var tail := pair[width..];
    assert AllRepresentable(h, width, tail) == Representable(h, tail[..width]) by {
      assert |tail[width..]| == 0;
    }
  }
}

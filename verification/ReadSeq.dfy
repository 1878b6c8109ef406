/** Reading an array element by element, each under the header the array implies for it:
    `read_seq`, `implying` and what they drive in src/beve/reader.rs, with an element read as
    a tree. Set against reading the array into a tree whole. */
module Sequences {
  import opened Bits
  import opened Wrappers
  import opened Headers
  import opened Wire
  import opened Grammar
  import opened Walks
  import opened Readers
  import PackedBools
  import Trees
  import SeekTheorems

  type Values = seq<Trees.Value>

  /** The items a sequence read makes of a value: those of an array of any kind, unless it is
      a run of complex numbers, no tree being read from one of its elements, that has any. */
  function ItemsOf(n: Node): Option<Values>
    requires n.Cpx? && !n.pre.One? ==> n.pre.z != []
  {
    match n
    case Arr(_, items) => Some(Trees.TreesOf(items))
    case BoolArr(z, payload) => Some(Trees.BoolItems(z, payload))
    case StrArr(_, texts) => Some(Trees.Strings(texts))
    case FixedArr(form, payload) =>
      Some(Trees.Numbers(Trees.ElementHeader(form), Trees.Width(Trees.ElementHeader(form)), payload))
    case Cpx(pre, _) => if !pre.One? && pre.Pairs() == 0 then Some([]) else None
    case _ => None
  }

  // ---------------------------------------------------------------------
  // What the read comes to, and where it stops
  // ---------------------------------------------------------------------

  function SeqRead(d: Bytes, p: nat, depth: nat): (r: Out<Values>)
    ensures r.Ok? ==> r.pos <= |d|
  {
    var (h, p1) :- Head(d, p);
    if h == COMPLEX then SeqComplex(d, p1, depth)
    else if Ty(h) == TY_GENERIC_ARRAY && !BareHeader(h) then Out.Err(InvalidHeader, p1)
    else if depth >= MAX_DEPTH then Out.Err(ExceededMaxDepth, p1)
    else if Ty(h) == TY_GENERIC_ARRAY then SeqGeneric(d, p1, depth + 1)
    else if Ty(h) == TY_TYPED_ARRAY then SeqTyped(d, p1, h, depth + 1)
    else Out.Err(ExpectedArray, p1)
  }

  function SeqGeneric(d: Bytes, p: nat, depth: nat): (r: Out<Values>)
    requires p <= |d|
    ensures r.Ok? ==> r.pos <= |d|
  {
    var (z, p1) :- SizeField(d, p);
    var (items, p2) :- WValues(Build, d, p1, SizeValue(z), depth);
    Out.Ok(Trees.TreesOf(items), p2)
  }

  function SeqTyped(d: Bytes, p: nat, h: u8, depth: nat): (r: Out<Values>)
    requires p <= |d|
    ensures r.Ok? ==> r.pos <= |d|
  {
    var (form, p1) :- TypedHead(d, p, h);
    if form.Bools? then
      var (payload, p2) :- Take(d, p1, DivCeil8(form.Count()));
      Out.Ok(Trees.Bools(PackedBools.Unpack(form.Count(), payload)), p2)
    else if form.Strings? then Run(d, p1, form.Count(), STRING, depth)
    else SeqBlock(d, p1, form.h, form.Count(), FixedWidth(form.h).value, ElementOf(form.h), depth)
  }

  function SeqComplex(d: Bytes, p: nat, depth: nat): (r: Out<Values>)
    requires p <= |d|
    ensures r.Ok? ==> r.pos <= |d|
  {
    var (pre, p1) :- ComplexHead(d, p);
    if pre.One? then Out.Err(ExpectedArray, p1)
    else SeqBlock(d, p1, pre.class_, pre.Pairs(), 2 * FixedWidth(pre.class_).value, ComplexElement(pre.class_), depth)
  }

  /** `n` elements of `width` bytes each, read one by one under the header `elem`, of a type
      that decodes and all there. */
  function SeqBlock(d: Bytes, p: nat, h: u8, n: nat, width: nat, elem: u8, depth: nat): (r: Out<Values>)
    requires p <= |d|
    ensures r.Ok? ==> r.pos <= |d|
  {
    if n > 0 && IsFloat128(h) then Out.Err(UnsupportedFeature, p)
    else if CheckedMul(n, width).None? || p + n * width > |d| then Out.Err(UnexpectedEnd, p)
    else Run(d, p, n, elem, depth)
  }

  /** `n` values one after another, each read with the header `elem`. */
  function Run(d: Bytes, p: nat, n: nat, elem: u8, depth: nat): (r: Out<Values>)
    requires p <= |d|
    ensures r.Ok? ==> p <= r.pos <= |d|
    decreases n
  {
    if n == 0 then Out.Ok([], p)
    else
      var (x, p1) :- WBody(Build, d, p, elem, depth);
      var (xs, p2) :- Run(d, p1, n - 1, elem, depth);
      Out.Ok([Trees.TreeOf(x)] + xs, p2)
  }

  // ---------------------------------------------------------------------
  // Reading
  // ---------------------------------------------------------------------

  /** Read the value at the cursor with `h` installed as its header, and take the header back
      however the read exits. */
  method Implying(r: Reader, h: u8) returns (a: Answer<Trees.Value>)
    requires r.Valid() && r.implied == None
    modifies r`pos, r`depth, r`implied, r`installed
    ensures r.Valid() && r.depth == old(r.depth) && r.implied == None && r.installed == old(r.installed)
    ensures Trees.Builds(a, r.pos, WBody(Build, r.data, old(r.pos), h, old(r.depth)))
  {
    hide WBody, Trees.TreeOf;
    var outer := r.installed;
    r.Install(h);
    a := Trees.Read(r);
    r.implied := None;
    r.installed := outer;
  }

  /** Read an array, of whatever kind, element by element. */
  method ReadSeq(r: Reader) returns (a: Answer<Values>)
    requires r.Valid() && r.implied == None
    modifies r`pos, r`depth, r`implied, r`installed
    ensures r.Valid() && r.depth == old(r.depth) && r.implied == None && r.installed == old(r.installed)
    ensures Agrees(a, r.pos, SeqRead(r.data, old(r.pos), old(r.depth)))
  {
    hide SeqTyped, SeqGeneric, SeqComplex;
    var h :- r.TakeHead();
    if h == COMPLEX {
      a := ComplexRun(r);
      return;
    }
    if Ty(h) == TY_GENERIC_ARRAY && !BareHeader(h) { return Result.Err(InvalidHeader); }
    var _ :- r.Enter();
    if Ty(h) == TY_GENERIC_ARRAY {
      a := Generic(r);
    } else if Ty(h) == TY_TYPED_ARRAY {
      a := Typed(r, h);
    } else {
      a := Result.Err(ExpectedArray);
    }
    r.Leave();
  }

  /** Drive a generic array's elements. */
  method Generic(r: Reader) returns (a: Answer<Values>)
    requires r.Valid() && r.implied == None
    modifies r`pos, r`depth, r`implied
    ensures r.Valid() && r.depth == old(r.depth) && r.implied == None
    ensures Agrees(a, r.pos, SeqGeneric(r.data, old(r.pos), old(r.depth)))
  {
    hide WValues, Trees.TreesOf;
    ghost var z;
    var n;
    n, z := r.Size();
    if n.Err? { return Result.Err(n.error); }
    a := Trees.ReadItems(r, n.value);
  }

  /** Drive a complex array's elements. */
  method ComplexRun(r: Reader) returns (a: Answer<Values>)
    requires r.Valid() && r.implied == None
    modifies r`pos, r`depth, r`implied, r`installed
    ensures r.Valid() && r.depth == old(r.depth) && r.implied == None && r.installed == old(r.installed)
    ensures Agrees(a, r.pos, SeqComplex(r.data, old(r.pos), old(r.depth)))
  {
    hide ComplexHead, SizeValue, Run;
    var head :- r.TakeComplexHead();
    if head.2.None? { return Result.Err(ExpectedArray); }
    var class_, width, n := head.0, head.1, head.2.value;
    if n > 0 && IsFloat128(class_) { return Result.Err(UnsupportedFeature); }
    var total := CheckedMul(n, 2 * width);
    if total.None? || r.pos + total.value > |r.data| { return Result.Err(UnexpectedEnd); }
    a := Elements(r, n, ComplexElement(class_));
  }

  /** `n` elements, each reading with the implied header `elem`. */
  method Elements(r: Reader, n: nat, elem: u8) returns (a: Answer<Values>)
    requires r.Valid() && r.implied == None
    modifies r`pos, r`depth, r`implied, r`installed
    ensures r.Valid() && r.depth == old(r.depth) && r.implied == None && r.installed == old(r.installed)
    ensures Agrees(a, r.pos, Run(r.data, old(r.pos), n, elem, old(r.depth)))
  {
    hide WBody, Trees.TreeOf;
    ghost var all := Run(r.data, r.pos, n, elem, r.depth);
    var items: Values := [];
    for i := 0 to n
      invariant r.Valid() && r.depth == old(r.depth) && r.implied == None && r.installed == old(r.installed)
      invariant var rest := Run(r.data, r.pos, n - i, elem, r.depth);
                SameEnd(all, rest) && (all.Ok? ==> all.value == items + rest.value)
    {
      var item :- Implying(r, elem);
      items := items + [item];
    }
    assert items + [] == items;
    return Result.Ok(items);
  }

  /** Drive a typed array's elements. */
  method Typed(r: Reader, h: u8) returns (a: Answer<Values>)
    requires r.Valid() && r.implied == None
    modifies r`pos, r`depth, r`implied, r`installed
    ensures r.Valid() && r.depth == old(r.depth) && r.implied == None && r.installed == old(r.installed)
    ensures Agrees(a, r.pos, SeqTyped(r.data, old(r.pos), h, old(r.depth)))
  {
    hide TypedHead, Run, SizeValue, PackedBools.Unpack;
    var form :- r.TakeTypedHead(h);
    match form {
      case Bools(n) =>
        BoolsPresent(r.data, old(r.pos), h);
        a := PackedElements(r, n);
      case Strings(n) => a := Elements(r, n, STRING);
      case Fixed(elem, n) =>
        if n > 0 && IsFloat128(elem) { return Result.Err(UnsupportedFeature); }
        var total := CheckedMul(n, FixedWidth(elem).value);
        if total.None? || r.pos + total.value > |r.data| { return Result.Err(UnexpectedEnd); }
        a := Elements(r, n, ElementOf(elem));
    }
  }

  lemma BoolsPresent(d: Bytes, p: nat, h: u8)
    ensures var o := TypedHead(d, p, h); o.Ok? && o.value.Bools? ==> o.pos + DivCeil8(o.value.Count()) <= |d|
  {
  }

  /** Booleans, read out of the payload in place; the cursor moves once the run is done. */
  method PackedElements(r: Reader, n: nat) returns (a: Answer<Values>)
    requires r.Valid() && r.implied == None && r.pos + DivCeil8(n) <= |r.data|
    modifies r`pos, r`depth, r`implied, r`installed
    ensures r.Valid() && r.depth == old(r.depth) && r.implied == None && r.installed == old(r.installed)
    ensures var base := old(r.pos);
            a == Result.Ok(Trees.Bools(PackedBools.Unpack(n, r.data[base..base + DivCeil8(n)]))) && r.pos == base + DivCeil8(n)
  {
    var base := r.pos;
    var items: Values := [];
    ghost var all := Trees.Bools(PackedBools.Unpack(n, r.data[base..base + DivCeil8(n)]));
    for i := 0 to n
      invariant r.Valid() && r.depth == old(r.depth) && r.implied == None && r.installed == old(r.installed)
      invariant r.pos == base && items == all[..i]
    {
      var bit := PackedBools.BitAt(r.data[base + i / 8], i % 8);
      var item := Implying(r, if bit then TRUE else FALSE);
      assert all[i] == Trees.Bool(bit);
      items := items + [item.value];
    }
    r.pos := base + DivCeil8(n);
    assert all[..n] == all;
    return Result.Ok(items);
  }

  // ---------------------------------------------------------------------
  // Against the tree
  // ---------------------------------------------------------------------

  /** A sequence read succeeds exactly when the tree read does and finds an array it can take
      apart; then both find the same items and end at the same byte. */
  predicate Matches(s: Out<Values>, o: Out<Node>) {
    && (o.Ok? && o.value.Cpx? && !o.value.pre.One? ==> o.value.pre.z != [])
    && s.Ok? == (o.Ok? && ItemsOf(o.value).Some?)
    && (s.Ok? ==> s.value == ItemsOf(o.value).value && s.pos == o.pos)
  }

  lemma SeqIsTree(d: Bytes, p: nat, depth: nat)
    ensures Matches(SeqRead(d, p, depth), WValue(Build, d, p, depth))
  {
    hide WArray, WTyped, WObject, WMatrix, WText, WComplex, WValue, Trees.TreesOf, Trees.BoolItems, SeqTyped, SeqGeneric, SeqComplex;
    if p >= |d| {
      SeekTheorems.ValueIsBody(d, p, depth);
    } else {
      var h := d[p];
      HeadDecides(d, p, depth);
      if h == COMPLEX {
        ComplexMatches(d, p + 1, depth);
      } else if Ty(h) == TY_GENERIC_ARRAY && depth < MAX_DEPTH {
        GenericMatches(d, p + 1, depth);
      } else if Ty(h) == TY_TYPED_ARRAY && depth < MAX_DEPTH {
        TypedMatches(d, p + 1, h, depth + 1);
      }
    }
  }

  lemma GenericMatches(d: Bytes, p: nat, depth: nat)
    requires p <= |d| && depth < MAX_DEPTH
    ensures Matches(SeqGeneric(d, p, depth + 1), WArray(Build, d, p, depth))
  {
    hide WValues, Trees.TreesOf, SizeField, SizeValue;
  }

  lemma ComplexMatches(d: Bytes, p: nat, depth: nat)
    requires p <= |d|
    ensures Matches(SeqComplex(d, p, depth), WComplex(Build, d, p))
  {
    hide ComplexHead, AllRepresentable, SizeValue, WBody;
    var pre := ComplexHead(d, p);
    if pre.Ok? && !pre.value.One? {
      var class_, n := pre.value.class_, pre.value.Pairs();
      if n == 0 { NothingToRead(d, pre.pos, class_, 2 * FixedWidth(class_).value); } else { NoTreeOfPair(class_, d, pre.pos, depth); }
    }
  }

  lemma TypedMatches(d: Bytes, p: nat, h: u8, depth: nat)
    requires p <= |d|
    ensures Matches(SeqTyped(d, p, h, depth), WTyped(Build, d, p, h))
  {
    hide TypedHead, WTexts, Run, WBlock, Trees.Numbers, Trees.Strings, SizeValue, PackedBools.Unpack;
    var form := TypedHead(d, p, h);
    if form.Err? { return; }
    var n, q := form.value.Count(), form.pos;
    if form.value.Bools? {
      BoolsPresent(d, p, h);
    } else if form.value.Strings? {
      TextRun(d, q, n, depth);
    } else {
      BlockMatches(d, q, form.value.h, n, depth);
    }
  }

  lemma BlockMatches(d: Bytes, p: nat, h: u8, n: nat, depth: nat)
    requires p <= |d| && FixedWidth(h).Some?
    ensures var s, w := SeqBlock(d, p, h, n, FixedWidth(h).value, ElementOf(h), depth), WBlock(Build, d, p, h, n, FixedWidth(h).value);
            s.Ok? == w.Ok? && (s.Ok? ==> s.pos == w.pos && s.value == Trees.Numbers(h, FixedWidth(h).value, w.value))
  {
    var width := FixedWidth(h).value;
    if n > 0 && IsFloat128(h) {
      Refused(d, p, h, n);
    } else if CheckedMul(n, width).None? || p + n * width > |d| {
      Short(d, p, h, n);
    } else {
      NumberRun(d, p, h, n, depth);
    }
    hide Run, WBlock;
  }

  /** A run of one complex number: a tree of it holds the pair, and a sequence of trees fails on
      it, at the payload. */
  lemma OnePair()
    ensures var d := [COMPLEX, PAIR_CLASS, 4, 1, 2];
            && WValue(Build, d, 0, 0).Ok?
            && Trees.TreeOf(WValue(Build, d, 0, 0).value) ==
                 Trees.Array([Trees.Array([Trees.Value.Num(Trees.Int(1)), Trees.Value.Num(Trees.Int(2))])])
            && SeqRead(d, 0, 0) == Out.Err(InvalidHeader, 3)
  {
    var d: Bytes := [COMPLEX, PAIR_CLASS, 4, 1, 2];
    var pre := Many(PAIR_CLASS, [4]);
    var payload: Bytes := [1, 2];
    OnePairHead(d);
    HeadDecides(d, 0, 0);
    NoTreeOfPair(PAIR_CLASS, d, 3, 0);
    assert d[3..5] == payload;
    OnePairFits(payload);
    hide ComplexHead, AllRepresentable, Representable, WValue, WBody;
    assert WComplex(Build, d, 1) == Out.Ok(Cpx(pre, payload), 5);
    OnePairTree(payload);
  }

  /** The class header of unsigned bytes in a run. */
  const PAIR_CLASS: u8 := 17

  lemma OneByteNumbers()
    ensures LittleEndian([1]) == 1 && LittleEndian([2]) == 2
    ensures Trees.NumberOf(PAIR_CLASS, [1]) == Trees.Int(1) && Trees.NumberOf(PAIR_CLASS, [2]) == Trees.Int(2)
  {
    var one: Bytes, two: Bytes := [1], [2];
    assert one[1..] == [] && two[1..] == [];
  }

  lemma OnePairHead(d: Bytes)
    requires d == [COMPLEX, PAIR_CLASS, 4, 1, 2]
    ensures ComplexHead(d, 1) == Out.Ok(Many(PAIR_CLASS, [4]), 3) && SizeValue([4]) == 1
  {
    assert d[2..3] == [4];
    var z: Bytes := [4];
    assert LittleEndian(z[1..]) == 0;
  }

  lemma OnePairFits(payload: Bytes)
    requires payload == [1, 2]
    ensures AllRepresentable(PAIR_CLASS, 1, payload)
  {
    OneByteNumbers();
    var rest: Bytes := [2];
    assert payload[..1] == [1] && payload[1..] == rest && rest[..1] == rest && rest[1..] == [];
    assert AllRepresentable(PAIR_CLASS, 1, rest);
  }

  lemma OnePairTree(payload: Bytes)
    requires payload == [1, 2]
    ensures Trees.TreeOf(Cpx(Many(PAIR_CLASS, [4]), payload)) ==
            Trees.Array([Trees.Array([Trees.Value.Num(Trees.Int(1)), Trees.Value.Num(Trees.Int(2))])])
  {
    hide Trees.NumberOf, LittleEndian;
    OneByteNumbers();
    assert payload[..2] == payload && payload[2..] == [];
    assert payload[..1] == [1] && payload[1..] == [2];
    assert payload[1..][..1] == [2] && payload[1..][1..] == [];
    assert Trees.Numbers(PAIR_CLASS, 1, payload[1..][1..]) == [];
    assert Trees.Numbers(PAIR_CLASS, 1, payload[1..]) == [Trees.Value.Num(Trees.Int(2))];
    assert Trees.Numbers(PAIR_CLASS, 1, payload) == [Trees.Value.Num(Trees.Int(1)), Trees.Value.Num(Trees.Int(2))];
    assert Trees.Pairs(PAIR_CLASS, 1, payload[2..]) == [];
  }

  /** What kind of value a header introduces, as far as reading a sequence asks. */
  lemma HeadDecides(d: Bytes, p: nat, depth: nat)
    requires p < |d|
    ensures var o, h := WValue(Build, d, p, depth), d[p];
            && (h == COMPLEX ==> o == WComplex(Build, d, p + 1))
            && (Ty(h) == TY_GENERIC_ARRAY && BareHeader(h) ==> o == WArray(Build, d, p + 1, depth))
            && (Ty(h) == TY_GENERIC_ARRAY && (!BareHeader(h) || depth >= MAX_DEPTH) ==> o.Err?)
            && (Ty(h) == TY_TYPED_ARRAY ==>
                  o == if depth >= MAX_DEPTH then Out.Err(ExceededMaxDepth, p + 1) else WTyped(Build, d, p + 1, h))
    ensures var o, h := WValue(Build, d, p, depth), d[p];
            h != COMPLEX && Ty(h) != TY_GENERIC_ARRAY && Ty(h) != TY_TYPED_ARRAY && o.Ok? ==>
              o.value.Atom? || o.value.Num? || o.value.Str? || o.value.Obj? || o.value.Mat?
  {
    hide WValue, WBody, WComplex, WArray, WTyped;
    SeekTheorems.ValueIsBody(d, p, depth);
    BodyDecides(d, p + 1, d[p], depth);
    var h := d[p];
    if h != COMPLEX && Ty(h) != TY_GENERIC_ARRAY && Ty(h) != TY_TYPED_ARRAY && WBody(Build, d, p + 1, h, depth).Ok? {
      BodyKind(d, p + 1, h, depth);
    }
  }

  lemma BodyDecides(d: Bytes, p: nat, h: u8, depth: nat)
    requires p <= |d|
    ensures var o := WBody(Build, d, p, h, depth);
            && (h == COMPLEX ==> o == WComplex(Build, d, p))
            && (Ty(h) == TY_GENERIC_ARRAY && BareHeader(h) ==> o == WArray(Build, d, p, depth))
            && (Ty(h) == TY_GENERIC_ARRAY && (!BareHeader(h) || depth >= MAX_DEPTH) ==> o.Err?)
            && (Ty(h) == TY_TYPED_ARRAY ==>
                  o == if depth >= MAX_DEPTH then Out.Err(ExceededMaxDepth, p) else WTyped(Build, d, p, h))
  {
    hide WValues, WObject, WNum, WText, WMatrix, WComplex, WTyped, SizeField;
  }

  lemma BodyKind(d: Bytes, p: nat, h: u8, depth: nat)
    requires p <= |d| && WBody(Build, d, p, h, depth).Ok?
    requires h != COMPLEX && Ty(h) != TY_GENERIC_ARRAY && Ty(h) != TY_TYPED_ARRAY
    ensures var n := WBody(Build, d, p, h, depth).value; n.Atom? || n.Num? || n.Str? || n.Obj? || n.Mat?
  {
    hide WMembers, WText, WExtension, SizeField, Take, FixedWidth, Representable;
    if Ty(h) == TY_EXTENSION {
      MatrixKind(d, p, h, depth);
      assert WBody(Build, d, p, h, depth) == WExtension(Build, d, p, h, depth);
    }
  }

  lemma MatrixKind(d: Bytes, p: nat, h: u8, depth: nat)
    requires p <= |d| && Ty(h) == TY_EXTENSION && h != COMPLEX
    ensures WExtension(Build, d, p, h, depth).Ok? ==> WExtension(Build, d, p, h, depth).value.Mat?
  {
    hide WValue, WComplex;
    assert h == ExtId(h) * 8 + Ty(h);
  }

  lemma NothingToRead(d: Bytes, p: nat, h: u8, width: nat)
    requires FixedWidth(h).Some? && p <= |d|
    ensures WBlock(Build, d, p, h, 0, width) == Out.Ok([], p)
  {
    assert d[p..p] == [];
  }

  lemma NoTreeOfPair(class_: u8, d: Bytes, p: nat, depth: nat)
    requires p <= |d|
    ensures WBody(Build, d, p, ComplexElement(class_), depth) == Out.Err(InvalidHeader, p)
  {
    hide WObject, WArray, WTyped, WExtension, WNum, WText;
    assert Ty(ComplexElement(class_)) == TY_UNDEFINED;
  }

  // ---------------------------------------------------------------------
  // A run of elements and the block they make up
  // ---------------------------------------------------------------------

  lemma {:induction false} TextRun(d: Bytes, p: nat, n: nat, depth: nat)
    requires p <= |d|
    ensures var o, w := Run(d, p, n, STRING, depth), WTexts(Build, d, p, n);
            o.Ok? == w.Ok? && (o.Ok? ==> o.pos == w.pos && o.value == Trees.Strings(w.value))
    decreases n
  {
    hide WText;
    if n > 0 {
      StringBody(d, p, depth);
      var t := WText(Build, d, p);
      if t.Ok? {
        TextRun(d, t.pos, n - 1, depth);
        var w := WTexts(Build, d, p, n);
        if w.Ok? { assert w.value[1..] == WTexts(Build, d, t.pos, n - 1).value; }
      }
    }
  }

  lemma StringBody(d: Bytes, p: nat, depth: nat)
    requires p <= |d|
    ensures var o, t := WBody(Build, d, p, STRING, depth), WText(Build, d, p);
            o.Ok? == t.Ok? && (o.Ok? ==> o.pos == t.pos && Trees.TreeOf(o.value) == Trees.String(t.value.text))
  {
    hide WText;
  }

  lemma Refused(d: Bytes, p: nat, h: u8, n: nat)
    requires p <= |d| && FixedWidth(h).Some? && n > 0 && IsFloat128(h)
    ensures WBlock(Build, d, p, h, n, FixedWidth(h).value).Err?
  {
  }

  lemma Short(d: Bytes, p: nat, h: u8, n: nat)
    requires p <= |d| && FixedWidth(h).Some?
    requires CheckedMul(n, FixedWidth(h).value).None? || p + n * FixedWidth(h).value > |d|
    ensures WBlock(Build, d, p, h, n, FixedWidth(h).value).Err?
  {
  }

  /** Numbers read one at a time are the block's, and are all there is to refuse in it. */
  lemma NumberRun(d: Bytes, p: nat, h: u8, n: nat, depth: nat)
    requires FixedWidth(h).Some? && p + n * FixedWidth(h).value <= |d| && (n > 0 ==> !IsFloat128(h))
    requires CheckedMul(n, FixedWidth(h).value).Some?
    ensures var o, w := Run(d, p, n, ElementOf(h), depth), WBlock(Build, d, p, h, n, FixedWidth(h).value);
            o.Ok? == w.Ok? && (o.Ok? ==> o.pos == w.pos && o.value == Trees.Numbers(h, FixedWidth(h).value, w.value))
  {
    hide Run, AllRepresentable, Trees.Numbers;
    NumbersFrom(d, p, h, n, depth, d[p..p + n * FixedWidth(h).value]);
  }

  lemma {:induction false} NumbersFrom(d: Bytes, p: nat, h: u8, n: nat, depth: nat, payload: Bytes)
    requires FixedWidth(h).Some? && |payload| == n * FixedWidth(h).value && (n > 0 ==> !IsFloat128(h))
    requires p + |payload| <= |d| && d[p..p + |payload|] == payload
    ensures var o, w := Run(d, p, n, ElementOf(h), depth), FixedWidth(h).value;
            && o.Ok? == AllRepresentable(h, w, payload)
            && (o.Ok? ==> o.pos == p + |payload| && o.value == Trees.Numbers(h, w, payload))
    decreases n
  {
    hide WBody, AllRepresentable, Trees.Numbers, Trees.NumberOf, Representable, ByteWidth, ElementOf;
    var w := FixedWidth(h).value;
    if n == 0 {
      NoElements(h, w);
    } else {
      SeekTheorems.ChunkFits(w, n, 0);
      NumberBody(d, p, h, depth);
      SeekTheorems.SliceOfSlice(d, p, |payload|, 0, w);
      SeekTheorems.SliceOfSlice(d, p, |payload|, w, |payload| - w);
      var rest := payload[w..];
      Trees.OneLess(n, w);
      FirstElement(h, w, payload);
      hide Run;
      FirstOfRun(d, p, n, ElementOf(h), depth);
      NumbersFrom(d, p + w, h, n - 1, depth, rest);
    }
  }

  lemma NoElements(h: u8, w: nat)
    requires w > 0
    ensures AllRepresentable(h, w, []) && Trees.Numbers(h, w, []) == []
  {
  }

  lemma FirstElement(h: u8, w: nat, payload: Bytes)
    requires w > 0 && |payload| >= w
    ensures AllRepresentable(h, w, payload) == (Representable(h, payload[..w]) && AllRepresentable(h, w, payload[w..]))
    ensures Trees.Numbers(h, w, payload)
            == [Trees.Value.Num(Trees.NumberOf(h, payload[..w]))] + Trees.Numbers(h, w, payload[w..])
  {
  }

  lemma FirstOfRun(d: Bytes, p: nat, n: nat, elem: u8, depth: nat)
    requires p <= |d| && n > 0
    ensures var x, o := WBody(Build, d, p, elem, depth), Run(d, p, n, elem, depth);
            if x.Err? then o.Err?
            else
              var rest := Run(d, x.pos, n - 1, elem, depth);
              o.Ok? == rest.Ok? && (o.Ok? ==> o == Out.Ok([Trees.TreeOf(x.value)] + rest.value, rest.pos))
  {
    hide WBody, Trees.TreeOf;
  }

  lemma NumberBody(d: Bytes, p: nat, h: u8, depth: nat)
    requires FixedWidth(h).Some? && !IsFloat128(h) && p + FixedWidth(h).value <= |d|
    ensures var o, chunk := WBody(Build, d, p, ElementOf(h), depth), d[p..p + FixedWidth(h).value];
            && o.Ok? == Representable(h, chunk)
            && (o.Ok? ==> o.pos == p + |chunk| && Trees.TreeOf(o.value) == Trees.Value.Num(Trees.NumberOf(h, chunk)))
  {
    hide Representable, Trees.NumberOf;
    SeekTheorems.ElementFields(h);
    var chunk := d[p..p + FixedWidth(h).value];
    SeekTheorems.SameNumber(h, chunk);
    SeekTheorems.SameNumberOf(h, chunk);
  }
}

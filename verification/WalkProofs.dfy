/** The walks accept exactly the encodings of well-formed values.

    `Accepted` reads a value off what a walk consumed; `Walked` runs a walk over what a
    value encodes to. Between them they decide, for every mode, every document and every
    starting depth, which byte strings are taken and where each ends. */
module WalkProofs {
  import opened Bits
  import opened Wrappers
  import opened Headers
  import opened Wire
  import opened Grammar
  import opened Walks

  /** The bytes of `d` from `p` to `e` are `b`. */
  predicate Spans(d: Bytes, p: nat, b: Bytes, e: nat) {
    p + |b| == e <= |d| && d[p..e] == b
  }

  lemma SpanCat(d: Bytes, p: nat, a: Bytes, q: nat, b: Bytes, e: nat)
    requires Spans(d, p, a, q) && Spans(d, q, b, e)
    ensures Spans(d, p, a + b, e)
  {
  }

  lemma SpanSplit(d: Bytes, p: nat, a: Bytes, b: Bytes, e: nat)
    requires Spans(d, p, a + b, e)
    ensures Spans(d, p, a, p + |a|) && Spans(d, p + |a|, b, e)
  {
    assert d[p..p + |a|] == (a + b)[..|a|];
    assert d[p + |a|..e] == (a + b)[|a|..];
  }

  lemma SpanHead(d: Bytes, p: nat, h: u8)
    requires p < |d|
    ensures Spans(d, p, [h], p + 1) <==> d[p] == h
  {
    assert d[p..p + 1] == [d[p]];
  }

  lemma HeaderFields(h: u8)
    ensures h == CountOf(h) * 32 + Sub(h) * 8 + Ty(h)
    ensures h == ExtId(h) * 8 + Ty(h)
  {
  }

  // ---------------------------------------------------------------------
  // From a walk to a value: the primitives
  // ---------------------------------------------------------------------

  lemma AcceptedSize(d: Bytes, p: nat)
    requires SizeField(d, p).Ok?
    ensures var r := SizeField(d, p); Spans(d, p, r.value, r.pos)
  {
  }

  lemma AcceptedText(m: Mode, d: Bytes, p: nat)
    requires WText(m, d, p).Ok?
    ensures var r := WText(m, d, p);
            Spans(d, p, EncodeText(r.value), r.pos) && TextFits(r.value) && TextOk(m, r.value)
  {
    AcceptedSize(d, p);
    var r, z := WText(m, d, p), SizeField(d, p);
    SpanCat(d, p, z.value, z.pos, r.value.text, r.pos);
  }

  lemma {:induction false} AcceptedTexts(m: Mode, d: Bytes, p: nat, n: nat)
    requires p <= |d| && WTexts(m, d, p, n).Ok?
    ensures var r := WTexts(m, d, p, n);
            && Spans(d, p, EncodeTexts(r.value), r.pos) && |r.value| == n && TextsFit(r.value)
            && TextsOk(m, r.value)
    decreases n
  {
    if n > 0 {
      AcceptedText(m, d, p);
      var t := WText(m, d, p);
      AcceptedTexts(m, d, t.pos, n - 1);
      var r := WTexts(m, d, p, n);
      assert r.value[1..] == WTexts(m, d, t.pos, n - 1).value;
      SpanCat(d, p, EncodeText(t.value), t.pos, EncodeTexts(r.value[1..]), r.pos);
    }
  }

  lemma AcceptedPadding(d: Bytes, p: nat, width: nat)
    requires Padding(d, p, width).Ok? && width <= 16
    ensures var r := Padding(d, p, width);
            |r.value| < width && Spans(d, p, [|r.value|] + r.value, r.pos)
  {
    var r := Padding(d, p, width);
    SpanHead(d, p, d[p]);
    assert d[p..p + 1] == [d[p]];
    SpanCat(d, p, [d[p]], p + 1, r.value, r.pos);
  }

  lemma AcceptedAlignedHead(d: Bytes, p: nat)
    requires AlignedHead(d, p).Ok?
    ensures var r := AlignedHead(d, p);
            && Ty(r.value.0) == TY_TYPED_ARRAY && Sub(r.value.0) != CAT_OTHER
            && |r.value.2| < FixedWidth(r.value.0).value
            && Spans(d, p, [r.value.0] + (r.value.1 + ([|r.value.2|] + r.value.2)), r.pos)
  {
    var r := AlignedHead(d, p);
    var z := SizeField(d, p + 1);
    AcceptedSize(d, p + 1);
    AcceptedPadding(d, z.pos, FixedWidth(r.value.0).value);
    SpanHead(d, p, d[p]);
    var padding := [|r.value.2|] + r.value.2;
    SpanCat(d, p + 1, r.value.1, z.pos, padding, r.pos);
    SpanCat(d, p, [r.value.0], p + 1, r.value.1 + padding, r.pos);
  }

  lemma AcceptedPreamble(d: Bytes, p: nat, h: u8)
    requires Preamble(d, p, h).Ok? && Ty(h) == TY_TYPED_ARRAY
    ensures var r := Preamble(d, p, h);
            && OuterHeader(r.value) == h
            && (r.value.Aligned? ==> |r.value.pad| < FixedWidth(r.value.h).value <= 16)
            && (r.value.Plain? || r.value.Aligned? ==> Ty(r.value.h) == TY_TYPED_ARRAY && Sub(r.value.h) != CAT_OTHER)
            && Spans(d, p, EncodePreamble(r.value), r.pos)
  {
    HeaderFields(h);
    if Sub(h) == CAT_OTHER && CountOf(h) == OTHER_ALIGNED {
      AcceptedAlignedHead(d, p);
    } else {
      AcceptedSize(d, p);
    }
  }

  lemma AcceptedAlignedPairs(d: Bytes, p: nat, class_: u8, width: nat)
    requires AlignedPairs(d, p, class_, width).Ok? && width <= 16
    ensures var r := AlignedPairs(d, p, class_, width);
            && |r.value.1| < width
            && Spans(d, p, [ALIGNED_ARRAY] + ([ComplexComponents(class_)] + (r.value.0 + ([|r.value.1|] + r.value.1))), r.pos)
  {
    var r := AlignedPairs(d, p, class_, width);
    var z := SizeField(d, p + 2);
    AcceptedSize(d, p + 2);
    AcceptedPadding(d, z.pos, width);
    SpanHead(d, p, d[p]);
    SpanHead(d, p + 1, d[p + 1]);
    var padding := [|r.value.1|] + r.value.1;
    SpanCat(d, p + 2, r.value.0, z.pos, padding, r.pos);
    SpanCat(d, p + 1, [ComplexComponents(class_)], p + 2, r.value.0 + padding, r.pos);
    SpanCat(d, p, [ALIGNED_ARRAY], p + 1, [ComplexComponents(class_)] + (r.value.0 + padding), r.pos);
  }

  lemma AcceptedComplexHead(d: Bytes, p: nat)
    requires ComplexHead(d, p).Ok?
    ensures var r := ComplexHead(d, p);
            && (r.value.AlignedMany? ==> |r.value.pad| < FixedWidth(r.value.class_).value <= 16 && SizeValue(r.value.z) % 2 == 0)
            && Ty(r.value.class_) == (if r.value.One? then COMPLEX_ONE else if r.value.Many? then COMPLEX_MANY else COMPLEX_ALIGNED)
            && Spans(d, p, EncodeComplexHead(r.value), r.pos)
  {
    var r := ComplexHead(d, p);
    var c := d[p];
    SpanHead(d, p, c);
    if Ty(c) == COMPLEX_MANY {
      AcceptedSize(d, p + 1);
      SpanCat(d, p, [c], p + 1, r.value.z, r.pos);
    } else if Ty(c) == COMPLEX_ALIGNED {
      AcceptedAlignedPairs(d, p + 1, c, FixedWidth(c).value);
      var rest := [ALIGNED_ARRAY] + ([ComplexComponents(c)] + (r.value.z + ([|r.value.pad|] + r.value.pad)));
      SpanCat(d, p, [c], p + 1, rest, r.pos);
    }
  }

  // ---------------------------------------------------------------------
  // From a walk to a value
  // ---------------------------------------------------------------------

  /** What a successful walk from depth `depth` says of the value it walked. */
  ghost predicate Taken(m: Mode, d: Bytes, p: nat, depth: nat, h: u8, r: Out<Node>)
    requires r.Ok?
  {
    && WellFormed(r.value) && HeaderOf(r.value) == h
    && Spans(d, p, EncodeBody(r.value), r.pos)
    && depth + Nesting(r.value) <= MAX_DEPTH
    && Accepts(m, r.value)
  }

  lemma AcceptedElements(m: Mode, d: Bytes, p: nat, form: TypedPreamble)
    requires p <= |d| && IsSizeField(form.z)
    requires form.Plain? || form.Aligned? ==>
               FixedWidth(form.h).Some? && Ty(form.h) == TY_TYPED_ARRAY && Sub(form.h) != CAT_OTHER
    requires WElements(m, d, p, form).Ok?
    requires form.Aligned? ==> |form.pad| < FixedWidth(form.h).value
    requires form.Bools? ==>
               var bytes := DivCeil8(form.Count());
               p + bytes <= |d| && (bytes > 0 ==> BoolPaddingOk(form.Count(), d[p + bytes - 1]))
    ensures var r := WElements(m, d, p, form);
            && WellFormed(r.value) && HeaderOf(r.value) == OuterHeader(form)
            && Nesting(r.value) == 1 && Accepts(m, r.value)
            && exists payload | Spans(d, p, payload, r.pos) :: EncodeBody(r.value) == EncodePreamble(form) + payload
  {
    var r := WElements(m, d, p, form);
    if form.Bools? {
      assert Spans(d, p, r.value.payload, r.pos);
    } else if form.Strings? {
      AcceptedTexts(m, d, p, form.Count());
      assert Spans(d, p, EncodeTexts(r.value.texts), r.pos);
    } else {
      assert Spans(d, p, r.value.payload, r.pos);
    }
  }

  lemma AcceptedTyped(m: Mode, d: Bytes, p: nat, h: u8, depth: nat)
    requires WTyped(m, d, p, h).Ok? && Ty(h) == TY_TYPED_ARRAY && depth < MAX_DEPTH
    ensures Taken(m, d, p, depth, h, WTyped(m, d, p, h))
  {
    hide Preamble, WElements, SizeValue, WellFormed, Accepts, Nesting;
    AcceptedPreamble(d, p, h);
    var form, r := TypedHead(d, p, h), WTyped(m, d, p, h);
    AcceptedElements(m, d, form.pos, form.value);
    var payload :| Spans(d, form.pos, payload, r.pos) && EncodeBody(r.value) == EncodePreamble(form.value) + payload;
    SpanCat(d, p, EncodePreamble(form.value), form.pos, payload, r.pos);
  }

  lemma AcceptedComplex(m: Mode, d: Bytes, p: nat, depth: nat)
    requires WComplex(m, d, p).Ok? && depth <= MAX_DEPTH
    ensures Taken(m, d, p, depth, COMPLEX, WComplex(m, d, p))
  {
    hide ComplexHead, EncodeComplexHead, SizeValue, FixedWidth, AllRepresentable;
    AcceptedComplexHead(d, p);
    var pre, r := ComplexHead(d, p), WComplex(m, d, p);
    SpanCat(d, p, EncodeComplexHead(pre.value), pre.pos, r.value.payload, r.pos);
  }

  lemma {:induction false} AcceptedBody(m: Mode, d: Bytes, p: nat, h: u8, depth: nat)
    requires p <= |d| && depth <= MAX_DEPTH && WBody(m, d, p, h, depth).Ok?
    ensures Taken(m, d, p, depth, h, WBody(m, d, p, h, depth))
    decreases |d| - p, 0, 2
  {
    hide WObject, WTyped, WArray, WExtension, WText;
    HeaderFields(h);
    if Ty(h) == TY_STRING {
      AcceptedText(m, d, p);
    } else if Ty(h) == TY_OBJECT {
      AcceptedObject(m, d, p, h, depth);
    } else if Ty(h) == TY_TYPED_ARRAY {
      AcceptedTyped(m, d, p, h, depth);
    } else if Ty(h) == TY_GENERIC_ARRAY {
      AcceptedArray(m, d, p, depth);
    } else if Ty(h) == TY_EXTENSION {
      AcceptedExtension(m, d, p, h, depth);
    }
  }

  lemma {:induction false} AcceptedObject(m: Mode, d: Bytes, p: nat, h: u8, depth: nat)
    requires p <= |d| && depth <= MAX_DEPTH && Ty(h) == TY_OBJECT && WObject(m, d, p, h, depth).Ok?
    ensures Taken(m, d, p, depth, h, WObject(m, d, p, h, depth))
    decreases |d| - p, 0, 0
  {
    hide SizeField, WMembers, SizeValue, EncodeMembers, AcceptsMembers, MembersWellFormed, MemberNesting;
    var z, r := SizeField(d, p), WObject(m, d, p, h, depth);
    AcceptedSize(d, p);
    AcceptedMembers(m, d, z.pos, h, SizeValue(z.value), depth + 1);
    SpanCat(d, p, z.value, z.pos, EncodeMembers(h, r.value.members), r.pos);
  }

  lemma {:induction false} AcceptedArray(m: Mode, d: Bytes, p: nat, depth: nat)
    requires p <= |d| && depth <= MAX_DEPTH && WArray(m, d, p, depth).Ok?
    ensures Taken(m, d, p, depth, GENERIC_ARRAY, WArray(m, d, p, depth))
    decreases |d| - p, 0, 0
  {
    hide SizeField, WValues, SizeValue, EncodeAll, AcceptsAll, AllWellFormed, AllNesting;
    var z, r := SizeField(d, p), WArray(m, d, p, depth);
    AcceptedSize(d, p);
    AcceptedValues(m, d, z.pos, SizeValue(z.value), depth + 1);
    SpanCat(d, p, z.value, z.pos, EncodeAll(r.value.items), r.pos);
  }

  lemma {:induction false} AcceptedExtension(m: Mode, d: Bytes, p: nat, h: u8, depth: nat)
    requires p <= |d| && depth <= MAX_DEPTH && Ty(h) == TY_EXTENSION && WExtension(m, d, p, h, depth).Ok?
    ensures Taken(m, d, p, depth, h, WExtension(m, d, p, h, depth))
    decreases |d| - p, 0, 1
  {
    hide WTagged, WMatrix, WComplex, Taken;
    HeaderFields(h);
    if ExtId(h) == EXT_TYPE_TAG {
      AcceptedTagged(m, d, p, depth);
    } else if ExtId(h) == EXT_MATRIX {
      AcceptedMatrix(m, d, p, depth);
    } else {
      AcceptedComplex(m, d, p, depth);
    }
  }

  lemma {:induction false} AcceptedTagged(m: Mode, d: Bytes, p: nat, depth: nat)
    requires p <= |d| && depth <= MAX_DEPTH && !m.Decodes() && WTagged(m, d, p, depth).Ok?
    ensures Taken(m, d, p, depth, TYPE_TAG, WTagged(m, d, p, depth))
    decreases |d| - p, 0, 0
  {
    var z, r := SizeField(d, p), WTagged(m, d, p, depth);
    AcceptedSize(d, p);
    AcceptedValue(m, d, z.pos, depth + 1);
    SpanCat(d, p, z.value, z.pos, Encode(r.value.value), r.pos);
  }

  lemma {:induction false} AcceptedMatrix(m: Mode, d: Bytes, p: nat, depth: nat)
    requires p <= |d| && depth <= MAX_DEPTH && WMatrix(m, d, p, depth).Ok?
    ensures Taken(m, d, p, depth, MATRIX, WMatrix(m, d, p, depth))
    decreases |d| - p, 0, 0
  {
    hide Spans, WValue, WBody, Encode, EncodeBody, WellFormed, Accepts, Nesting;
    var extents := WValue(m, d, p + 1, depth + 1);
    AcceptedValue(m, d, p + 1, depth + 1);
    AcceptedValue(m, d, extents.pos, depth + 1);
    SpanHead(d, p, d[p]);
    var r := WMatrix(m, d, p, depth);
    var mat := r.value;
    MatIs(m, mat);
    SpanCat(d, p + 1, Encode(mat.extents), extents.pos, Encode(mat.value), r.pos);
    SpanCat(d, p, [mat.layout], p + 1, Encode(mat.extents) + Encode(mat.value), r.pos);
  }

  /** What is said of a matrix, by its parts. */
  lemma MatIs(m: Mode, n: Node)
    requires n.Mat?
    ensures WellFormed(n) <==> WellFormed(n.extents) && WellFormed(n.value)
    ensures WellFormed(n) ==>
              && (Accepts(m, n) <==> (m.Decodes() ==> n.layout == LAYOUT_RIGHT || n.layout == LAYOUT_LEFT)
                                     && Accepts(m, n.extents) && Accepts(m, n.value))
              && EncodeBody(n) == [n.layout] + (Encode(n.extents) + Encode(n.value))
    ensures Nesting(n) == 1 + Max(Nesting(n.extents), Nesting(n.value)) && HeaderOf(n) == MATRIX
  {
  }

  /** A walk that succeeds has walked a well-formed value the mode takes, of just the bytes
      it consumed, nested no deeper than there was room for. */
  lemma {:induction false} AcceptedValue(m: Mode, d: Bytes, p: nat, depth: nat)
    requires depth <= MAX_DEPTH && WValue(m, d, p, depth).Ok?
    ensures var r := WValue(m, d, p, depth);
            && WellFormed(r.value) && Spans(d, p, Encode(r.value), r.pos)
            && depth + Nesting(r.value) <= MAX_DEPTH && Accepts(m, r.value)
    decreases |d| - p, 1, 0
  {
    var r := WValue(m, d, p, depth);
    AcceptedBody(m, d, p + 1, d[p], depth);
    SpanHead(d, p, d[p]);
    SpanCat(d, p, [d[p]], p + 1, EncodeBody(r.value), r.pos);
  }

  lemma {:induction false} AcceptedValues(m: Mode, d: Bytes, p: nat, n: nat, depth: nat)
    requires p <= |d| && depth <= MAX_DEPTH && WValues(m, d, p, n, depth).Ok?
    ensures var r := WValues(m, d, p, n, depth);
            && |r.value| == n && AllWellFormed(r.value) && Spans(d, p, EncodeAll(r.value), r.pos)
            && depth + AllNesting(r.value) <= MAX_DEPTH && AcceptsAll(m, r.value)
    decreases |d| - p, 2, n
  {
    hide WValue, WellFormed, Accepts, Nesting, Encode;
    if n > 0 {
      var x, r := WValue(m, d, p, depth), WValues(m, d, p, n, depth);
      AcceptedValue(m, d, p, depth);
      AcceptedValues(m, d, x.pos, n - 1, depth);
      assert r.value[1..] == WValues(m, d, x.pos, n - 1, depth).value;
      SpanCat(d, p, Encode(x.value), x.pos, EncodeAll(r.value[1..]), r.pos);
    }
  }

  lemma AcceptedKey(m: Mode, d: Bytes, p: nat, h: u8, x: Node)
    requires p <= |d| && KeyWidth(h).Some? && WKey(m, d, p, h).Ok?
    ensures var r := WKey(m, d, p, h);
            && Spans(d, p, EncodeText(r.value), r.pos)
            && KeyFits(h, Member(r.value.z, r.value.text, x))
            && (Sub(h) == CAT_FLOAT ==> TextOk(m, r.value))
  {
    if Sub(h) == CAT_FLOAT { AcceptedText(m, d, p); }
  }

  lemma {:induction false} AcceptedMembers(m: Mode, d: Bytes, p: nat, h: u8, n: nat, depth: nat)
    requires p <= |d| && depth <= MAX_DEPTH && KeyWidth(h).Some? && WMembers(m, d, p, h, n, depth).Ok?
    ensures var r := WMembers(m, d, p, h, n, depth);
            && |r.value| == n && MembersWellFormed(h, r.value) && Spans(d, p, EncodeMembers(h, r.value), r.pos)
            && depth + MemberNesting(r.value) <= MAX_DEPTH && AcceptsMembers(m, h, r.value)
    decreases |d| - p, 2, n
  {
    hide WValue, WKey, WellFormed, Accepts, Nesting, Encode, KeyFits, EncodeText;
    if n > 0 {
      var key, r := WKey(m, d, p, h), WMembers(m, d, p, h, n, depth);
      var x := WValue(m, d, key.pos, depth);
      AcceptedKey(m, d, p, h, x.value);
      AcceptedValue(m, d, key.pos, depth);
      AcceptedMembers(m, d, x.pos, h, n - 1, depth);
      assert r.value[1..] == WMembers(m, d, x.pos, h, n - 1, depth).value;
      SpanCat(d, key.pos, Encode(x.value), x.pos, EncodeMembers(h, r.value[1..]), r.pos);
      SpanCat(d, p, EncodeText(key.value), key.pos, Encode(x.value) + EncodeMembers(h, r.value[1..]), r.pos);
    }
  }

  // ---------------------------------------------------------------------
  // From a value to a walk: the primitives
  // ---------------------------------------------------------------------

  lemma WalkedHead(d: Bytes, p: nat, h: u8, rest: Bytes, e: nat)
    requires Spans(d, p, [h] + rest, e)
    ensures Head(d, p) == Out.Ok(h, p + 1) && Spans(d, p + 1, rest, e)
  {
    SpanSplit(d, p, [h], rest, e);
    SpanHead(d, p, h);
  }

  lemma WalkedSize(d: Bytes, p: nat, z: Bytes, rest: Bytes, e: nat)
    requires IsSizeField(z) && Spans(d, p, z + rest, e)
    ensures SizeField(d, p) == Out.Ok(z, p + |z|) && Spans(d, p + |z|, rest, e)
  {
    SpanSplit(d, p, z, rest, e);
    assert d[p] == d[p..p + |z|][0];
  }

  lemma WalkedText(m: Mode, d: Bytes, p: nat, t: Text, rest: Bytes, e: nat)
    requires TextFits(t) && TextOk(m, t) && Spans(d, p, EncodeText(t) + rest, e)
    ensures WText(m, d, p) == Out.Ok(t, p + |EncodeText(t)|) && Spans(d, p + |EncodeText(t)|, rest, e)
  {
    SpanSplit(d, p, EncodeText(t), rest, e);
    WalkedSize(d, p, t.z, t.text, p + |EncodeText(t)|);
  }

  lemma TextsStep(m: Mode, d: Bytes, p: nat, t: Text, q: nat, ts: seq<Text>, e: nat)
    requires p <= |d| && q <= |d| && WText(m, d, p) == Out.Ok(t, q) && WTexts(m, d, q, |ts|) == Out.Ok(ts, e)
    ensures WTexts(m, d, p, |ts| + 1) == Out.Ok([t] + ts, e)
  {
  }

  lemma MembersStep(m: Mode, d: Bytes, p: nat, h: u8, depth: nat, key: Text, q: nat, x: Node, r: nat,
                    xs: seq<Member>, e: nat)
    requires p <= |d| && q <= |d| && r <= |d| && KeyWidth(h).Some?
    requires WKey(m, d, p, h) == Out.Ok(key, q) && WValue(m, d, q, depth) == Out.Ok(x, r)
    requires WMembers(m, d, r, h, |xs|, depth) == Out.Ok(xs, e)
    ensures WMembers(m, d, p, h, |xs| + 1, depth) == Out.Ok([Member(key.z, key.text, x)] + xs, e)
  {
  }

  lemma {:induction false} WalkedTexts(m: Mode, d: Bytes, p: nat, ts: seq<Text>, e: nat)
    requires TextsFit(ts) && TextsOk(m, ts)
    requires Spans(d, p, EncodeTexts(ts), e)
    ensures WTexts(m, d, p, |ts|) == Out.Ok(ts, e)
    decreases |ts|
  {
    hide WText, TextFits, EncodeText;
    if ts != [] {
      var t, rest := ts[0], ts[1..];
      var q := p + |EncodeText(t)|;
      WalkedText(m, d, p, t, EncodeTexts(rest), e);
      WalkedTexts(m, d, q, rest, e);
      TextsStep(m, d, p, t, q, rest, e);
      assert [t] + rest == ts;
    }
  }

  lemma WalkedPadding(d: Bytes, p: nat, pad: Bytes, width: nat, rest: Bytes, e: nat)
    requires |pad| < width <= 16 && Spans(d, p, [|pad|] + pad + rest, e)
    ensures Padding(d, p, width) == Out.Ok(pad, p + 1 + |pad|) && Spans(d, p + 1 + |pad|, rest, e)
  {
    SpanSplit(d, p, [|pad|] + pad, rest, e);
    WalkedHead(d, p, |pad|, pad, p + 1 + |pad|);
    assert d[p..p + 1] == [d[p]];
  }

  lemma WalkedAlignedHead(d: Bytes, p: nat, h: u8, z: Bytes, pad: Bytes, rest: Bytes, e: nat)
    requires Ty(h) == TY_TYPED_ARRAY && Sub(h) != CAT_OTHER && FixedWidth(h).Some? && IsSizeField(z)
    requires |pad| < FixedWidth(h).value
    requires Spans(d, p, [h] + (z + ([|pad|] + pad)) + rest, e)
    ensures AlignedHead(d, p) == Out.Ok((h, z, pad), p + 2 + |z| + |pad|)
    ensures Spans(d, p + 2 + |z| + |pad|, rest, e)
  {
    assert [h] + (z + ([|pad|] + pad)) + rest == [h] + (z + ([|pad|] + pad + rest));
    WalkedHead(d, p, h, z + ([|pad|] + pad + rest), e);
    WalkedSize(d, p + 1, z, [|pad|] + pad + rest, e);
    WalkedPadding(d, p + 1 + |z|, pad, FixedWidth(h).value, rest, e);
  }

  /** A typed array's preamble is sound, whatever payload follows it. */
  predicate FormFits(form: TypedPreamble) {
    && IsSizeField(form.z)
    && (form.Plain? || form.Aligned? ==>
          Ty(form.h) == TY_TYPED_ARRAY && Sub(form.h) != CAT_OTHER && FixedWidth(form.h).Some?)
    && (form.Aligned? ==> |form.pad| < FixedWidth(form.h).value)
  }

  lemma WalkedPreamble(d: Bytes, p: nat, form: TypedPreamble, rest: Bytes, e: nat)
    requires FormFits(form) && Spans(d, p, EncodePreamble(form) + rest, e)
    ensures Preamble(d, p, OuterHeader(form)) == Out.Ok(form, p + |EncodePreamble(form)|)
    ensures Spans(d, p + |EncodePreamble(form)|, rest, e)
  {
    hide AlignedHead, SizeField, SizeValue, ByteWidth;
    match form
    case Aligned(h, z, pad) => WalkedAlignedHead(d, p, h, z, pad, rest, e);
    case _ => WalkedSize(d, p, form.z, rest, e);
  }

  lemma WalkedComplexHead(d: Bytes, p: nat, pre: ComplexPreamble, payload: Bytes, e: nat)
    requires ComplexFits(pre, payload) && Spans(d, p, EncodeComplexHead(pre) + payload, e)
    ensures ComplexHead(d, p) == Out.Ok(pre, p + |EncodeComplexHead(pre)|)
    ensures Spans(d, p + |EncodeComplexHead(pre)|, payload, e)
  {
    hide EncodeComplexHead, ComplexFits, ComplexHead;
    match pre {
      case One(_) => WalkedOne(d, p, pre, payload, e);
      case Many(_, _) => WalkedMany(d, p, pre, payload, e);
      case AlignedMany(_, _, _) => WalkedAlignedMany(d, p, pre, payload, e);
    }
  }

  lemma WalkedOne(d: Bytes, p: nat, pre: ComplexPreamble, payload: Bytes, e: nat)
    requires pre.One? && ComplexFits(pre, payload) && Spans(d, p, EncodeComplexHead(pre) + payload, e)
    ensures ComplexHead(d, p) == Out.Ok(pre, p + |EncodeComplexHead(pre)|)
    ensures Spans(d, p + |EncodeComplexHead(pre)|, payload, e)
  {
    hide Spans, SizeField, SizeValue, ByteWidth, AlignedPairs;
    WalkedHead(d, p, pre.class_, payload, e);
  }

  lemma WalkedMany(d: Bytes, p: nat, pre: ComplexPreamble, payload: Bytes, e: nat)
    requires pre.Many? && ComplexFits(pre, payload) && Spans(d, p, EncodeComplexHead(pre) + payload, e)
    ensures ComplexHead(d, p) == Out.Ok(pre, p + |EncodeComplexHead(pre)|)
    ensures Spans(d, p + |EncodeComplexHead(pre)|, payload, e)
  {
    hide Spans, SizeField, SizeValue, ByteWidth, AlignedPairs;
    var c, z := pre.class_, pre.z;
    assert [c] + z + payload == [c] + (z + payload);
    WalkedHead(d, p, c, z + payload, e);
    WalkedSize(d, p + 1, z, payload, e);
  }

  lemma WalkedAlignedMany(d: Bytes, p: nat, pre: ComplexPreamble, payload: Bytes, e: nat)
    requires pre.AlignedMany? && ComplexFits(pre, payload) && Spans(d, p, EncodeComplexHead(pre) + payload, e)
    ensures ComplexHead(d, p) == Out.Ok(pre, p + |EncodeComplexHead(pre)|)
    ensures Spans(d, p + |EncodeComplexHead(pre)|, payload, e)
  {
    hide Spans, SizeField, SizeValue, ByteWidth, AlignedPairs, ComplexComponents, EncodeComplexHead;
    var c, z, pad := pre.class_, pre.z, pre.pad;
    var rest := [ALIGNED_ARRAY] + ([ComplexComponents(c)] + (z + ([|pad|] + pad + payload)));
    AlignedBytes(c, z, pad, payload);
    WalkedHead(d, p, c, rest, e);
    WalkedAlignedPairs(d, p + 1, c, z, pad, FixedWidth(c).value, payload, e);
  }

  lemma AlignedBytes(c: u8, z: Bytes, pad: Bytes, payload: Bytes)
    requires |pad| < 256
    ensures var head := EncodeComplexHead(AlignedMany(c, z, pad));
            && |head| == 4 + |z| + |pad|
            && head + payload == [c] + ([ALIGNED_ARRAY] + ([ComplexComponents(c)] + (z + ([|pad|] + pad + payload))))
  {
    hide ComplexComponents;
  }

  lemma WalkedAlignedPairs(d: Bytes, p: nat, c: u8, z: Bytes, pad: Bytes, width: nat, payload: Bytes, e: nat)
    requires IsSizeField(z) && SizeValue(z) % 2 == 0 && |pad| < width <= 16
    requires Spans(d, p, [ALIGNED_ARRAY] + ([ComplexComponents(c)] + (z + ([|pad|] + pad + payload))), e)
    ensures AlignedPairs(d, p, c, width) == Out.Ok((z, pad), p + 3 + |z| + |pad|) && Spans(d, p + 3 + |z| + |pad|, payload, e)
  {
    hide Head, SizeField, SizeValue, Padding, ComplexComponents;
    var padding := [|pad|] + pad + payload;
    WalkedHead(d, p, ALIGNED_ARRAY, [ComplexComponents(c)] + (z + padding), e);
    WalkedHead(d, p + 1, ComplexComponents(c), z + padding, e);
    WalkedSize(d, p + 2, z, padding, e);
    WalkedPadding(d, p + 2 + |z|, pad, width, payload, e);
  }

  // ---------------------------------------------------------------------
  // From a value to a walk
  // ---------------------------------------------------------------------

  lemma TypedDispatch(m: Mode, d: Bytes, p: nat, h: u8, depth: nat)
    requires p <= |d| && Ty(h) == TY_TYPED_ARRAY && depth < MAX_DEPTH
    ensures WBody(m, d, p, h, depth) == WTyped(m, d, p, h)
  {
  }

  lemma ExtensionDispatch(m: Mode, d: Bytes, p: nat, h: u8, depth: nat)
    requires p <= |d| && Ty(h) == TY_EXTENSION
    ensures WBody(m, d, p, h, depth) == WExtension(m, d, p, h, depth)
  {
  }

  lemma WalkedBools(m: Mode, d: Bytes, p: nat, depth: nat, n: Node, e: nat)
    requires n.BoolArr? && WellFormed(n) && Spans(d, p, EncodeBody(n), e) && depth < MAX_DEPTH
    ensures WBody(m, d, p, HeaderOf(n), depth) == Out.Ok(n, e)
  {
    hide Preamble, SizeValue, BoolPaddingOk, SizeField, WObject, WArray, WExtension, WNum, WText;
    var z, payload := n.z, n.payload;
    WalkedPreamble(d, p, Bools(z), payload, e);
    if payload != [] { assert d[e - 1] == d[p + |z|..e][|payload| - 1]; }
    assert TypedHead(d, p, BOOL_ARRAY) == Out.Ok(Bools(z), p + |z|);
    TypedDispatch(m, d, p, BOOL_ARRAY, depth);
  }

  lemma WalkedStrings(m: Mode, d: Bytes, p: nat, depth: nat, n: Node, e: nat)
    requires n.StrArr? && WellFormed(n) && Accepts(m, n) && Spans(d, p, EncodeBody(n), e) && depth < MAX_DEPTH
    ensures WBody(m, d, p, HeaderOf(n), depth) == Out.Ok(n, e)
  {
    hide Preamble, SizeValue, WTexts, EncodeTexts, TextsFit, TextsOk;
    var z, texts := n.z, n.texts;
    WalkedPreamble(d, p, Strings(z), EncodeTexts(texts), e);
    WalkedTexts(m, d, p + |z|, texts, e);
    assert TypedHead(d, p, STRING_ARRAY) == Out.Ok(Strings(z), p + |z|);
    TypedDispatch(m, d, p, STRING_ARRAY, depth);
  }

  lemma WalkedBlock(m: Mode, d: Bytes, p: nat, h: u8, n: nat, width: nat, payload: Bytes, e: nat)
    requires FixedWidth(h).Some? && BlockOk(m, h, n, payload)
    requires |payload| == n * width < TWO_TO_THE_64 && Spans(d, p, payload, e)
    ensures WBlock(m, d, p, h, n, width) == Out.Ok(payload, e)
  {
  }

  lemma WalkedFixed(m: Mode, d: Bytes, p: nat, depth: nat, n: Node, e: nat)
    requires n.FixedArr? && WellFormed(n) && Accepts(m, n) && Spans(d, p, EncodeBody(n), e) && depth < MAX_DEPTH
    ensures WBody(m, d, p, HeaderOf(n), depth) == Out.Ok(n, e)
  {
    hide Preamble, WBlock, AllRepresentable;
    var form, payload := n.form, n.payload;
    var q := p + |EncodePreamble(form)|;
    WalkedPreamble(d, p, form, payload, e);
    WalkedBlock(m, d, q, form.h, form.Count(), FixedWidth(form.h).value, payload, e);
    assert TypedHead(d, p, OuterHeader(form)) == Out.Ok(form, q);
    TypedDispatch(m, d, p, OuterHeader(form), depth);
  }

  lemma WalkedComplex(m: Mode, d: Bytes, p: nat, depth: nat, n: Node, e: nat)
    requires n.Cpx? && WellFormed(n) && Accepts(m, n) && Spans(d, p, EncodeBody(n), e)
    ensures WBody(m, d, p, HeaderOf(n), depth) == Out.Ok(n, e)
  {
    hide ComplexHead, EncodeComplexHead, AllRepresentable, WBlock;
    var pre, payload := n.pre, n.payload;
    WalkedComplexHead(d, p, pre, payload, e);
    WalkedBlock(m, d, p + |EncodeComplexHead(pre)|, pre.class_, pre.Pairs(), 2 * FixedWidth(pre.class_).value, payload, e);
    ExtensionDispatch(m, d, p, COMPLEX, depth);
    assert WExtension(m, d, p, COMPLEX, depth) == WComplex(m, d, p);
  }

  lemma WalkedScalar(m: Mode, d: Bytes, p: nat, depth: nat, n: Node, e: nat)
    requires n.Atom? || n.Num? || n.Str?
    requires WellFormed(n) && Accepts(m, n) && Spans(d, p, EncodeBody(n), e)
    ensures WBody(m, d, p, HeaderOf(n), depth) == Out.Ok(n, e)
  {
    hide ValidUtf8, Representable, WText, EncodeText, TextFits, WObject, WArray, WTyped, WExtension;
    if n.Str? {
      assert EncodeBody(n) == EncodeText(n.text) + [];
      WalkedText(m, d, p, n.text, [], e);
    }
  }

  /** The same for a value whose header is already in hand. */
  lemma {:induction false} WalkedBody(m: Mode, d: Bytes, p: nat, depth: nat, n: Node, e: nat)
    requires WellFormed(n) && Accepts(m, n) && depth + Nesting(n) <= MAX_DEPTH
    requires Spans(d, p, EncodeBody(n), e)
    ensures WBody(m, d, p, HeaderOf(n), depth) == Out.Ok(n, e)
    decreases n, 1
  {
    hide WTagged, WMatrix, WObject, WArray, WTyped, WNum, WText, WComplex, EncodeBody;
    if n.Obj? {
      WalkedObject(m, d, p, depth, n, e);
    } else if n.Arr? {
      WalkedArray(m, d, p, depth, n, e);
    } else if n.Tagged? {
      WalkedTagged(m, d, p, depth, n, e);
      ExtensionDispatch(m, d, p, TYPE_TAG, depth);
      assert WExtension(m, d, p, TYPE_TAG, depth) == WTagged(m, d, p, depth);
    } else if n.Mat? {
      WalkedMatrix(m, d, p, depth, n, e);
      ExtensionDispatch(m, d, p, MATRIX, depth);
      assert WExtension(m, d, p, MATRIX, depth) == WMatrix(m, d, p, depth);
    } else if n.Atom? || n.Num? || n.Str? {
      WalkedScalar(m, d, p, depth, n, e);
    } else if n.BoolArr? {
      WalkedBools(m, d, p, depth, n, e);
    } else if n.StrArr? {
      WalkedStrings(m, d, p, depth, n, e);
    } else if n.FixedArr? {
      WalkedFixed(m, d, p, depth, n, e);
    } else {
      WalkedComplex(m, d, p, depth, n, e);
    }
  }

  lemma {:induction false} WalkedObject(m: Mode, d: Bytes, p: nat, depth: nat, n: Node, e: nat)
    requires n.Obj? && WellFormed(n) && Accepts(m, n) && depth + Nesting(n) <= MAX_DEPTH
    requires Spans(d, p, EncodeBody(n), e)
    ensures WObject(m, d, p, n.h, depth) == Out.Ok(n, e)
    decreases n, 0
  {
    hide SizeField, WMembers, SizeValue, EncodeMembers, AcceptsMembers, MembersWellFormed, MemberNesting;
    WalkedSize(d, p, n.z, EncodeMembers(n.h, n.members), e);
    WalkedMembers(m, d, p + |n.z|, n.h, depth + 1, n.members, e);
  }

  lemma {:induction false} WalkedArray(m: Mode, d: Bytes, p: nat, depth: nat, n: Node, e: nat)
    requires n.Arr? && WellFormed(n) && Accepts(m, n) && depth + Nesting(n) <= MAX_DEPTH
    requires Spans(d, p, EncodeBody(n), e)
    ensures WArray(m, d, p, depth) == Out.Ok(n, e)
    decreases n, 0
  {
    hide SizeField, WValues, SizeValue, EncodeAll, AcceptsAll, AllWellFormed, AllNesting;
    WalkedSize(d, p, n.z, EncodeAll(n.items), e);
    WalkedValues(m, d, p + |n.z|, depth + 1, n.items, e);
  }

  lemma {:induction false} WalkedTagged(m: Mode, d: Bytes, p: nat, depth: nat, n: Node, e: nat)
    requires n.Tagged? && WellFormed(n) && Accepts(m, n) && depth + Nesting(n) <= MAX_DEPTH
    requires Spans(d, p, EncodeBody(n), e)
    ensures WTagged(m, d, p, depth) == Out.Ok(n, e)
    decreases n, 0
  {
    hide SizeField, WValue, Encode, SizeValue;
    WalkedSize(d, p, n.z, Encode(n.value), e);
    assert Encode(n.value) == Encode(n.value) + [];
    WalkedValue(m, d, p + |n.z|, depth + 1, n.value, [], e);
  }

  lemma {:induction false} WalkedMatrix(m: Mode, d: Bytes, p: nat, depth: nat, n: Node, e: nat)
    requires n.Mat? && WellFormed(n) && Accepts(m, n) && depth + Nesting(n) <= MAX_DEPTH
    requires Spans(d, p, EncodeBody(n), e)
    ensures WMatrix(m, d, p, depth) == Out.Ok(n, e)
    decreases n, 0
  {
    hide Spans, WValue, WBody, Encode, EncodeBody, WellFormed, Accepts, Nesting;
    MatIs(m, n);
    WalkedHead(d, p, n.layout, Encode(n.extents) + Encode(n.value), e);
    assert d[p..p + 1] == [n.layout];
    WalkedValue(m, d, p + 1, depth + 1, n.extents, Encode(n.value), e);
    assert Encode(n.value) == Encode(n.value) + [];
    WalkedValue(m, d, p + 1 + |Encode(n.extents)|, depth + 1, n.value, [], e);
  }

  /** Wherever a well-formed value stands, a walk that takes such values and has room for
      its nesting walks exactly it, whatever follows. */
  lemma {:induction false} WalkedValue(m: Mode, d: Bytes, p: nat, depth: nat, n: Node, rest: Bytes, e: nat)
    requires WellFormed(n) && Accepts(m, n) && depth + Nesting(n) <= MAX_DEPTH
    requires Spans(d, p, Encode(n) + rest, e)
    ensures WValue(m, d, p, depth) == Out.Ok(n, p + |Encode(n)|)
    ensures Spans(d, p + |Encode(n)|, rest, e)
    decreases n, 2
  {
    hide WBody, EncodeBody;
    SpanSplit(d, p, Encode(n), rest, e);
    WalkedHead(d, p, HeaderOf(n), EncodeBody(n), p + |Encode(n)|);
    WalkedBody(m, d, p + 1, depth, n, p + |Encode(n)|);
  }

  lemma {:induction false} WalkedValues(m: Mode, d: Bytes, p: nat, depth: nat, items: seq<Node>, e: nat)
    requires AllWellFormed(items) && AcceptsAll(m, items) && depth + AllNesting(items) <= MAX_DEPTH
    requires Spans(d, p, EncodeAll(items), e)
    ensures WValues(m, d, p, |items|, depth) == Out.Ok(items, e)
    decreases items, 0
  {
    hide WValue, Encode, WellFormed, Accepts, Nesting;
    if items != [] {
      assert items == [items[0]] + items[1..];
      WalkedValue(m, d, p, depth, items[0], EncodeAll(items[1..]), e);
      WalkedValues(m, d, p + |Encode(items[0])|, depth, items[1..], e);
    }
  }

  lemma WalkedKey(m: Mode, d: Bytes, p: nat, h: u8, x: Member, rest: Bytes, e: nat)
    requires KeyFits(h, x) && (Sub(h) == CAT_FLOAT ==> TextOk(m, Text(x.z, x.key)))
    requires Spans(d, p, EncodeText(Text(x.z, x.key)) + rest, e)
    ensures WKey(m, d, p, h) == Out.Ok(Text(x.z, x.key), p + |x.z + x.key|)
    ensures Spans(d, p + |x.z + x.key|, rest, e)
  {
    hide WText, TextFits;
    if Sub(h) == CAT_FLOAT {
      WalkedText(m, d, p, Text(x.z, x.key), rest, e);
    } else {
      SpanSplit(d, p, x.z + x.key, rest, e);
      assert x.z + x.key == x.key;
    }
  }

  lemma {:induction false} WalkedMembers(m: Mode, d: Bytes, p: nat, h: u8, depth: nat, members: seq<Member>, e: nat)
    requires MembersWellFormed(h, members) && AcceptsMembers(m, h, members) && KeyWidth(h).Some?
    requires depth + MemberNesting(members) <= MAX_DEPTH && Spans(d, p, EncodeMembers(h, members), e)
    ensures WMembers(m, d, p, h, |members|, depth) == Out.Ok(members, e)
    decreases members, 0
  {
    hide WValue, WKey, Encode, EncodeText, WellFormed, Accepts, Nesting, KeyFits;
    if members != [] {
      var x, rest := members[0], members[1..];
      var key, q := Text(x.z, x.key), p + |x.z + x.key|;
      var r := q + |Encode(x.value)|;
      WalkedKey(m, d, p, h, x, Encode(x.value) + EncodeMembers(h, rest), e);
      WalkedValue(m, d, q, depth, x.value, EncodeMembers(h, rest), e);
      WalkedMembers(m, d, r, h, depth, rest, e);
      MembersStep(m, d, p, h, depth, key, q, x.value, r, rest, e);
      assert [x] + rest == members;
    }
  }
}

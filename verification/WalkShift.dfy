/** A walk's answer, success or failure, depends on where its value begins only by that much:
    bytes put in front of a document move every position by their number and change nothing
    else. */
module WalkShift {
  import opened Bits
  import opened Wrappers
  import opened Headers
  import opened Wire
  import opened Grammar
  import opened Walks

  function Shifted<T>(o: Out<T>, k: nat): Out<T> {
    match o case Ok(v, e) => Out.Ok(v, e + k) case Err(c, e) => Out.Err(c, e + k)
  }

  lemma ShiftHead(b: Bytes, d: Bytes, p: nat)
    ensures Head(b + d, |b| + p) == Shifted(Head(d, p), |b|)
  {
  }

  lemma ShiftTake(b: Bytes, d: Bytes, p: nat, n: nat)
    ensures Take(b + d, |b| + p, n) == Shifted(Take(d, p, n), |b|)
  {
    if p + n <= |d| { assert (b + d)[|b| + p..|b| + p + n] == d[p..p + n]; }
  }

  lemma ShiftSize(b: Bytes, d: Bytes, p: nat)
    ensures SizeField(b + d, |b| + p) == Shifted(SizeField(d, p), |b|)
  {
    if p < |d| { assert (b + d)[|b| + p] == d[p]; }
    if HoldsSize(d, p) { assert SizeFieldAt(b + d, |b| + p) == SizeFieldAt(d, p); }
  }

  lemma ShiftText(m: Mode, b: Bytes, d: Bytes, p: nat)
    ensures WText(m, b + d, |b| + p) == Shifted(WText(m, d, p), |b|)
  {
    hide SizeField, Take, ValidUtf8, SizeValue;
    ShiftSize(b, d, p);
    var z := SizeField(d, p);
    if z.Ok? { ShiftTake(b, d, z.pos, SizeValue(z.value)); }
  }

  lemma {:induction false} ShiftTexts(m: Mode, b: Bytes, d: Bytes, p: nat, n: nat)
    requires p <= |d|
    ensures WTexts(m, b + d, |b| + p, n) == Shifted(WTexts(m, d, p, n), |b|)
    decreases n
  {
    hide WText;
    if n > 0 {
      ShiftText(m, b, d, p);
      var t := WText(m, d, p);
      if t.Ok? { ShiftTexts(m, b, d, t.pos, n - 1); }
    }
  }

  lemma ShiftPadding(b: Bytes, d: Bytes, p: nat, width: nat)
    ensures Padding(b + d, |b| + p, width) == Shifted(Padding(d, p, width), |b|)
  {
    hide Take;
    ShiftTake(b, d, p, 1);
    var one := Take(d, p, 1);
    if one.Ok? {
      OneByte(d, p);
      ShiftTake(b, d, one.pos, one.value[0]);
    }
  }

  lemma OneByte(d: Bytes, p: nat)
    ensures Take(d, p, 1).Ok? ==> |Take(d, p, 1).value| == 1 && Take(d, p, 1).pos == p + 1
  {
  }

  lemma ShiftAlignedHead(b: Bytes, d: Bytes, p: nat)
    ensures AlignedHead(b + d, |b| + p) == Shifted(AlignedHead(d, p), |b|)
  {
    hide SizeField, Padding, SizeValue, FixedWidth, Head;
    ShiftHead(b, d, p);
    var h := Head(d, p);
    if h.Ok? {
      ShiftSize(b, d, h.pos);
      var z := SizeField(d, h.pos);
      if z.Ok? && FixedWidth(h.value).Some? { ShiftPadding(b, d, z.pos, FixedWidth(h.value).value); }
    }
  }

  lemma ShiftAlignedPairs(b: Bytes, d: Bytes, p: nat, class_: u8, width: nat)
    ensures AlignedPairs(b + d, |b| + p, class_, width) == Shifted(AlignedPairs(d, p, class_, width), |b|)
  {
    hide SizeField, Padding, SizeValue, Head;
    ShiftHead(b, d, p);
    var outer := Head(d, p);
    if outer.Ok? {
      ShiftHead(b, d, outer.pos);
      var inner := Head(d, outer.pos);
      if inner.Ok? {
        ShiftSize(b, d, inner.pos);
        var z := SizeField(d, inner.pos);
        if z.Ok? { ShiftPadding(b, d, z.pos, width); }
      }
    }
  }

  lemma ShiftTypedHead(b: Bytes, d: Bytes, p: nat, h: u8)
    ensures TypedHead(b + d, |b| + p, h) == Shifted(TypedHead(d, p, h), |b|)
  {
    hide SizeField, AlignedHead, FixedWidth, BoolPaddingOk, SizeValue;
    ShiftSize(b, d, p);
    ShiftAlignedHead(b, d, p);
    var form := Preamble(d, p, h);
    if form.Ok? && form.value.Bools? {
      var e := form.pos + DivCeil8(form.value.Count());
      if form.pos < e <= |d| { assert (b + d)[|b| + e - 1] == d[e - 1]; }
    }
  }

  lemma ShiftComplexHead(b: Bytes, d: Bytes, p: nat)
    ensures ComplexHead(b + d, |b| + p) == Shifted(ComplexHead(d, p), |b|)
  {
    hide SizeField, AlignedPairs, FixedWidth, Head;
    ShiftHead(b, d, p);
    var h := Head(d, p);
    if h.Ok? {
      ShiftSize(b, d, h.pos);
      if FixedWidth(h.value).Some? { ShiftAlignedPairs(b, d, h.pos, h.value, FixedWidth(h.value).value); }
    }
  }

  lemma ShiftBlock(m: Mode, b: Bytes, d: Bytes, p: nat, h: u8, n: nat, width: nat)
    requires FixedWidth(h).Some?
    ensures WBlock(m, b + d, |b| + p, h, n, width) == Shifted(WBlock(m, d, p, h, n, width), |b|)
  {
    hide Take;
    ShiftTake(b, d, p, n * width);
  }

  lemma ShiftTyped(m: Mode, b: Bytes, d: Bytes, p: nat, h: u8)
    ensures WTyped(m, b + d, |b| + p, h) == Shifted(WTyped(m, d, p, h), |b|)
  {
    hide TypedHead, WTexts, WBlock, SizeValue, FixedWidth, Take;
    ShiftTypedHead(b, d, p, h);
    var form := TypedHead(d, p, h);
    if form.Ok? {
      var f := form.value;
      if f.Bools? {
        ShiftTake(b, d, form.pos, DivCeil8(f.Count()));
      } else if f.Strings? {
        ShiftTexts(m, b, d, form.pos, f.Count());
      } else {
        ShiftBlock(m, b, d, form.pos, f.h, f.Count(), FixedWidth(f.h).value);
      }
    }
  }

  lemma ShiftComplex(m: Mode, b: Bytes, d: Bytes, p: nat)
    ensures WComplex(m, b + d, |b| + p) == Shifted(WComplex(m, d, p), |b|)
  {
    hide ComplexHead, WBlock, FixedWidth, SizeValue;
    ShiftComplexHead(b, d, p);
    var pre := ComplexHead(d, p);
    if pre.Ok? {
      ShiftBlock(m, b, d, pre.pos, pre.value.class_, pre.value.Pairs(), 2 * FixedWidth(pre.value.class_).value);
    }
  }

  lemma ShiftNum(m: Mode, b: Bytes, d: Bytes, p: nat, h: u8)
    ensures WNum(m, b + d, |b| + p, h) == Shifted(WNum(m, d, p, h), |b|)
  {
    hide Take, FixedWidth, Representable;
    if FixedWidth(h).Some? { ShiftTake(b, d, p, FixedWidth(h).value); }
  }

  lemma {:induction false} ShiftBody(m: Mode, b: Bytes, d: Bytes, p: nat, h: u8, depth: nat)
    requires p <= |d|
    ensures WBody(m, b + d, |b| + p, h, depth) == Shifted(WBody(m, d, p, h, depth), |b|)
    decreases |d| - p, 0, 2
  {
    hide WObject, WTyped, WArray, WExtension, WText, WNum;
    if Ty(h) == TY_NUMBER {
      ShiftNum(m, b, d, p, h);
    } else if Ty(h) == TY_STRING {
      ShiftText(m, b, d, p);
    } else if Ty(h) == TY_OBJECT {
      ShiftObject(m, b, d, p, h, depth);
    } else if Ty(h) == TY_TYPED_ARRAY {
      ShiftTyped(m, b, d, p, h);
    } else if Ty(h) == TY_GENERIC_ARRAY {
      ShiftArray(m, b, d, p, depth);
    } else if Ty(h) == TY_EXTENSION {
      ShiftExtension(m, b, d, p, h, depth);
    }
  }

  lemma {:induction false} ShiftExtension(m: Mode, b: Bytes, d: Bytes, p: nat, h: u8, depth: nat)
    requires p <= |d|
    ensures WExtension(m, b + d, |b| + p, h, depth) == Shifted(WExtension(m, d, p, h, depth), |b|)
    decreases |d| - p, 0, 1
  {
    hide WTagged, WMatrix, WComplex;
    if ExtId(h) == EXT_TYPE_TAG {
      ShiftTagged(m, b, d, p, depth);
    } else if ExtId(h) == EXT_MATRIX {
      ShiftMatrix(m, b, d, p, depth);
    } else if ExtId(h) == EXT_COMPLEX {
      ShiftComplex(m, b, d, p);
    }
  }

  lemma {:induction false} ShiftObject(m: Mode, b: Bytes, d: Bytes, p: nat, h: u8, depth: nat)
    requires p <= |d|
    ensures WObject(m, b + d, |b| + p, h, depth) == Shifted(WObject(m, d, p, h, depth), |b|)
    decreases |d| - p, 0, 0
  {
    hide SizeField, WMembers, SizeValue, KeyWidth;
    ShiftSize(b, d, p);
    var z := SizeField(d, p);
    if z.Ok? && KeyWidth(h).Some? { ShiftMembers(m, b, d, z.pos, h, SizeValue(z.value), depth + 1); }
  }

  lemma {:induction false} ShiftArray(m: Mode, b: Bytes, d: Bytes, p: nat, depth: nat)
    requires p <= |d|
    ensures WArray(m, b + d, |b| + p, depth) == Shifted(WArray(m, d, p, depth), |b|)
    decreases |d| - p, 0, 0
  {
    hide SizeField, WValues, SizeValue;
    ShiftSize(b, d, p);
    var z := SizeField(d, p);
    if z.Ok? { ShiftValues(m, b, d, z.pos, SizeValue(z.value), depth + 1); }
  }

  lemma {:induction false} ShiftTagged(m: Mode, b: Bytes, d: Bytes, p: nat, depth: nat)
    requires p <= |d|
    ensures WTagged(m, b + d, |b| + p, depth) == Shifted(WTagged(m, d, p, depth), |b|)
    decreases |d| - p, 0, 0
  {
    hide SizeField, WValue;
    ShiftSize(b, d, p);
    var z := SizeField(d, p);
    if z.Ok? { ShiftValue(m, b, d, z.pos, depth + 1); }
  }

  lemma {:induction false} ShiftMatrix(m: Mode, b: Bytes, d: Bytes, p: nat, depth: nat)
    requires p <= |d|
    ensures WMatrix(m, b + d, |b| + p, depth) == Shifted(WMatrix(m, d, p, depth), |b|)
    decreases |d| - p, 0, 0
  {
    hide WMatrix, WPair, WValue, WBody;
    MatrixIsPair(m, d, p, depth);
    MatrixIsPair(m, b + d, |b| + p, depth);
    if p < |d| {
      assert (b + d)[|b| + p] == d[p];
      ShiftPair(m, b, d, p + 1, depth + 1);
    }
  }

  lemma {:induction false} ShiftPair(m: Mode, b: Bytes, d: Bytes, p: nat, depth: nat)
    requires p <= |d|
    ensures WPair(m, b + d, |b| + p, depth) == Shifted(WPair(m, d, p, depth), |b|)
    decreases |d| - p, 2, 0
  {
    hide WValue;
    ShiftValue(m, b, d, p, depth);
    var x := WValue(m, d, p, depth);
    if x.Ok? { ShiftValue(m, b, d, x.pos, depth); }
  }

  lemma {:induction false} ShiftValue(m: Mode, b: Bytes, d: Bytes, p: nat, depth: nat)
    ensures WValue(m, b + d, |b| + p, depth) == Shifted(WValue(m, d, p, depth), |b|)
    decreases |d| - p, 1, 0
  {
    hide WBody;
    if p < |d| {
      assert (b + d)[|b| + p] == d[p];
      ShiftBody(m, b, d, p + 1, d[p], depth);
    }
  }

  lemma {:induction false} ShiftValues(m: Mode, b: Bytes, d: Bytes, p: nat, n: nat, depth: nat)
    requires p <= |d|
    ensures WValues(m, b + d, |b| + p, n, depth) == Shifted(WValues(m, d, p, n, depth), |b|)
    decreases |d| - p, 2, n
  {
    hide WValue;
    if n > 0 {
      ShiftValue(m, b, d, p, depth);
      var x := WValue(m, d, p, depth);
      if x.Ok? { ShiftValues(m, b, d, x.pos, n - 1, depth); }
    }
  }

  lemma ShiftKey(m: Mode, b: Bytes, d: Bytes, p: nat, h: u8)
    requires p <= |d| && KeyWidth(h).Some?
    ensures WKey(m, b + d, |b| + p, h) == Shifted(WKey(m, d, p, h), |b|)
  {
    hide WText, Take;
    ShiftText(m, b, d, p);
    ShiftTake(b, d, p, KeyWidth(h).value);
  }

  lemma {:induction false} ShiftMembers(m: Mode, b: Bytes, d: Bytes, p: nat, h: u8, n: nat, depth: nat)
    requires p <= |d| && KeyWidth(h).Some?
    ensures WMembers(m, b + d, |b| + p, h, n, depth) == Shifted(WMembers(m, d, p, h, n, depth), |b|)
    decreases |d| - p, 2, n
  {
    hide WValue, WKey;
    if n > 0 {
      ShiftKey(m, b, d, p, h);
      var key := WKey(m, d, p, h);
      if key.Err? { return; }
      ShiftValue(m, b, d, key.pos, depth);
      var x := WValue(m, d, key.pos, depth);
      if x.Err? { return; }
      ShiftMembers(m, b, d, x.pos, h, n - 1, depth);
    }
  }
}

/** What follows from the walks accepting exactly the encodings of well-formed values. */
module WalkTheorems {
  import opened Bits
  import opened Wrappers
  import opened Headers
  import opened Wire
  import opened Grammar
  import opened Walks
  import opened WalkProofs

  // ---------------------------------------------------------------------
  // Acceptance, extents and depth
  // ---------------------------------------------------------------------

  /** A walk takes `n` and stops at `e` exactly when `n` is a well-formed value whose bytes
      run from `p` to `e`, the mode takes it, and its nesting fits under the depth limit. */
  lemma WalkIffEncoding(m: Mode, d: Bytes, p: nat, depth: nat, n: Node, e: nat)
    requires depth <= MAX_DEPTH
    ensures WValue(m, d, p, depth) == Out.Ok(n, e) <==>
            WellFormed(n) && Spans(d, p, Encode(n), e) && Accepts(m, n) && depth + Nesting(n) <= MAX_DEPTH
  {
    if WValue(m, d, p, depth) == Out.Ok(n, e) {
      AcceptedValue(m, d, p, depth);
    }
    if WellFormed(n) && Spans(d, p, Encode(n), e) && Accepts(m, n) && depth + Nesting(n) <= MAX_DEPTH {
      assert Encode(n) == Encode(n) + [];
      WalkedValue(m, d, p, depth, n, [], e);
    }
  }

  /** A value's extent depends on nothing outside it: the same bytes anywhere, with anything
      after them, are the same value. */
  lemma ExtentIsLocal(m: Mode, d: Bytes, p: nat, depth: nat, d': Bytes, p': nat)
    requires depth <= MAX_DEPTH && WValue(m, d, p, depth).Ok?
    requires var len := WValue(m, d, p, depth).pos - p; p' + len <= |d'| && d'[p'..p' + len] == d[p..p + len]
    ensures var r := WValue(m, d, p, depth); WValue(m, d', p', depth) == Out.Ok(r.value, p' + (r.pos - p))
  {
    var r := WValue(m, d, p, depth);
    WalkIffEncoding(m, d, p, depth, r.value, r.pos);
    WalkIffEncoding(m, d', p', depth, r.value, p' + (r.pos - p));
  }

  /** No value's encoding begins another's, and no two values share one. */
  lemma PrefixFree(a: Node, b: Node, rest: Bytes)
    requires WellFormed(a) && WellFormed(b) && Nesting(a) <= MAX_DEPTH && Nesting(b) <= MAX_DEPTH
    requires Encode(a) + rest == Encode(b)
    ensures a == b && rest == []
  {
    var d := Encode(b);
    SkipAccepts(a);
    SkipAccepts(b);
    assert d[0..|Encode(a)|] == Encode(a) && d[0..|d|] == d;
    WalkIffEncoding(Skip, d, 0, 0, a, |Encode(a)|);
    WalkIffEncoding(Skip, d, 0, 0, b, |d|);
  }

  lemma {:induction false} SkipAccepts(n: Node)
    requires WellFormed(n)
    ensures Accepts(Skip, n)
    decreases n, 1
  {
    match n
    case Obj(h, _, members) => SkipAcceptsMembers(h, members);
    case Arr(_, items) => SkipAcceptsAll(items);
    case StrArr(_, texts) => SkipAcceptsTexts(texts);
    case Tagged(_, value) => SkipAccepts(value);
    case Mat(_, extents, value) => SkipAccepts(extents); SkipAccepts(value);
    case _ =>
  }

  lemma {:induction false} SkipAcceptsTexts(ts: seq<Text>)
    ensures TextsOk(Skip, ts)
  {
    if ts != [] { SkipAcceptsTexts(ts[1..]); }
  }

  lemma {:induction false} SkipAcceptsAll(items: seq<Node>)
    requires AllWellFormed(items)
    ensures AcceptsAll(Skip, items)
    decreases items, 0
  {
    if items != [] {
      SkipAccepts(items[0]);
      SkipAcceptsAll(items[1..]);
    }
  }

  lemma {:induction false} SkipAcceptsMembers(h: u8, members: seq<Member>)
    requires MembersWellFormed(h, members)
    ensures AcceptsMembers(Skip, h, members)
    decreases members, 0
  {
    if members != [] {
      SkipAccepts(members[0].value);
      SkipAcceptsMembers(h, members[1..]);
    }
  }

  // ---------------------------------------------------------------------
  // Cutting the input short
  // ---------------------------------------------------------------------

  /** How a walk of `d[..c]` answers where the walk of `d` answered `r`: the same if it came no
      further than the cut, and otherwise that the input has ended. */
  ghost predicate CutOf<T>(r: Out<T>, r': Out<T>, c: nat) {
    if r.pos <= c then r' == r else r'.Err? && r'.code == UnexpectedEnd
  }

  lemma CutTake(d: Bytes, p: nat, n: nat, c: nat)
    requires p <= c <= |d|
    ensures CutOf(Take(d, p, n), Take(d[..c], p, n), c)
  {
    if p + n <= c { assert d[..c][p..p + n] == d[p..p + n]; }
  }

  lemma CutSize(d: Bytes, p: nat, c: nat)
    requires p <= c <= |d|
    ensures CutOf(SizeField(d, p), SizeField(d[..c], p), c)
  {
    if HoldsSize(d[..c], p) { assert SizeFieldAt(d[..c], p) == SizeFieldAt(d, p); }
  }

  lemma CutText(m: Mode, d: Bytes, p: nat, c: nat)
    requires p <= c <= |d|
    ensures CutOf(WText(m, d, p), WText(m, d[..c], p), c)
  {
    hide SizeField, Take, ValidUtf8, SizeValue;
    CutSize(d, p, c);
    var z := SizeField(d, p);
    if z.Ok? && z.pos <= c { CutTake(d, z.pos, SizeValue(z.value), c); }
  }

  lemma {:induction false} CutTexts(m: Mode, d: Bytes, p: nat, n: nat, c: nat)
    requires p <= c <= |d|
    ensures CutOf(WTexts(m, d, p, n), WTexts(m, d[..c], p, n), c)
    decreases n
  {
    hide WText;
    if n > 0 {
      CutText(m, d, p, c);
      var t := WText(m, d, p);
      if t.Ok? && t.pos <= c { CutTexts(m, d, t.pos, n - 1, c); }
    }
  }

  lemma CutPadding(d: Bytes, p: nat, width: nat, c: nat)
    requires p <= c <= |d|
    ensures CutOf(Padding(d, p, width), Padding(d[..c], p, width), c)
  {
    CutTake(d, p, 1, c);
    if p < c { CutTake(d, p + 1, d[p], c); }
  }

  lemma CutAlignedHead(d: Bytes, p: nat, c: nat)
    requires p <= c <= |d|
    ensures CutOf(AlignedHead(d, p), AlignedHead(d[..c], p), c)
  {
    hide SizeField, Padding, SizeValue, FixedWidth;
    if p < c {
      CutSize(d, p + 1, c);
      var z := SizeField(d, p + 1);
      if z.Ok? && z.pos <= c && FixedWidth(d[p]).Some? { CutPadding(d, z.pos, FixedWidth(d[p]).value, c); }
    }
  }

  lemma CutAlignedPairs(d: Bytes, p: nat, class_: u8, width: nat, c: nat)
    requires p <= c <= |d|
    ensures CutOf(AlignedPairs(d, p, class_, width), AlignedPairs(d[..c], p, class_, width), c)
  {
    hide SizeField, Padding, SizeValue;
    if p + 1 < c {
      CutSize(d, p + 2, c);
      var z := SizeField(d, p + 2);
      if z.Ok? && z.pos <= c { CutPadding(d, z.pos, width, c); }
    }
  }

  lemma CutPreamble(d: Bytes, p: nat, h: u8, c: nat)
    requires p <= c <= |d|
    ensures CutOf(Preamble(d, p, h), Preamble(d[..c], p, h), c)
  {
    hide SizeField, AlignedHead, FixedWidth;
    CutSize(d, p, c);
    CutAlignedHead(d, p, c);
  }

  lemma CutTypedHead(d: Bytes, p: nat, h: u8, c: nat)
    requires p <= c <= |d|
    ensures CutOf(TypedHead(d, p, h), TypedHead(d[..c], p, h), c) ||
            (TypedHead(d[..c], p, h).Err? && TypedHead(d[..c], p, h).code == UnexpectedEnd &&
             TypedHead(d, p, h).Ok? && TypedHead(d, p, h).value.Bools? &&
             TypedHead(d, p, h).pos + DivCeil8(TypedHead(d, p, h).value.Count()) > c)
    ensures TypedHead(d, p, h).Ok? && TypedHead(d, p, h).value.Bools? ==>
              TypedHead(d, p, h).pos + DivCeil8(TypedHead(d, p, h).value.Count()) <= |d|
  {
    hide Preamble, SizeValue, BoolPaddingOk;
    CutPreamble(d, p, h, c);
  }

  lemma CutComplexHead(d: Bytes, p: nat, c: nat)
    requires p <= c <= |d|
    ensures CutOf(ComplexHead(d, p), ComplexHead(d[..c], p), c)
  {
    hide SizeField, AlignedPairs, FixedWidth;
    if p < c {
      CutSize(d, p + 1, c);
      if FixedWidth(d[p]).Some? { CutAlignedPairs(d, p + 1, d[p], FixedWidth(d[p]).value, c); }
    }
  }

  lemma CutBlock(m: Mode, d: Bytes, p: nat, h: u8, n: nat, width: nat, c: nat)
    requires p <= c <= |d| && FixedWidth(h).Some?
    ensures CutOf(WBlock(m, d, p, h, n, width), WBlock(m, d[..c], p, h, n, width), c)
  {
    CutTake(d, p, n * width, c);
  }

  lemma CutTyped(m: Mode, d: Bytes, p: nat, h: u8, c: nat)
    requires p <= c <= |d|
    ensures CutOf(WTyped(m, d, p, h), WTyped(m, d[..c], p, h), c)
  {
    hide TypedHead, WTexts, WBlock, SizeValue, FixedWidth;
    CutTypedHead(d, p, h, c);
    var form := TypedHead(d, p, h);
    if form.Ok? && form.pos <= c {
      var f := form.value;
      if f.Bools? {
        CutTake(d, form.pos, DivCeil8(f.Count()), c);
      } else if f.Strings? {
        CutTexts(m, d, form.pos, f.Count(), c);
      } else {
        CutBlock(m, d, form.pos, f.h, f.Count(), FixedWidth(f.h).value, c);
      }
    }
  }

  lemma CutComplex(m: Mode, d: Bytes, p: nat, c: nat)
    requires p <= c <= |d|
    ensures CutOf(WComplex(m, d, p), WComplex(m, d[..c], p), c)
  {
    hide ComplexHead, WBlock, FixedWidth, SizeValue;
    CutComplexHead(d, p, c);
    var pre := ComplexHead(d, p);
    if pre.Ok? && pre.pos <= c {
      CutBlock(m, d, pre.pos, pre.value.class_, pre.value.Pairs(), 2 * FixedWidth(pre.value.class_).value, c);
    }
  }

  lemma {:induction false} CutBody(m: Mode, d: Bytes, p: nat, h: u8, depth: nat, c: nat)
    requires p <= c <= |d|
    ensures CutOf(WBody(m, d, p, h, depth), WBody(m, d[..c], p, h, depth), c)
    decreases |d| - p, 0, 2
  {
    hide WObject, WTyped, WArray, WExtension, WText, Take, FixedWidth;
    if Ty(h) == TY_NUMBER {
      if FixedWidth(h).Some? { CutTake(d, p, FixedWidth(h).value, c); }
    } else if Ty(h) == TY_STRING {
      CutText(m, d, p, c);
    } else if Ty(h) == TY_OBJECT {
      CutObject(m, d, p, h, depth, c);
    } else if Ty(h) == TY_TYPED_ARRAY {
      CutTyped(m, d, p, h, c);
    } else if Ty(h) == TY_GENERIC_ARRAY {
      CutArray(m, d, p, depth, c);
    } else if Ty(h) == TY_EXTENSION {
      CutExtension(m, d, p, h, depth, c);
    }
  }

  lemma {:induction false} CutExtension(m: Mode, d: Bytes, p: nat, h: u8, depth: nat, c: nat)
    requires p <= c <= |d|
    ensures CutOf(WExtension(m, d, p, h, depth), WExtension(m, d[..c], p, h, depth), c)
    decreases |d| - p, 0, 1
  {
    hide WTagged, WMatrix, WComplex;
    if ExtId(h) == EXT_TYPE_TAG {
      CutTagged(m, d, p, depth, c);
    } else if ExtId(h) == EXT_MATRIX {
      CutMatrix(m, d, p, depth, c);
    } else if ExtId(h) == EXT_COMPLEX {
      CutComplex(m, d, p, c);
    }
  }

  lemma {:induction false} CutObject(m: Mode, d: Bytes, p: nat, h: u8, depth: nat, c: nat)
    requires p <= c <= |d|
    ensures CutOf(WObject(m, d, p, h, depth), WObject(m, d[..c], p, h, depth), c)
    decreases |d| - p, 0, 0
  {
    hide SizeField, WMembers, SizeValue, KeyWidth;
    CutSize(d, p, c);
    var z := SizeField(d, p);
    if z.Ok? && z.pos <= c && KeyWidth(h).Some? { CutMembers(m, d, z.pos, h, SizeValue(z.value), depth + 1, c); }
  }

  lemma {:induction false} CutArray(m: Mode, d: Bytes, p: nat, depth: nat, c: nat)
    requires p <= c <= |d|
    ensures CutOf(WArray(m, d, p, depth), WArray(m, d[..c], p, depth), c)
    decreases |d| - p, 0, 0
  {
    hide SizeField, WValues, SizeValue;
    CutSize(d, p, c);
    var z := SizeField(d, p);
    if z.Ok? && z.pos <= c { CutValues(m, d, z.pos, SizeValue(z.value), depth + 1, c); }
  }

  lemma {:induction false} CutTagged(m: Mode, d: Bytes, p: nat, depth: nat, c: nat)
    requires p <= c <= |d|
    ensures CutOf(WTagged(m, d, p, depth), WTagged(m, d[..c], p, depth), c)
    decreases |d| - p, 0, 0
  {
    hide SizeField, WValue;
    CutSize(d, p, c);
    var z := SizeField(d, p);
    if z.Ok? && z.pos <= c { CutValue(m, d, z.pos, depth + 1, c); }
  }

  lemma {:induction false} CutMatrix(m: Mode, d: Bytes, p: nat, depth: nat, c: nat)
    requires p <= c <= |d|
    ensures CutOf(WMatrix(m, d, p, depth), WMatrix(m, d[..c], p, depth), c)
    decreases |d| - p, 0, 0
  {
    hide WMatrix, WPair, WValue, WBody;
    MatrixIsPair(m, d, p, depth);
    MatrixIsPair(m, d[..c], p, depth);
    if p < c { CutPair(m, d, p + 1, depth + 1, c); }
  }

  lemma {:induction false} CutPair(m: Mode, d: Bytes, p: nat, depth: nat, c: nat)
    requires p <= c <= |d|
    ensures CutOf(WPair(m, d, p, depth), WPair(m, d[..c], p, depth), c)
    decreases |d| - p, 2, 0
  {
    hide WValue;
    CutValue(m, d, p, depth, c);
    var x := WValue(m, d, p, depth);
    if x.Ok? && x.pos <= c { CutValue(m, d, x.pos, depth, c); }
  }

  lemma {:induction false} CutValue(m: Mode, d: Bytes, p: nat, depth: nat, c: nat)
    requires p <= c <= |d|
    ensures CutOf(WValue(m, d, p, depth), WValue(m, d[..c], p, depth), c)
    decreases |d| - p, 1, 0
  {
    hide WBody;
    if p < c { CutBody(m, d, p + 1, d[p], depth, c); }
  }

  lemma {:induction false} CutValues(m: Mode, d: Bytes, p: nat, n: nat, depth: nat, c: nat)
    requires p <= c <= |d|
    ensures CutOf(WValues(m, d, p, n, depth), WValues(m, d[..c], p, n, depth), c)
    decreases |d| - p, 2, n
  {
    hide WValue;
    if n > 0 {
      CutValue(m, d, p, depth, c);
      var x := WValue(m, d, p, depth);
      if x.Ok? && x.pos <= c { CutValues(m, d, x.pos, n - 1, depth, c); }
    }
  }

  lemma CutKey(m: Mode, d: Bytes, p: nat, h: u8, c: nat)
    requires p <= c <= |d| && KeyWidth(h).Some?
    ensures CutOf(WKey(m, d, p, h), WKey(m, d[..c], p, h), c)
  {
    hide WText, Take;
    CutText(m, d, p, c);
    CutTake(d, p, KeyWidth(h).value, c);
  }

  lemma {:induction false} CutMembers(m: Mode, d: Bytes, p: nat, h: u8, n: nat, depth: nat, c: nat)
    requires p <= c <= |d| && KeyWidth(h).Some?
    ensures CutOf(WMembers(m, d, p, h, n, depth), WMembers(m, d[..c], p, h, n, depth), c)
    decreases |d| - p, 2, n
  {
    hide WValue, WKey;
    if n > 0 {
      CutKey(m, d, p, h, c);
      var key := WKey(m, d, p, h);
      if key.Err? || key.pos > c { return; }
      CutValue(m, d, key.pos, depth, c);
      var x := WValue(m, d, key.pos, depth);
      if x.Err? || x.pos > c { return; }
      CutMembers(m, d, x.pos, h, n - 1, depth, c);
    }
  }

  /** Cutting a document anywhere inside a value is always the end of the input and never
      any other error; past the value it changes nothing. An error is placed just past the
      last byte that it took to decide it: cut there or later the walk fails the same, and cut
      before, it has not yet failed but run out of input. */
  lemma CutAnywhere(m: Mode, d: Bytes, p: nat, depth: nat, c: nat)
    requires p <= c <= |d|
    ensures var r, r' := WValue(m, d, p, depth), WValue(m, d[..c], p, depth);
            if c < r.pos then r'.Err? && r'.code == UnexpectedEnd else r' == r
  {
    CutValue(m, d, p, depth, c);
  }
}

/** The four walks form a chain: each is the one before it but for its own refusals. */
module WalkChain {
  import opened Bits
  import opened Wrappers
  import opened Headers
  import opened Wire
  import opened Grammar
  import opened Walks
  import opened WalkProofs
  import opened WalkTheorems

  /** The next stricter walk. */
  function Next(m: Mode): Mode
    requires m != Build
  {
    match m case Skip => Validate case Validate => Transcode case Transcode => Build
  }

  /** The errors a walk has that the one before it does not. */
  predicate Refusal(m: Mode, code: ErrorCode) {
    match m
    case Skip => false
    case Validate => code == InvalidUtf8
    case Transcode => code == UnsupportedFeature || code == InvalidMatrixLayout
    case Build => code == NumberOutOfRange
  }

  /** `r'`, the answer of the walk after `m`, is `m`'s answer `r` or a refusal of its own. */
  ghost predicate Stricter<T>(m: Mode, r: Out<T>, r': Out<T>)
    requires m != Build
  {
    r' == r || (r'.Err? && Refusal(Next(m), r'.code))
  }

  lemma StricterText(m: Mode, d: Bytes, p: nat)
    requires m != Build
    ensures Stricter(m, WText(m, d, p), WText(Next(m), d, p))
  {
  }

  lemma {:induction false} StricterTexts(m: Mode, d: Bytes, p: nat, n: nat)
    requires m != Build && p <= |d|
    ensures Stricter(m, WTexts(m, d, p, n), WTexts(Next(m), d, p, n))
    decreases n
  {
    hide WText;
    if n > 0 {
      StricterText(m, d, p);
      var t := WText(m, d, p);
      if t.Ok? { StricterTexts(m, d, t.pos, n - 1); }
    }
  }

  lemma StricterTyped(m: Mode, d: Bytes, p: nat, h: u8)
    requires m != Build
    ensures Stricter(m, WTyped(m, d, p, h), WTyped(Next(m), d, p, h))
  {
    hide TypedHead, WTexts;
    var form := TypedHead(d, p, h);
    if form.Ok? && form.value.Strings? { StricterTexts(m, d, form.pos, form.value.Count()); }
  }

  lemma {:induction false} StricterBody(m: Mode, d: Bytes, p: nat, h: u8, depth: nat)
    requires m != Build && p <= |d|
    ensures Stricter(m, WBody(m, d, p, h, depth), WBody(Next(m), d, p, h, depth))
    decreases |d| - p, 0, 2
  {
    if Ty(h) == TY_STRING {
      StricterText(m, d, p);
    } else if Ty(h) == TY_OBJECT {
      StricterObject(m, d, p, h, depth);
    } else if Ty(h) == TY_TYPED_ARRAY {
      StricterTyped(m, d, p, h);
    } else if Ty(h) == TY_GENERIC_ARRAY {
      StricterArray(m, d, p, depth);
    } else if Ty(h) == TY_EXTENSION {
      StricterExtension(m, d, p, h, depth);
    }
  }

  lemma {:induction false} StricterExtension(m: Mode, d: Bytes, p: nat, h: u8, depth: nat)
    requires m != Build && p <= |d|
    ensures Stricter(m, WExtension(m, d, p, h, depth), WExtension(Next(m), d, p, h, depth))
    decreases |d| - p, 0, 1
  {
    hide WTagged, WMatrix, ComplexHead;
    if ExtId(h) == EXT_TYPE_TAG {
      StricterTagged(m, d, p, depth);
    } else if ExtId(h) == EXT_MATRIX {
      StricterMatrix(m, d, p, depth);
    }
  }

  lemma {:induction false} StricterObject(m: Mode, d: Bytes, p: nat, h: u8, depth: nat)
    requires m != Build && p <= |d|
    ensures Stricter(m, WObject(m, d, p, h, depth), WObject(Next(m), d, p, h, depth))
    decreases |d| - p, 0, 0
  {
    hide SizeField, WMembers, SizeValue;
    var z := SizeField(d, p);
    if z.Ok? && KeyWidth(h).Some? { StricterMembers(m, d, z.pos, h, SizeValue(z.value), depth + 1); }
  }

  lemma {:induction false} StricterArray(m: Mode, d: Bytes, p: nat, depth: nat)
    requires m != Build && p <= |d|
    ensures Stricter(m, WArray(m, d, p, depth), WArray(Next(m), d, p, depth))
    decreases |d| - p, 0, 0
  {
    hide SizeField, WValues, SizeValue;
    var z := SizeField(d, p);
    if z.Ok? { StricterValues(m, d, z.pos, SizeValue(z.value), depth + 1); }
  }

  lemma {:induction false} StricterTagged(m: Mode, d: Bytes, p: nat, depth: nat)
    requires m != Build && p <= |d|
    ensures Stricter(m, WTagged(m, d, p, depth), WTagged(Next(m), d, p, depth))
    decreases |d| - p, 0, 0
  {
    hide SizeField, WValue;
    var z := SizeField(d, p);
    if z.Ok? { StricterValue(m, d, z.pos, depth + 1); }
  }

  lemma {:induction false} StricterMatrix(m: Mode, d: Bytes, p: nat, depth: nat)
    requires m != Build && p <= |d|
    ensures Stricter(m, WMatrix(m, d, p, depth), WMatrix(Next(m), d, p, depth))
    decreases |d| - p, 0, 0
  {
    hide WValue;
    if p < |d| {
      StricterValue(m, d, p + 1, depth + 1);
      var x := WValue(m, d, p + 1, depth + 1);
      if x.Ok? { StricterValue(m, d, x.pos, depth + 1); }
    }
  }

  /** Whatever the bytes and the depth, the next stricter walk finds what this one does, at
      the same byte, success or error, unless it refuses the value for a reason of its own. */
  lemma {:induction false} StricterValue(m: Mode, d: Bytes, p: nat, depth: nat)
    requires m != Build
    ensures Stricter(m, WValue(m, d, p, depth), WValue(Next(m), d, p, depth))
    decreases |d| - p, 1, 0
  {
    if p < |d| { StricterBody(m, d, p + 1, d[p], depth); }
  }

  lemma {:induction false} StricterValues(m: Mode, d: Bytes, p: nat, n: nat, depth: nat)
    requires m != Build && p <= |d|
    ensures Stricter(m, WValues(m, d, p, n, depth), WValues(Next(m), d, p, n, depth))
    decreases |d| - p, 2, n
  {
    hide WValue;
    if n > 0 {
      StricterValue(m, d, p, depth);
      var x := WValue(m, d, p, depth);
      if x.Ok? { StricterValues(m, d, x.pos, n - 1, depth); }
    }
  }

  lemma StricterKey(m: Mode, d: Bytes, p: nat, h: u8)
    requires m != Build && p <= |d| && KeyWidth(h).Some?
    ensures Stricter(m, WKey(m, d, p, h), WKey(Next(m), d, p, h))
  {
    hide WText;
    StricterText(m, d, p);
  }

  lemma {:induction false} StricterMembers(m: Mode, d: Bytes, p: nat, h: u8, n: nat, depth: nat)
    requires m != Build && p <= |d| && KeyWidth(h).Some?
    ensures Stricter(m, WMembers(m, d, p, h, n, depth), WMembers(Next(m), d, p, h, n, depth))
    decreases |d| - p, 2, n
  {
    hide WValue, WKey;
    if n > 0 {
      StricterKey(m, d, p, h);
      var key := WKey(m, d, p, h);
      if key.Ok? {
        StricterValue(m, d, key.pos, depth);
        var x := WValue(m, d, key.pos, depth);
        if x.Ok? { StricterMembers(m, d, x.pos, h, n - 1, depth); }
      }
    }
  }

  /** If a tree can be built the document transcodes, if it transcodes it validates, and if
      it validates it can be skipped, each ending at the same byte. */
  lemma Chain(d: Bytes, p: nat, depth: nat)
    ensures WValue(Build, d, p, depth).Ok? ==> WValue(Transcode, d, p, depth) == WValue(Build, d, p, depth)
    ensures WValue(Transcode, d, p, depth).Ok? ==> WValue(Validate, d, p, depth) == WValue(Transcode, d, p, depth)
    ensures WValue(Validate, d, p, depth).Ok? ==> WValue(Skip, d, p, depth) == WValue(Validate, d, p, depth)
  {
    StricterValue(Skip, d, p, depth);
    StricterValue(Validate, d, p, depth);
    StricterValue(Transcode, d, p, depth);
  }

  // ---------------------------------------------------------------------
  // What transcoding refuses of a valid value
  // ---------------------------------------------------------------------

  predicate NoFloat128(h: u8, n: nat) {
    n == 0 || !IsFloat128(h)
  }

  /** No type tag, no 128-bit float to decode, and only defined matrix layouts. */
  predicate Plain(n: Node)
    requires WellFormed(n)
    decreases n, 1
  {
    match n
    case Num(h, _) => !IsFloat128(h)
    case Obj(h, _, members) => PlainMembers(h, members)
    case Arr(_, items) => PlainAll(items)
    case FixedArr(form, _) => NoFloat128(form.h, form.Count())
    case Tagged(_, _) => false
    case Mat(layout, extents, value) => (layout == LAYOUT_RIGHT || layout == LAYOUT_LEFT) && Plain(extents) && Plain(value)
    case Cpx(pre, _) => NoFloat128(pre.class_, pre.Pairs())
    case _ => true
  }

  predicate PlainAll(items: seq<Node>)
    requires AllWellFormed(items)
    decreases items, 0
  {
    items == [] || (Plain(items[0]) && PlainAll(items[1..]))
  }

  predicate PlainMembers(h: u8, members: seq<Member>)
    requires MembersWellFormed(h, members)
    decreases members, 0
  {
    members == [] || (Plain(members[0].value) && PlainMembers(h, members[1..]))
  }

  lemma {:induction false} TextsOkAlike(ts: seq<Text>)
    ensures TextsOk(Transcode, ts) <==> TextsOk(Validate, ts)
  {
    if ts != [] { TextsOkAlike(ts[1..]); }
  }

  lemma {:induction false} TranscodeAccepts(n: Node)
    requires WellFormed(n)
    ensures Accepts(Transcode, n) <==> Accepts(Validate, n) && Plain(n)
    decreases n, 1
  {
    match n
    case Obj(h, _, members) => TranscodeAcceptsMembers(h, members);
    case Arr(_, items) => TranscodeAcceptsAll(items);
    case StrArr(_, texts) => TextsOkAlike(texts);
    case Mat(_, extents, value) => TranscodeAccepts(extents); TranscodeAccepts(value);
    case _ =>
  }

  lemma {:induction false} TranscodeAcceptsAll(items: seq<Node>)
    requires AllWellFormed(items)
    ensures AcceptsAll(Transcode, items) <==> AcceptsAll(Validate, items) && PlainAll(items)
    decreases items, 0
  {
    if items != [] {
      TranscodeAccepts(items[0]);
      TranscodeAcceptsAll(items[1..]);
    }
  }

  lemma {:induction false} TranscodeAcceptsMembers(h: u8, members: seq<Member>)
    requires MembersWellFormed(h, members)
    ensures AcceptsMembers(Transcode, h, members) <==> AcceptsMembers(Validate, h, members) && PlainMembers(h, members)
    decreases members, 0
  {
    if members != [] {
      TranscodeAccepts(members[0].value);
      TranscodeAcceptsMembers(h, members[1..]);
    }
  }

  /** A validated value transcodes exactly when it is plain. */
  lemma TranscodesIffPlain(d: Bytes, p: nat, depth: nat)
    requires depth <= MAX_DEPTH && WValue(Validate, d, p, depth).Ok?
    ensures var r := WValue(Validate, d, p, depth);
            WellFormed(r.value) && (WValue(Transcode, d, p, depth).Ok? <==> Plain(r.value))
  {
    var r := WValue(Validate, d, p, depth);
    WalkIffEncoding(Validate, d, p, depth, r.value, r.pos);
    WalkIffEncoding(Transcode, d, p, depth, r.value, r.pos);
    TranscodeAccepts(r.value);
    Chain(d, p, depth);
  }
}

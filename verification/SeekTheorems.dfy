/** A seek finds what the tree has: `seek` against `Value::pointer`. */
module SeekTheorems {
  import opened Bits
  import opened Wrappers
  import opened Headers
  import opened Wire
  import opened Grammar
  import opened Walks
  import opened WalkProofs
  import opened Pointers
  import opened Readers
  import opened Seeks
  import AssocLists
  import PackedBools
  import Trees
  import WalkChain
  import WalkShift
  import WalkTheorems

  // ---------------------------------------------------------------------
  // What a token names in a value
  // ---------------------------------------------------------------------

  function FindMember(h: u8, token: Bytes, members: seq<Member>): (r: Option<Node>)
    ensures MembersWellFormed(h, members) && r.Some? ==> WellFormed(r.value)
  {
    if members == [] then None
    else if Hits(h, token, members[0].key) then Some(members[0].value)
    else FindMember(h, token, members[1..])
  }

  /** What a token names in a value. A typed array's element is the value it would be with a
      header of its own. */
  function ChildOf(n: Node, token: Bytes): (r: Option<Node>)
    requires WellFormed(n)
    ensures r.Some? ==> WellFormed(r.value)
  {
    match n
    case Obj(h, _, members) => FindMember(h, token, members)
    case _ =>
      var i := Index(token);
      if i.Err? then None else ElementAt(n, i.value)
  }

  /** The same, once the token's escapes have been checked. */
  function Reached(n: Node, token: Bytes): (r: Option<Node>)
    requires WellFormed(n)
    ensures r.Some? ==> WellFormed(r.value)
  {
    if Escaped(token) then ChildOf(n, token) else None
  }

  function ElementAt(n: Node, i: nat): (r: Option<Node>)
    requires WellFormed(n)
    ensures r.Some? ==> WellFormed(r.value)
  {
    ElementsFit(n, i);
    match n
    case Arr(_, items) => if i < |items| then Some(items[i]) else None
    case BoolArr(z, payload) =>
      if i < SizeValue(z) then Some(Atom(if PackedBools.Element(payload, i) then TRUE else FALSE)) else None
    case StrArr(_, texts) => if i < |texts| then Some(Str(texts[i])) else None
    case FixedArr(form, payload) =>
      if i < form.Count() then Some(Num(ElementOf(form.h), Chunk(payload, FixedWidth(form.h).value, form.Count(), i))) else None
    case _ => None
  }

  lemma ElementsFit(n: Node, i: nat)
    requires WellFormed(n)
    ensures n.Arr? && i < |n.items| ==> WellFormed(n.items[i])
    ensures n.StrArr? && i < |n.texts| ==> TextFits(n.texts[i])
    ensures n.FixedArr? ==> Ty(ElementOf(n.form.h)) == TY_NUMBER && FixedWidth(ElementOf(n.form.h)) == FixedWidth(n.form.h)
  {
    hide AllWellFormed, TextsFit;
    match n
    case Arr(_, items) => if i < |items| { ItemFits(items, i); }
    case StrArr(_, texts) => if i < |texts| { TextAtFits(texts, i); }
    case FixedArr(form, _) => ElementFields(form.h);
    case _ =>
  }

  lemma {:induction false} ItemFits(items: seq<Node>, i: nat)
    requires AllWellFormed(items) && i < |items|
    ensures WellFormed(items[i])
  {
    hide WellFormed;
    if i > 0 { ItemFits(items[1..], i - 1); }
  }

  lemma {:induction false} TextAtFits(ts: seq<Text>, i: nat)
    requires TextsFit(ts) && i < |ts|
    ensures TextFits(ts[i])
  {
    if i > 0 { TextAtFits(ts[1..], i - 1); }
  }

  /** The `i`th of `n` chunks of `width` bytes. */
  function Chunk(payload: Bytes, width: nat, n: nat, i: nat): (r: Bytes)
    requires |payload| == n * width && i < n
    ensures |r| == width
  {
    ChunkFits(width, n, i);
    payload[i * width..i * width + width]
  }

  lemma ChunkFits(width: nat, n: nat, i: nat)
    requires i < n
    ensures i * width + width <= n * width
  {
    assert (n - i - 1) * width >= 0;
    assert n * width == i * width + width + (n - i - 1) * width;
  }

  /** A walk in mode `m` from here takes `n`. */
  ghost predicate Stands(m: Mode, d: Bytes, p: nat, implied: Option<u8>, depth: nat, n: Node)
    requires p <= |d|
  {
    var o := if implied.Some? then WBody(m, d, p, implied.value, depth) else WValue(m, d, p, depth);
    o.Ok? && o.value == n
  }

  /** The step lands on what the token names, or the token names nothing and it fails with
      `code`. */
  ghost predicate Finds(m: Mode, d: Bytes, s: Out<Option<u8>>, depth: nat, c: Option<Node>, code: ErrorCode)
    requires s.Ok? ==> s.pos <= |d|
  {
    s.Ok? == c.Some? && (if s.Ok? then Stands(m, d, s.pos, s.value, depth, c.value) else s.code == code)
  }

  /** Why an element a token names is not there: it is no index at all, or none of this array. */
  function NoElement(token: Bytes): ErrorCode {
    if Index(token).Err? then Index(token).error else NoSuchValue
  }

  // ---------------------------------------------------------------------
  // One step
  // ---------------------------------------------------------------------

  lemma SkipFollows(m: Mode, d: Bytes, p: nat, depth: nat)
    ensures WValue(m, d, p, depth).Ok? ==> WValue(Skip, d, p, depth) == WValue(m, d, p, depth)
  {
    hide WValue;
    WalkChain.Chain(d, p, depth);
  }

  lemma TextFollows(m: Mode, d: Bytes, p: nat)
    ensures WText(m, d, p).Ok? ==> WText(Skip, d, p) == WText(m, d, p)
  {
  }

  lemma KeyFollows(m: Mode, d: Bytes, p: nat, h: u8)
    requires p <= |d| && KeyWidth(h).Some?
    ensures WKey(m, d, p, h).Ok? ==> WKey(Skip, d, p, h) == WKey(m, d, p, h)
  {
    hide WText;
    TextFollows(m, d, p);
  }

  lemma {:induction false} MemberFinds(m: Mode, d: Bytes, p: nat, h: u8, token: Bytes, n: nat, depth: nat)
    requires p <= |d| && KeyWidth(h).Some? && WMembers(m, d, p, h, n, depth).Ok?
    ensures Finds(m, d, SMember(d, p, h, token, n, depth), depth, FindMember(h, token, WMembers(m, d, p, h, n, depth).value), NoSuchValue)
    decreases n
  {
    hide WValue, WKey, Hits;
    if n > 0 {
      var key := WKey(m, d, p, h);
      var x := WValue(m, d, key.pos, depth);
      var rest := WMembers(m, d, x.pos, h, n - 1, depth);
      KeyFollows(m, d, p, h);
      SkipFollows(m, d, key.pos, depth);
      var all := WMembers(m, d, p, h, n, depth).value;
      assert all[1..] == rest.value;
      MemberFinds(m, d, x.pos, h, token, n - 1, depth);
    }
  }

  lemma {:induction false} NoIntegerNoHit(h: u8, token: Bytes, members: seq<Member>)
    requires Sub(h) != CAT_FLOAT && Wanted(h, token).None?
    ensures FindMember(h, token, members) == None
  {
    if members != [] { NoIntegerNoHit(h, token, members[1..]); }
  }

  lemma ObjectFinds(m: Mode, d: Bytes, p: nat, h: u8, token: Bytes, depth: nat)
    requires p <= |d| && WObject(m, d, p, h, depth).Ok?
    ensures Finds(m, d, SObject(d, p, h, token, depth), depth + 1, FindMember(h, token, WObject(m, d, p, h, depth).value.members),
                  NoSuchValue)
  {
    hide WMembers, SMember, Wanted, FindMember;
    var z := SizeField(d, p);
    var members := WMembers(m, d, z.pos, h, SizeValue(z.value), depth + 1);
    MemberFinds(m, d, z.pos, h, token, SizeValue(z.value), depth + 1);
    if Sub(h) != CAT_FLOAT && Wanted(h, token).None? { NoIntegerNoHit(h, token, members.value); }
  }

  lemma {:induction false} ItemFinds(m: Mode, d: Bytes, p: nat, n: nat, i: nat, depth: nat)
    requires p <= |d| && i < n && WValues(m, d, p, n, depth).Ok?
    ensures |WValues(m, d, p, n, depth).value| == n
    ensures var s := WValues(Skip, d, p, i, depth);
            s.Ok? && WValue(m, d, s.pos, depth).Ok? && WValue(m, d, s.pos, depth).value == WValues(m, d, p, n, depth).value[i]
    decreases n
  {
    hide WValue;
    var x := WValue(m, d, p, depth);
    SkipFollows(m, d, p, depth);
    ItemCount(m, d, p, n, depth);
    if i > 0 {
      var all, rest := WValues(m, d, p, n, depth).value, WValues(m, d, x.pos, n - 1, depth).value;
      assert all[1..] == rest;
      ItemFinds(m, d, x.pos, n - 1, i - 1, depth);
    }
  }

  lemma {:induction false} ItemCount(m: Mode, d: Bytes, p: nat, n: nat, depth: nat)
    requires p <= |d| && WValues(m, d, p, n, depth).Ok?
    ensures |WValues(m, d, p, n, depth).value| == n
    decreases n
  {
    hide WValue;
    if n > 0 { ItemCount(m, d, WValue(m, d, p, depth).pos, n - 1, depth); }
  }

  lemma ArrayFinds(m: Mode, d: Bytes, p: nat, h: u8, token: Bytes, depth: nat)
    requires p <= |d| && BareHeader(h) && WArray(m, d, p, depth).Ok?
    ensures var items := WArray(m, d, p, depth).value.items;
            Finds(m, d, SArray(d, p, h, token, depth), depth + 1,
                  if Index(token).Ok? && Index(token).value < |items| then Some(items[Index(token).value]) else None, NoElement(token))
  {
    hide WValues, WValue;
    var z := SizeField(d, p);
    ItemCount(m, d, z.pos, SizeValue(z.value), depth + 1);
    if Index(token).Ok? && Index(token).value < SizeValue(z.value) {
      ItemFinds(m, d, z.pos, SizeValue(z.value), Index(token).value, depth + 1);
    }
  }

  lemma {:induction false} TextFinds(m: Mode, d: Bytes, p: nat, n: nat, i: nat)
    requires p <= |d| && i < n && WTexts(m, d, p, n).Ok?
    ensures |WTexts(m, d, p, n).value| == n
    ensures var s := WTexts(Skip, d, p, i);
            s.Ok? && WText(m, d, s.pos).Ok? && WText(m, d, s.pos).value == WTexts(m, d, p, n).value[i]
    decreases n
  {
    hide WText;
    var t := WText(m, d, p);
    TextFollows(m, d, p);
    TextCount(m, d, p, n);
    if i > 0 {
      var all, rest := WTexts(m, d, p, n).value, WTexts(m, d, t.pos, n - 1).value;
      assert all[1..] == rest;
      TextFinds(m, d, t.pos, n - 1, i - 1);
    }
  }

  lemma {:induction false} TextCount(m: Mode, d: Bytes, p: nat, n: nat)
    requires p <= |d| && WTexts(m, d, p, n).Ok?
    ensures |WTexts(m, d, p, n).value| == n
    decreases n
  {
    hide WText;
    if n > 0 { TextCount(m, d, WText(m, d, p).pos, n - 1); }
  }

  lemma {:induction false} ChunkRepresentable(h: u8, width: nat, payload: Bytes, n: nat, i: nat)
    requires width > 0 && |payload| == n * width && i < n && AllRepresentable(h, width, payload)
    ensures Representable(h, Chunk(payload, width, n, i))
    decreases n
  {
    hide Representable;
    ChunkFits(width, n, 0);
    if i > 0 {
      assert |payload[width..]| == (n - 1) * width;
      ChunkRepresentable(h, width, payload[width..], n - 1, i - 1);
      ChunkFits(width, n, i);
      assert (i - 1) * width + width == i * width;
      assert Chunk(payload[width..], width, n - 1, i - 1) == Chunk(payload, width, n, i);
    }
  }

  lemma ElementFields(h: u8)
    ensures Ty(ElementOf(h)) == TY_NUMBER && Sub(ElementOf(h)) == Sub(h) && CountOf(ElementOf(h)) == CountOf(h)
    ensures Ty(ComplexComponents(h)) == TY_TYPED_ARRAY
  {
    HeaderFields(h);
  }

  lemma SliceOfSlice(d: Bytes, p: nat, len: nat, at: nat, w: nat)
    requires p + len <= |d| && at + w <= len
    ensures d[p..p + len][at..at + w] == d[p + at..p + at + w]
  {
    var a, b := d[p..p + len][at..at + w], d[p + at..p + at + w];
    assert |a| == |b| && forall i | 0 <= i < w :: a[i] == d[p + at + i] == b[i];
  }

  lemma BlockFinds(m: Mode, d: Bytes, p: nat, h: u8, n: nat, i: nat, depth: nat)
    requires p <= |d| && FixedWidth(h).Some? && i < n && WBlock(m, d, p, h, n, FixedWidth(h).value).Ok?
    ensures var w, payload := FixedWidth(h).value, WBlock(m, d, p, h, n, FixedWidth(h).value).value;
            && |payload| == n * w && i * w < TWO_TO_THE_64 && p + i * w + w <= |d|
            && Stands(m, d, p + i * w, Some(ElementOf(h)), depth, Num(ElementOf(h), Chunk(payload, w, n, i)))
  {
    hide Representable, AllRepresentable, WBlock, WBody, ByteWidth, IsFloat128, ElementOf;
    var w := FixedWidth(h).value;
    var payload := WBlock(m, d, p, h, n, w).value;
    BlockBytes(m, d, p, h, n, w);
    ChunkFits(w, n, i);
    SliceOfSlice(d, p, n * w, i * w, w);
    if m == Build { ChunkRepresentable(h, w, payload, n, i); }
    ChunkStands(m, d, p + i * w, h, Chunk(payload, w, n, i), depth);
  }

  lemma ChunkStands(m: Mode, d: Bytes, p: nat, h: u8, chunk: Bytes, depth: nat)
    requires FixedWidth(h) == Some(|chunk|) && p + |chunk| <= |d| && d[p..p + |chunk|] == chunk
    requires (m.Decodes() ==> !IsFloat128(h)) && (m == Build ==> Representable(h, chunk))
    ensures Stands(m, d, p, Some(ElementOf(h)), depth, Num(ElementOf(h), chunk))
  {
    ElementFields(h);
    SameNumber(h, chunk);
    hide Representable, WBody, ElementOf;
    NumStands(m, d, p, ElementOf(h), chunk, depth);
  }

  /** What a block walked says of its bytes. */
  lemma BlockBytes(m: Mode, d: Bytes, p: nat, h: u8, n: nat, width: nat)
    requires p <= |d| && FixedWidth(h) == Some(width) && WBlock(m, d, p, h, n, width).Ok?
    ensures var payload := WBlock(m, d, p, h, n, width).value;
            && |payload| == n * width < TWO_TO_THE_64 && p + n * width <= |d| && payload == d[p..p + n * width]
            && (m.Decodes() && n > 0 ==> !IsFloat128(h)) && (m == Build ==> AllRepresentable(h, width, payload))
  {
    hide AllRepresentable, IsFloat128, ByteWidth;
  }

  lemma NumStands(m: Mode, d: Bytes, p: nat, h: u8, payload: Bytes, depth: nat)
    requires Ty(h) == TY_NUMBER && FixedWidth(h) == Some(|payload|)
    requires p + |payload| <= |d| && d[p..p + |payload|] == payload
    requires (m.Decodes() ==> !IsFloat128(h)) && (m == Build ==> Representable(h, payload))
    ensures WBody(m, d, p, h, depth) == Out.Ok(Num(h, payload), p + |payload|)
  {
    hide Representable, WObject, WArray, WTyped, WExtension, WText;
    assert WNum(m, d, p, h) == Out.Ok(Num(h, payload), p + |payload|);
  }

  lemma SameNumber(h: u8, payload: Bytes)
    ensures Representable(ElementOf(h), payload) == Representable(h, payload)
  {
    ElementFields(h);
  }

  lemma BoolFinds(m: Mode, d: Bytes, p: nat, h: u8, i: nat, depth: nat)
    requires p <= |d| && depth < MAX_DEPTH && WTyped(m, d, p, h).Ok? && WellFormed(WTyped(m, d, p, h).value)
    requires TypedHead(d, p, h).value.Bools?
    ensures Finds(m, d, STyped(d, p, h, i, depth), depth + 1, ElementAt(WTyped(m, d, p, h).value, i), NoSuchValue)
  {
    hide TypedHead, SizeValue, WTexts, WBlock, FixedWidth, TextsFit, AllWellFormed, MembersWellFormed, WBody, WValue;
    var q := TypedHead(d, p, h).pos;
    AtomStands(m, d, q, TRUE, depth + 1);
    AtomStands(m, d, q, FALSE, depth + 1);
  }

  lemma AtomStands(m: Mode, d: Bytes, p: nat, h: u8, depth: nat)
    requires p <= |d| && (h == TRUE || h == FALSE)
    ensures WBody(m, d, p, h, depth) == Out.Ok(Atom(h), p)
  {
    hide WObject, WArray, WTyped, WExtension, WNum, WText;
  }

  lemma StringFinds(m: Mode, d: Bytes, p: nat, h: u8, i: nat, depth: nat)
    requires p <= |d| && depth < MAX_DEPTH && WTyped(m, d, p, h).Ok? && WellFormed(WTyped(m, d, p, h).value)
    requires TypedHead(d, p, h).value.Strings?
    ensures Finds(m, d, STyped(d, p, h, i, depth), depth + 1, ElementAt(WTyped(m, d, p, h).value, i), NoSuchValue)
  {
    hide TypedHead, SizeValue, WTexts, WText;
    var form, q := TypedHead(d, p, h).value, TypedHead(d, p, h).pos;
    TextCount(m, d, q, form.Count());
    if i < form.Count() { TextFinds(m, d, q, form.Count(), i); }
  }

  lemma FixedFinds(m: Mode, d: Bytes, p: nat, h: u8, i: nat, depth: nat)
    requires p <= |d| && depth < MAX_DEPTH && WTyped(m, d, p, h).Ok? && WellFormed(WTyped(m, d, p, h).value)
    requires !TypedHead(d, p, h).value.Bools? && !TypedHead(d, p, h).value.Strings?
    ensures Finds(m, d, STyped(d, p, h, i, depth), depth + 1, ElementAt(WTyped(m, d, p, h).value, i), NoSuchValue)
  {
    hide TypedHead, SizeValue, WBlock, WBody;
    var form, q := TypedHead(d, p, h).value, TypedHead(d, p, h).pos;
    if i < form.Count() { BlockFinds(m, d, q, form.h, form.Count(), i, depth + 1); }
  }

  lemma TypedFinds(m: Mode, d: Bytes, p: nat, h: u8, i: nat, depth: nat)
    requires p <= |d| && depth < MAX_DEPTH && WTyped(m, d, p, h).Ok? && WellFormed(WTyped(m, d, p, h).value)
    ensures Finds(m, d, STyped(d, p, h, i, depth), depth + 1, ElementAt(WTyped(m, d, p, h).value, i), NoSuchValue)
  {
    hide WElements, STyped, ElementAt, Finds, WellFormed, TypedHead;
    var form := TypedHead(d, p, h).value;
    if form.Bools? {
      BoolFinds(m, d, p, h, i, depth);
    } else if form.Strings? {
      StringFinds(m, d, p, h, i, depth);
    } else {
      FixedFinds(m, d, p, h, i, depth);
    }
  }

  /** The header decides what kind of value is there. */
  lemma DescendBody(m: Mode, d: Bytes, p: nat, implied: Option<u8>, depth: nat, n: Node)
    requires p <= |d| && Stands(m, d, p, implied, depth, n)
    ensures implied.None? ==> p < |d|
    ensures var h, q := if implied.Some? then implied.value else d[p], if implied.Some? then p else p + 1;
            && (Ty(h) == TY_OBJECT ==> WObject(m, d, q, h, depth).Ok? && WObject(m, d, q, h, depth).value == n && n.Obj? && n.h == h)
            && (Ty(h) == TY_GENERIC_ARRAY ==>
                  BareHeader(h) && WArray(m, d, q, depth).Ok? && WArray(m, d, q, depth).value == n && n.Arr?)
            && (Ty(h) == TY_TYPED_ARRAY ==>
                  && depth < MAX_DEPTH && WTyped(m, d, q, h).Ok? && WTyped(m, d, q, h).value == n
                  && (n.BoolArr? || n.StrArr? || n.FixedArr?))
            && (Ty(h) !in {TY_OBJECT, TY_GENERIC_ARRAY, TY_TYPED_ARRAY} ==>
                  && h != DELIMITER && Ty(h) != TY_UNDEFINED
                  && (n.Atom? || n.Num? || n.Str? || n.Tagged? || n.Mat? || n.Cpx?))
  {
    hide WValues, WMembers, WBlock, WText, WTexts, TypedHead, ComplexHead, SizeField, Take, WTagged, WMatrix, WComplex;
    var h, q := if implied.Some? then implied.value else d[p], if implied.Some? then p else p + 1;
    assert WBody(m, d, q, h, depth).Ok? && WBody(m, d, q, h, depth).value == n;
    HeaderFields(h);
    ExtensionKind(m, d, q, h, depth);
  }

  lemma ExtensionKind(m: Mode, d: Bytes, p: nat, h: u8, depth: nat)
    requires p <= |d|
    ensures WExtension(m, d, p, h, depth).Ok? ==>
              ExtId(h) != EXT_DELIMITER
              && var n := WExtension(m, d, p, h, depth).value; n.Tagged? || n.Mat? || n.Cpx?
  {
    hide WValue, WBlock, ComplexHead, SizeField, Take;
  }

  /** Why a token names nothing in `n`. */
  function Missing(n: Node, token: Bytes): ErrorCode {
    if n.Arr? || n.BoolArr? || n.StrArr? || n.FixedArr? then NoElement(token) else NoSuchValue
  }

  /** Descending by one token from a value a walk takes: it succeeds exactly when the token
      names something in the value, and lands where the same walk takes that. */
  lemma DescendFinds(m: Mode, d: Bytes, p: nat, implied: Option<u8>, token: Bytes, depth: nat, n: Node)
    requires p <= |d| && depth <= MAX_DEPTH && Stands(m, d, p, implied, depth, n) && WellFormed(n)
    ensures Finds(m, d, SDescend(d, p, implied, token, depth), depth + 1, ChildOf(n, token), Missing(n, token))
  {
    hide WObject, WArray, WTyped, WExtension, WNum, WText, SObject, SArray, STyped;
    DescendBody(m, d, p, implied, depth, n);
    var h := if implied.Some? then implied.value else d[p];
    var p1 := if implied.Some? then p else p + 1;
    if Ty(h) == TY_OBJECT {
      ObjectFinds(m, d, p1, h, token, depth);
    } else if Ty(h) == TY_GENERIC_ARRAY {
      ArrayFinds(m, d, p1, h, token, depth);
    } else if Ty(h) == TY_TYPED_ARRAY && Index(token).Ok? {
      TypedFinds(m, d, p1, h, Index(token).value, depth);
    }
  }

  // ---------------------------------------------------------------------
  // The same step in the tree
  // ---------------------------------------------------------------------

  function KeyTexts(h: u8, members: seq<Member>): (r: seq<Bytes>)
    ensures |r| == |members|
  {
    seq<Bytes>(|members|, i requires 0 <= i < |members| => Trees.KeyText(h, members[i].key))
  }

  /** A document with no extension in it, no object of which has two keys alike. */
  predicate Addressable(n: Node)
    decreases n, 1
  {
    match n
    case Obj(h, _, members) => MembersAddressable(h, members)
    case Arr(_, items) => AllAddressable(items)
    case Tagged(_, _) => false
    case Mat(_, _, _) => false
    case Cpx(_, _) => false
    case _ => true
  }

  predicate AllAddressable(items: seq<Node>)
    decreases items, 0
  {
    items == [] || (Addressable(items[0]) && AllAddressable(items[1..]))
  }

  predicate MembersAddressable(h: u8, members: seq<Member>)
    decreases members, 0
  {
    || members == []
    || (&& Addressable(members[0].value) && MembersAddressable(h, members[1..])
        && Trees.KeyText(h, members[0].key) !in KeyTexts(h, members[1..]))
  }

  /** The member whose key reads as `text`. */
  function Named(h: u8, text: Bytes, members: seq<Member>): Option<Node> {
    if members == [] then None
    else if Trees.KeyText(h, members[0].key) == text then Some(members[0].value)
    else Named(h, text, members[1..])
  }

  lemma {:induction false} NamedIsKey(h: u8, text: Bytes, members: seq<Member>)
    requires text !in KeyTexts(h, members)
    ensures Named(h, text, members) == None
  {
    if members != [] {
      assert KeyTexts(h, members)[0] == Trees.KeyText(h, members[0].key);
      forall i | 0 <= i < |members| - 1 ensures KeyTexts(h, members[1..])[i] != text {
        assert KeyTexts(h, members)[i + 1] == KeyTexts(h, members[1..])[i];
      }
      NamedIsKey(h, text, members[1..]);
    }
  }

  lemma {:induction false} KeyIsNamed(h: u8, text: Bytes, members: seq<Member>)
    requires text in KeyTexts(h, members)
    ensures Named(h, text, members).Some?
  {
    if Trees.KeyText(h, members[0].key) != text {
      var i :| 0 <= i < |members| && KeyTexts(h, members)[i] == text;
      assert KeyTexts(h, members[1..])[i - 1] == text;
      KeyIsNamed(h, text, members[1..]);
    }
  }

  /** With no two keys alike, looking up the map a tree fills is finding the member. */
  lemma {:induction false} FilledLookup(entries: seq<(Bytes, Trees.Value)>, h: u8, members: seq<Member>, text: Bytes)
    requires AssocLists.Distinct(entries) && MembersAddressable(h, members)
    ensures AssocLists.Lookup(Trees.Filled(entries, h, members), text)
            == match Named(h, text, members) case Some(x) => Some(Trees.TreeOf(x)) case None => AssocLists.Lookup(entries, text)
    decreases members, 0
  {
    hide AssocLists.Inserted, AssocLists.Lookup, Trees.KeyText, Trees.TreeOf, Addressable;
    if members != [] {
      var key, value, rest := Trees.KeyText(h, members[0].key), Trees.TreeOf(members[0].value), members[1..];
      InsertedLookup(entries, key, value, text);
      FilledLookup(AssocLists.Inserted(entries, key, value), h, rest, text);
      if key == text { NamedIsKey(h, text, rest); }
    }
  }

  lemma InsertedLookup<V>(entries: AssocLists.Entries<V>, key: Bytes, value: V, text: Bytes)
    requires AssocLists.Distinct(entries)
    ensures var r := AssocLists.Inserted(entries, key, value);
            && AssocLists.Distinct(r)
            && AssocLists.Lookup(r, text) == if text == key then Some(value) else AssocLists.Lookup(entries, text)
  {
    hide AssocLists.Lookup, AssocLists.Inserted, AssocLists.ToMap, AssocLists.Keys, AssocLists.Distinct;
    var r := AssocLists.Inserted(entries, key, value);
    AssocLists.InsertedRefines(entries, key, value);
    AssocLists.LookupRefines(entries, text);
    AssocLists.LookupRefines(r, text);
  }

  lemma PowersOf256()
    ensures Pow256(1) == 0x100 && Pow256(2) == 0x1_0000 && Pow256(4) == 0x1_0000_0000
    ensures Pow256(8) == 0x1_0000_0000_0000_0000 && Pow256(16) == 0x1_0000_0000_0000_0000_0000_0000_0000_0000
  {
    assert Pow256(3) == 0x100_0000;
    assert Pow256(5) == 0x100_0000_0000 && Pow256(6) == 0x1_0000_0000_0000 && Pow256(7) == 0x100_0000_0000_0000;
    assert Pow256(9) == 0x100_0000_0000_0000_0000 && Pow256(10) == 0x1_0000_0000_0000_0000_0000;
    assert Pow256(11) == 0x100_0000_0000_0000_0000_0000 && Pow256(12) == 0x1_0000_0000_0000_0000_0000_0000;
    assert Pow256(13) == 0x100_0000_0000_0000_0000_0000_0000 && Pow256(14) == 0x1_0000_0000_0000_0000_0000_0000_0000;
    assert Pow256(15) == 0x100_0000_0000_0000_0000_0000_0000_0000;
  }

  /** Every integer key is one a 128-bit integer holds. */
  lemma KeyRange(h: u8, key: Bytes)
    requires Sub(h) != CAT_FLOAT && KeyWidth(h) == Some(|key|)
    ensures Sub(h) == CAT_SIGNED ==> -TWO_TO_THE_127 <= KeyValue(h, key) < TWO_TO_THE_127
    ensures Sub(h) != CAT_SIGNED ==> 0 <= KeyValue(h, key) < 2 * TWO_TO_THE_127
  {
    PowersOf256();
    LittleEndianBound(key);
    assert |key| in {1, 2, 4, 8, 16};
  }

  /** Among string keys a token finds the one it spells. */
  lemma {:induction false} FindIsNamed(h: u8, token: Bytes, members: seq<Member>)
    requires Sub(h) == CAT_FLOAT
    ensures FindMember(h, token, members) == Named(h, Unescape(token), members)
  {
    if members != [] { FindIsNamed(h, token, members[1..]); }
  }

  /** Among integer keys a token finds the one with its value, however it spells it. */
  lemma {:induction false} FindIsValue(h: u8, token: Bytes, members: seq<Member>)
    requires Sub(h) != CAT_FLOAT && Wanted(h, token).Some?
    ensures FindMember(h, token, members) == Named(h, Trees.Decimal(Wanted(h, token).value), members)
  {
    hide Wanted, Trees.Decimal;
    if members != [] {
      var v, w := KeyValue(h, members[0].key), Wanted(h, token).value;
      assert Trees.KeyText(h, members[0].key) == Trees.Decimal(v);
      if Trees.Decimal(v) == Trees.Decimal(w) { DecimalIsOne(v, w); }
      FindIsValue(h, token, members[1..]);
    }
  }

  /** A token that spells an integer key spells its value as it is written. */
  lemma {:induction false} NamedIsWritten(h: u8, token: Bytes, members: seq<Member>)
    requires Sub(h) != CAT_FLOAT && MembersWellFormed(h, members) && Named(h, Unescape(token), members).Some?
    ensures Wanted(h, token).Some? && token == Trees.Decimal(Wanted(h, token).value)
  {
    hide Trees.Decimal, WellFormed, Unescape;
    var key := members[0].key;
    if Trees.KeyText(h, key) == Unescape(token) {
      assert KeyFits(h, members[0]);
      KeyRange(h, key);
      DecimalToken(token, KeyValue(h, key));
      DecimalParses(KeyValue(h, key));
    } else {
      NamedIsWritten(h, token, members[1..]);
    }
  }

  lemma {:induction false} FoundIsSound(h: u8, token: Bytes, members: seq<Member>)
    requires MembersWellFormed(h, members) && MembersAddressable(h, members)
    ensures FindMember(h, token, members).Some? ==>
              WellFormed(FindMember(h, token, members).value) && Addressable(FindMember(h, token, members).value)
  {
    hide Hits, WellFormed, Addressable, KeyFits;
    if members != [] { FoundIsSound(h, token, members[1..]); }
  }

  lemma {:induction false} ItemIsSound(items: seq<Node>, i: nat)
    requires AllWellFormed(items) && AllAddressable(items) && i < |items|
    ensures WellFormed(items[i]) && Addressable(items[i])
    ensures |Trees.TreesOf(items)| == |items| && Trees.TreesOf(items)[i] == Trees.TreeOf(items[i])
  {
    hide WellFormed, Addressable, Trees.TreeOf;
    TreesCount(items);
    var rest := items[1..];
    if i > 0 { ItemIsSound(rest, i - 1); }
  }

  lemma {:induction false} TreesCount(items: seq<Node>)
    ensures |Trees.TreesOf(items)| == |items|
  {
    hide Trees.TreeOf;
    if items != [] { TreesCount(items[1..]); }
  }

  lemma {:induction false} StringAt(ts: seq<Text>, i: nat)
    requires TextsFit(ts)
    ensures |Trees.Strings(ts)| == |ts|
    ensures i < |ts| ==> TextFits(ts[i]) && Trees.Strings(ts)[i] == Trees.String(ts[i].text)
  {
    if ts != [] {
      var rest := ts[1..];
      StringAt(rest, if i > 0 then i - 1 else 0);
    }
  }

  lemma {:induction false} NumberAt(h: u8, w: nat, payload: Bytes, n: nat, i: nat)
    requires w > 0 && |payload| == n * w
    ensures |Trees.Numbers(h, w, payload)| == n
    ensures i < n ==> Trees.Numbers(h, w, payload)[i] == Trees.Value.Num(Trees.NumberOf(h, Chunk(payload, w, n, i)))
    decreases n
  {
    hide Trees.NumberOf;
    if n > 0 {
      ChunkFits(w, n, 0);
      var rest := payload[w..];
      assert |rest| == (n - 1) * w;
      NumberAt(h, w, rest, n - 1, if i > 0 then i - 1 else 0);
      if 0 < i < n {
        ChunkFits(w, n, i);
        assert (i - 1) * w + w == i * w;
        assert Chunk(rest, w, n - 1, i - 1) == Chunk(payload, w, n, i);
      }
    }
  }

  /** What a token names in a value and what it names in the value's tree are one. */
  ghost predicate Alike(c: Option<Node>, v: Option<Trees.Value>) {
    c.Some? == v.Some? && (c.Some? ==> v.value == Trees.TreeOf(c.value))
  }

  lemma ElementIsTreeElement(n: Node, i: nat)
    requires WellFormed(n) && Addressable(n) && !n.Obj?
    ensures Alike(ElementAt(n, i), match Trees.TreeOf(n) case Array(items) => (if i < |items| then Some(items[i]) else None) case _ => None)
    ensures ElementAt(n, i).Some? ==> Addressable(ElementAt(n, i).value)
    ensures ElementAt(n, i).Some? <==> i < Elements(n)
  {
    hide Trees.NumberOf, Trees.Numbers, Trees.Strings, Trees.TreesOf, AllWellFormed, AllAddressable, TextsFit, SizeValue;
    match n
    case Arr(_, items) =>
      TreesCount(items);
      if i < |items| { ItemIsSound(items, i); }
    case StrArr(_, texts) => StringAt(texts, i);
    case FixedArr(form, payload) =>
      NumberAt(form.h, FixedWidth(form.h).value, payload, form.Count(), i);
      if i < form.Count() {
        ElementFields(form.h);
        SameNumberOf(form.h, Chunk(payload, FixedWidth(form.h).value, form.Count(), i));
      }
    case _ =>
  }

  lemma SameNumberOf(h: u8, payload: Bytes)
    ensures Trees.NumberOf(ElementOf(h), payload) == Trees.NumberOf(h, payload)
  {
    ElementFields(h);
  }

  /** How many elements an array of any kind has. */
  function Elements(n: Node): nat
    requires WellFormed(n)
  {
    match n
    case Arr(_, items) => |items|
    case BoolArr(z, _) => SizeValue(z)
    case StrArr(_, texts) => |texts|
    case FixedArr(form, _) => form.Count()
    case _ => 0
  }

  /** Where a reader and a tree take a token alike: at string keys unless the token has a stray
      `~` and spells a key all the same; at integer keys and in arrays unless the token means
      one that is there and is not spelled as that integer is written. */
  predicate Spelled(n: Node, token: Bytes)
    requires WellFormed(n)
  {
    match n
    case Obj(h, _, members) =>
      if Sub(h) == CAT_FLOAT then Escaped(token) || Unescape(token) !in KeyTexts(h, members)
      else
        Wanted(h, token).Some? && Trees.Decimal(Wanted(h, token).value) in KeyTexts(h, members) ==>
          token == Trees.Decimal(Wanted(h, token).value)
    case _ =>
      ParseUsize(token).Some? && ParseUsize(token).value < Elements(n) ==> token == Trees.Digits(ParseUsize(token).value)
  }

  /** One token in a value and in its tree: alike exactly when it is spelled so, and otherwise
      a value to one of them and nothing to the other. */
  lemma AlikeIffSpelled(n: Node, token: Bytes)
    requires WellFormed(n) && Addressable(n)
    ensures Alike(Reached(n, token), Child(Trees.TreeOf(n), token)) <==> Spelled(n, token)
    ensures !Spelled(n, token) ==> Reached(n, token).Some? != Child(Trees.TreeOf(n), token).Some?
    ensures Reached(n, token).Some? ==> Addressable(Reached(n, token).value)
  {
    TwoPassesAgree(token);
    if n.Obj? {
      ObjectAlike(n, token);
    } else {
      ArrayAlike(n, token);
    }
  }

  lemma ObjectAlike(n: Node, token: Bytes)
    requires n.Obj? && WellFormed(n) && Addressable(n) && UnescapeToken(token) == Unescape(token)
    ensures Alike(Reached(n, token), Child(Trees.TreeOf(n), token)) <==> Spelled(n, token)
    ensures !Spelled(n, token) ==> Reached(n, token).Some? != Child(Trees.TreeOf(n), token).Some?
    ensures Reached(n, token).Some? ==> Addressable(Reached(n, token).value)
  {
    var h, members, text := n.h, n.members, Unescape(token);
    FoundIsSound(h, token, members);
    FilledLookup([], h, members, text);
    assert Trees.TreeOf(n) == Trees.Object(Trees.Filled([], h, members));
    assert AssocLists.Lookup<Trees.Value>([], text) == None;
    hide Trees.TreeOf, Addressable, WellFormed, FindMember, Named, KeyTexts, Unescape, Escaped, Wanted;
    if Sub(h) == CAT_FLOAT {
      FindIsNamed(h, token, members);
      if text in KeyTexts(h, members) { KeyIsNamed(h, text, members); } else { NamedIsKey(h, text, members); }
    } else {
      if Named(h, text, members).Some? { NamedIsWritten(h, token, members); }
      if Wanted(h, token).None? {
        NoIntegerNoHit(h, token, members);
      } else {
        var v := Wanted(h, token).value;
        var digits := Trees.Decimal(v);
        FindIsValue(h, token, members);
        WantedIsPlain(h, token);
        if token == digits { DecimalToken(token, v); }
        if digits in KeyTexts(h, members) { KeyIsNamed(h, digits, members); } else { NamedIsKey(h, digits, members); }
      }
    }
  }

  /** A token that reads as an integer has no escape in it. */
  lemma WantedIsPlain(h: u8, token: Bytes)
    ensures Wanted(h, token).Some? ==> Escaped(token)
  {
    if TILDE !in token { PlainUnescape(token); }
  }

  lemma ArrayAlike(n: Node, token: Bytes)
    requires !n.Obj? && WellFormed(n) && Addressable(n) && UnescapeToken(token) == Unescape(token)
    ensures Alike(Reached(n, token), Child(Trees.TreeOf(n), token)) <==> Spelled(n, token)
    ensures !Spelled(n, token) ==> Reached(n, token).Some? != Child(Trees.TreeOf(n), token).Some?
    ensures Reached(n, token).Some? ==> Addressable(Reached(n, token).value)
  {
    IndexToken(token);
    PlainParse(token);
    TreeKind(n);
    hide Trees.TreeOf, Index, ParseUsize, Addressable, WellFormed, ElementAt, Elements, Unescape, Escaped;
    if Index(token).Ok? { ElementIsTreeElement(n, Index(token).value); }
    if ParseUsize(token).Some? { ElementIsTreeElement(n, ParseUsize(token).value); }
  }

  /** What parses as an index has nothing in it to unescape. */
  lemma PlainParse(token: Bytes)
    ensures ParseUsize(token).Some? ==> Unescape(token) == token && Escaped(token)
    ensures Index(token).Ok? ==> Escaped(token)
  {
    if TILDE !in token { PlainUnescape(token); }
  }

  lemma TreeKind(n: Node)
    requires !n.Obj? && WellFormed(n) && Addressable(n)
    ensures !Trees.TreeOf(n).Object? && (!Trees.TreeOf(n).Array? ==> Elements(n) == 0)
  {
  }

  // ---------------------------------------------------------------------
  // The whole pointer
  // ---------------------------------------------------------------------

  /** Every token is spelled alike for reader and tree where the ones before it lead. */
  predicate PathSpelled(n: Node, tokens: seq<Bytes>)
    requires WellFormed(n)
    decreases |tokens|
  {
    || tokens == []
    || (Spelled(n, tokens[0])
        && (Reached(n, tokens[0]).Some? ==> PathSpelled(Reached(n, tokens[0]).value, tokens[1..])))
  }

  /** A seek that ended at `s` found what looking in the tree found. */
  ghost predicate Meets(m: Mode, d: Bytes, s: Out<Option<u8>>, depth: nat, v: Option<Trees.Value>)
    requires s.Ok? ==> s.pos <= |d|
  {
    s.Ok? == v.Some? && (s.Ok? ==> exists c :: Stands(m, d, s.pos, s.value, depth, c) && v.value == Trees.TreeOf(c))
  }

  lemma {:induction false} PathFinds(m: Mode, d: Bytes, p: nat, implied: Option<u8>, tokens: seq<Bytes>, depth: nat, n: Node)
    requires p <= |d| && depth <= MAX_DEPTH && Stands(m, d, p, implied, depth, n)
    requires WellFormed(n) && Addressable(n) && PathSpelled(n, tokens)
    ensures Meets(m, d, SPath(d, p, implied, tokens, depth), depth + |tokens|, At(Trees.TreeOf(n), tokens))
    decreases |tokens|
  {
    hide Stands, SDescend, Child, Trees.TreeOf, WellFormed, Addressable, ChildOf, Escaped, Spelled;
    if tokens == [] {
      assert Stands(m, d, p, implied, depth + |tokens|, n);
    } else {
      var rest := tokens[1..];
      var s := SDescend(d, p, implied, tokens[0], depth);
      DescendFinds(m, d, p, implied, tokens[0], depth, n);
      AlikeIffSpelled(n, tokens[0]);
      if Escaped(tokens[0]) && s.Ok? {
        DescendDeepens(d, p, implied, tokens[0], depth);
        PathFinds(m, d, s.pos, s.value, rest, depth + 1, ChildOf(n, tokens[0]).value);
      }
    }
  }

  /** Why a path leads nowhere: the first token with a stray tilde, or the first that names
      nothing where those before it lead. */
  function Refusal(n: Node, tokens: seq<Bytes>): ErrorCode
    requires WellFormed(n)
    decreases |tokens|
  {
    if tokens == [] then NoSuchValue
    else if !Escaped(tokens[0]) then InvalidPointer
    else
      match ChildOf(n, tokens[0])
      case None => Missing(n, tokens[0])
      case Some(c) => Refusal(c, tokens[1..])
  }

  /** Seeking in a value a walk takes fails for one of two reasons, and the pointer and the
      value decide for which. */
  lemma {:induction false} PathRefused(m: Mode, d: Bytes, p: nat, implied: Option<u8>, tokens: seq<Bytes>, depth: nat, n: Node)
    requires p <= |d| && depth <= MAX_DEPTH && Stands(m, d, p, implied, depth, n) && WellFormed(n)
    requires SPath(d, p, implied, tokens, depth).Err?
    ensures SPath(d, p, implied, tokens, depth).code == Refusal(n, tokens) && Refusal(n, tokens) in {InvalidPointer, NoSuchValue}
    decreases |tokens|
  {
    hide Stands, SDescend, WellFormed, ChildOf, Escaped;
    if tokens != [] && Escaped(tokens[0]) {
      var s := SDescend(d, p, implied, tokens[0], depth);
      DescendFinds(m, d, p, implied, tokens[0], depth, n);
      if s.Ok? {
        DescendDeepens(d, p, implied, tokens[0], depth);
        PathRefused(m, d, s.pos, s.value, tokens[1..], depth + 1, ChildOf(n, tokens[0]).value);
      }
    }
  }

  /** Where only the last token is not, reader and tree part: one has a value and the other
      has none. */
  lemma {:induction false} PathParts(m: Mode, d: Bytes, p: nat, implied: Option<u8>, tokens: seq<Bytes>, depth: nat, n: Node)
    requires p <= |d| && depth <= MAX_DEPTH && Stands(m, d, p, implied, depth, n)
    requires WellFormed(n) && Addressable(n) && tokens != []
    requires PathSpelled(n, tokens[..|tokens| - 1]) && !PathSpelled(n, tokens)
    ensures SPath(d, p, implied, tokens, depth).Ok? != At(Trees.TreeOf(n), tokens).Some?
    decreases |tokens|
  {
    hide Stands, SDescend, Child, Trees.TreeOf, WellFormed, Addressable, ChildOf, Escaped, Spelled;
    var rest := tokens[1..];
    var s := SDescend(d, p, implied, tokens[0], depth);
    DescendFinds(m, d, p, implied, tokens[0], depth, n);
    AlikeIffSpelled(n, tokens[0]);
    if rest != [] {
      assert tokens[..|tokens| - 1][1..] == rest[..|rest| - 1];
      DescendDeepens(d, p, implied, tokens[0], depth);
      PathParts(m, d, s.pos, s.value, rest, depth + 1, ChildOf(n, tokens[0]).value);
    }
  }

  lemma DescendDeepens(d: Bytes, p: nat, implied: Option<u8>, token: Bytes, depth: nat)
    requires p <= |d| && SDescend(d, p, implied, token, depth).Ok?
    ensures depth < MAX_DEPTH
  {
    hide SMember, WValues, WTexts, TypedHead;
  }

  lemma {:induction false} PathDeepens(d: Bytes, p: nat, implied: Option<u8>, tokens: seq<Bytes>, depth: nat)
    requires p <= |d| && depth <= MAX_DEPTH && SPath(d, p, implied, tokens, depth).Ok?
    ensures depth + |tokens| <= MAX_DEPTH
    decreases |tokens|
  {
    hide SDescend, Escaped;
    if tokens != [] {
      DescendDeepens(d, p, implied, tokens[0], depth);
      var s := SDescend(d, p, implied, tokens[0], depth);
      PathDeepens(d, s.pos, s.value, tokens[1..], depth + 1);
    }
  }

  /** A pointer whose tokens are spelled alike for reader and tree, or that is none. */
  predicate PointerSpelled(n: Node, pointer: Bytes)
    requires WellFormed(n)
  {
    Tokens(pointer).Some? ==> PathSpelled(n, Tokens(pointer).value)
  }

  /** On a document with no extension and no two keys alike, seeking a pointer so spelled
      succeeds exactly when the tree the document reads as has a value there, and the cursor
      is left where reading yields that value: an element of a typed array, found by
      multiplying, included. */
  lemma SeekFindsWhatTheTreeHas(d: Bytes, p: nat, implied: Option<u8>, depth: nat, n: Node, pointer: Bytes)
    requires p <= |d| && depth <= MAX_DEPTH && Stands(Build, d, p, implied, depth, n)
    requires WellFormed(n) && Addressable(n) && PointerSpelled(n, pointer)
    ensures var levels := if Tokens(pointer).Some? then |Tokens(pointer).value| else 0;
            Meets(Build, d, SPointer(d, p, implied, pointer, depth), depth + levels, PointerInto(Trees.TreeOf(n), pointer))
  {
    hide Stands, Trees.TreeOf, Tokens, WellFormed, Addressable, SPath, At, PathSpelled, SDescend;
    if Tokens(pointer).Some? { PathFinds(Build, d, p, implied, Tokens(pointer).value, depth, n); }
  }

  // ---------------------------------------------------------------------
  // Tokens on which the two part
  // ---------------------------------------------------------------------

  lemma OneItem(n: Node)
    requires WellFormed(n) && Addressable(n)
    ensures AllWellFormed([n]) && AllAddressable([n]) && Trees.TreesOf([n]) == [Trees.TreeOf(n)]
  {
    hide WellFormed, Addressable, Trees.TreeOf;
    assert [n][1..] == [];
    assert AllWellFormed([]) && AllAddressable([]);
  }

  /** `01` is an index to a tree and none to a reader. */
  lemma LeadingZeroParts()
    ensures var n, token := Arr([8], [Atom(NULL), Atom(TRUE)]), [ZERO, ONE];
            && WellFormed(n) && Addressable(n)
            && Reached(n, token) == None && Child(Trees.TreeOf(n), token) == Some(Trees.Bool(true))
  {
    var n, token: Bytes := Arr([8], [Atom(NULL), Atom(TRUE)]), [ZERO, ONE];
    OneItem(Atom(TRUE));
    assert n.items[1..] == [Atom(TRUE)];
    TwoPassesAgree(token);
    PlainUnescape(token);
    assert token[..1] == [ZERO] && DigitsValue(token[..1][..0]) == 0;
    assert DigitsValue(token[..1]) == 0;
    assert ParseNat(token) == Some(1);
  }

  const SMALL_KEYS: u8 := Header(TY_OBJECT, CAT_UNSIGNED, 0)

  /** `+5` names the key 5 of an integer-keyed object to a reader and nothing to a tree. */
  lemma PlusParts()
    ensures var n, token := Obj(SMALL_KEYS, [4], [Member([], [5], Atom(TRUE))]), [PLUS, 53];
            && WellFormed(n) && Addressable(n)
            && Reached(n, token) == Some(Atom(TRUE)) && Child(Trees.TreeOf(n), token) == None
  {
    var n, token: Bytes := Obj(SMALL_KEYS, [4], [Member([], [5], Atom(TRUE))]), [PLUS, 53];
    var m := n.members[0];
    TwoPassesAgree(token);
    PlainUnescape(token);
    assert n.members[1..] == [];
    assert token[1..] == [53] && DigitsValue(token[1..][..0]) == 0;
    assert ParseInt(token) == Some(5);
    assert LittleEndian(m.key) == 5 by { assert m.key[1..] == []; }
    assert Trees.KeyText(SMALL_KEYS, m.key) == [53];
    assert KeyTexts(SMALL_KEYS, n.members[1..]) == [];
    AlikeIffSpelled(n, token);
    assert KeyTexts(SMALL_KEYS, n.members)[0] == [53];
  }

  /** A stray `~` is refused by a reader and stands for itself to a tree. */
  lemma StrayTildeParts()
    ensures var n, token := Obj(TY_OBJECT, [4], [Member([4], [TILDE], Atom(TRUE))]), [TILDE];
            && WellFormed(n) && Addressable(n)
            && Reached(n, token) == None && Child(Trees.TreeOf(n), token) == Some(Trees.Bool(true))
  {
    var n, token: Bytes := Obj(TY_OBJECT, [4], [Member([4], [TILDE], Atom(TRUE))]), [TILDE];
    TwoPassesAgree(token);
    assert token[1..] == [] && Unescape(token) == [TILDE];
    assert n.members[1..] == [];
    assert KeyTexts(TY_OBJECT, n.members[1..]) == [];
    FilledLookup([], TY_OBJECT, n.members, token);
    assert AssocLists.Lookup<Trees.Value>([], token) == None;
  }

  // ---------------------------------------------------------------------
  // Reading what was sought
  // ---------------------------------------------------------------------

  lemma PrependedBody(m: Mode, d: Bytes, p: nat, h: u8, depth: nat)
    requires p <= |d|
    ensures WalkShift.Shifted(WBody(m, d, p, h, depth), 1) == WalkShift.Shifted(WValue(m, [h] + d[p..], 0, depth), p)
  {
    hide WBody, WValue;
    var tail := d[p..];
    BodyFrom(m, d[..p], tail, h, depth);
    BodyFrom(m, [h], tail, h, depth);
    BodyOfValue(m, [h] + tail, depth);
    assert d == d[..p] + tail;
  }

  lemma BodyFrom(m: Mode, b: Bytes, tail: Bytes, h: u8, depth: nat)
    ensures WBody(m, b + tail, |b|, h, depth) == WalkShift.Shifted(WBody(m, tail, 0, h, depth), |b|)
  {
    hide WBody;
    WalkShift.ShiftBody(m, b, tail, 0, h, depth);
  }

  lemma BodyOfValue(m: Mode, d: Bytes, depth: nat)
    requires d != []
    ensures WValue(m, d, 0, depth) == WBody(m, d, 1, d[0], depth)
  {
  }

  /** What a walk takes at some depth it takes at any smaller. */
  lemma Shallower(m: Mode, d: Bytes, p: nat, implied: Option<u8>, depth: nat, above: nat, n: Node)
    requires p <= |d| && above <= depth <= MAX_DEPTH && Stands(m, d, p, implied, depth, n)
    ensures Stands(m, d, p, implied, above, n)
  {
    hide WValue, WBody;
    if implied.Some? {
      var h := implied.value;
      PrependedBody(m, d, p, h, depth);
      PrependedBody(m, d, p, h, above);
      ShallowerValue(m, [h] + d[p..], 0, depth, above);
    } else {
      ShallowerValue(m, d, p, depth, above);
    }
  }

  lemma ShallowerValue(m: Mode, d: Bytes, p: nat, depth: nat, above: nat)
    requires above <= depth <= MAX_DEPTH && WValue(m, d, p, depth).Ok?
    ensures WValue(m, d, p, above) == WValue(m, d, p, depth)
  {
    hide WValue, WellFormed, Encode, Accepts, Nesting, Spans;
    var o := WValue(m, d, p, depth);
    WalkTheorems.WalkIffEncoding(m, d, p, depth, o.value, o.pos);
    WalkTheorems.WalkIffEncoding(m, d, p, above, o.value, o.pos);
  }

  /** The document and pointer a reader is given, in one: a value it takes, no extension in
      it, no two keys alike, and the pointer spelled for both. */
  ghost predicate Agreed(d: Bytes, p: nat, implied: Option<u8>, depth: nat, n: Node, pointer: Bytes)
    requires p <= |d|
  {
    depth <= MAX_DEPTH && Stands(Build, d, p, implied, depth, n) && WellFormed(n) && Addressable(n) && PointerSpelled(n, pointer)
  }

  /** Read the value `pointer` names, giving back the levels the walk to it counted however
      the read exits. */
  method ReadAt(r: Reader, pointer: Bytes) returns (a: Answer<Trees.Value>)
    requires r.Valid()
    modifies r`pos, r`depth, r`implied, r`installed
    ensures r.Valid() && r.depth == old(r.depth)
    ensures forall n | Agreed(r.data, old(r.pos), old(r.implied), old(r.depth), n, pointer) ::
              match PointerInto(Trees.TreeOf(n), pointer)
              case Some(v) => a == Result.Ok(v)
              case None => a.Err?
  {
    hide Stands, Trees.TreeOf, SPointer, PointerInto, Agreed, Tokens, WValue, WBody;
    ghost var p, implied, depth := r.pos, r.implied, r.depth;
    var levels := Walk(r, pointer);
    forall n | Agreed(r.data, p, implied, depth, n, pointer)
      ensures Sought(r.data, r.pos, r.implied, r.depth, levels.Ok?, PointerInto(Trees.TreeOf(n), pointer))
    {
      AgreedMeets(r.data, p, implied, depth, n, pointer);
    }
    if levels.Err? { return Result.Err(levels.error); }
    a := Trees.Read(r);
    r.depth := r.depth - levels.value;
  }

  /** A seek that went well or not as it should, and if well left the cursor where a tree read
      gives what it should. */
  ghost predicate Sought(d: Bytes, p: nat, implied: Option<u8>, depth: nat, well: bool, v: Option<Trees.Value>)
    requires p <= |d|
  {
    well == v.Some? && (well ==> ReadsAs(d, p, implied, depth, v.value))
  }

  /** A tree read from here gives `v`. */
  ghost predicate ReadsAs(d: Bytes, p: nat, implied: Option<u8>, depth: nat, v: Trees.Value)
    requires p <= |d|
  {
    var o := if implied.Some? then WBody(Build, d, p, implied.value, depth) else WValue(Build, d, p, depth);
    o.Ok? && Trees.TreeOf(o.value) == v
  }

  lemma AgreedMeets(d: Bytes, p: nat, implied: Option<u8>, depth: nat, n: Node, pointer: Bytes)
    requires p <= |d| && Agreed(d, p, implied, depth, n, pointer)
    ensures var s, v := SPointer(d, p, implied, pointer, depth), PointerInto(Trees.TreeOf(n), pointer);
            && s.Ok? == v.Some?
            && (s.Ok? ==> Tokens(pointer).Some? && ReadsAs(d, s.pos, s.value, depth + |Tokens(pointer).value|, v.value))
            && (s.Ok? ==> ReadsAs(d, s.pos, s.value, depth, v.value))
  {
    hide WValue, WBody, Trees.TreeOf, SPath, PointerInto, Tokens, WellFormed, Addressable, PointerSpelled;
    SeekFindsWhatTheTreeHas(d, p, implied, depth, n, pointer);
    var s, v := SPointer(d, p, implied, pointer, depth), PointerInto(Trees.TreeOf(n), pointer);
    if s.Ok? {
      var deep := depth + |Tokens(pointer).value|;
      var c :| Stands(Build, d, s.pos, s.value, deep, c) && v.value == Trees.TreeOf(c);
      PathDeepens(d, p, implied, Tokens(pointer).value, depth);
      Shallower(Build, d, s.pos, s.value, deep, depth, c);
    }
  }

  /** Seek, and then read what the cursor was left on: at the depth the seek gave back, so that
      a value is read where it stands however deep in the document that is. */
  method SeekAndRead(r: Reader, pointer: Bytes) returns (a: Answer<Trees.Value>)
    requires r.Valid()
    modifies r`pos, r`depth, r`implied, r`installed
    ensures r.Valid() && r.depth == old(r.depth)
    ensures forall n | Agreed(r.data, old(r.pos), old(r.implied), old(r.depth), n, pointer) ::
              match PointerInto(Trees.TreeOf(n), pointer)
              case Some(v) => a == Result.Ok(v)
              case None => a.Err?
  {
    hide Stands, Trees.TreeOf, SPointer, PointerInto, Agreed, Tokens, WValue, WBody;
    ghost var p, implied, depth := r.pos, r.implied, r.depth;
    var sought := Seek(r, pointer);
    forall n | Agreed(r.data, p, implied, depth, n, pointer)
      ensures Sought(r.data, r.pos, r.implied, r.depth, sought.Ok?, PointerInto(Trees.TreeOf(n), pointer))
    {
      AgreedMeets(r.data, p, implied, depth, n, pointer);
    }
    if sought.Err? { return Result.Err(sought.error); }
    a := Trees.Read(r);
  }

  lemma ValueIsBody(d: Bytes, p: nat, depth: nat)
    ensures WValue(Build, d, p, depth) == if p < |d| then WBody(Build, d, p + 1, d[p], depth) else Out.Err(UnexpectedEnd, p)
  {
  }
}

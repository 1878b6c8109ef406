/** A tag's place among its object's members does not matter. */
module LateTagTheorems {
  import opened Bits
  import opened Wrappers
  import opened Headers
  import opened Wire
  import opened Grammar
  import opened Walks
  import opened WalkProofs
  import opened Typed
  import WalkTheorems
  import WalkChain

  // ---------------------------------------------------------------------
  // Runs of members
  // ---------------------------------------------------------------------

  lemma {:induction false} RunIsMembers(d: Bytes, p: nat, n: nat, depth: nat)
    requires p <= |d|
    ensures var w := WMembers(Skip, d, p, TY_OBJECT, n, depth);
            SkipRun(d, p, n, depth) == if w.Ok? then Out.Ok((), w.pos) else Out.Err(w.code, w.pos)
    decreases n
  {
    hide WKey, KeyAt, WValue, WBody, ByteWidth;
    KeyIsKey(d, p);
    if n > 0 {
      var key := KeyAt(d, p);
      if key.Ok? {
        var x := WValue(Skip, d, key.pos, depth);
        if x.Ok? { RunIsMembers(d, x.pos, n - 1, depth); }
      }
    }
  }

  lemma KeyIsKey(d: Bytes, p: nat)
    requires p <= |d|
    ensures var key, w := KeyAt(d, p), WKey(Skip, d, p, TY_OBJECT);
            key.Ok? == w.Ok? && key.pos == w.pos && (key.Err? ==> key.code == w.code)
  {
    hide SizeField, Take, SizeValue;
  }

  lemma RunStep(d: Bytes, p: nat, n: nat, depth: nat)
    requires p <= |d| && KeyAt(d, p).Ok? && WValue(Skip, d, KeyAt(d, p).pos, depth).Ok?
    ensures SkipRun(d, p, n + 1, depth) == SkipRun(d, WValue(Skip, d, KeyAt(d, p).pos, depth).pos, n, depth)
  {
    hide WValue, KeyAt;
  }

  lemma {:induction false} RunAppends(d: Bytes, p: nat, a: nat, b: nat, depth: nat)
    requires p <= |d| && SkipRun(d, p, a, depth).Ok?
    ensures SkipRun(d, p, a + b, depth) == SkipRun(d, SkipRun(d, p, a, depth).pos, b, depth)
    decreases a
  {
    hide WValue, KeyAt;
    if a > 0 {
      var q := WValue(Skip, d, KeyAt(d, p).pos, depth).pos;
      RunStep(d, p, a - 1, depth);
      RunAppends(d, q, a - 1, b, depth);
      RunStep(d, p, a - 1 + b, depth);
    }
  }

  /** The tag is the first member so keyed. */
  lemma {:induction false} FoundTag(tag: Bytes, d: Bytes, p: nat, n: nat, depth: nat, first: nat)
    requires p <= |d| && FindTag(tag, d, p, n, depth, first).Ok?
    ensures var r := FindTag(tag, d, p, n, depth, first);
            var run := SkipRun(d, p, r.value, depth);
            run.Ok? && KeyAt(d, run.pos).Ok? && KeyAt(d, run.pos).value.0 == tag && KeyAt(d, run.pos).pos == r.pos
    decreases n
  {
    hide WValue, KeyAt;
    var key := KeyAt(d, p);
    if key.value.0 != tag {
      var x := WValue(Skip, d, key.pos, depth);
      FoundTag(tag, d, x.pos, n - 1, depth, first);
    }
  }

  /** Reading members one run after another is reading them as one. */
  lemma {:induction false} MembersAppend(strict: bool, fields: seq<Field>, f: Filling, d: Bytes, p: nat, a: nat, b: nat, depth: nat)
    requires p <= |d| && |f.vals| == |fields|
    ensures var r := RMembers(strict, fields, f, d, p, a, depth);
            RMembers(strict, fields, f, d, p, a + b, depth)
            == if r.Ok? then RMembers(strict, fields, r.value, d, r.pos, b, depth) else r
    decreases a
  {
    hide RMember;
    if a > 0 {
      var g := RMember(strict, fields, f, d, p, depth);
      if g.Ok? { MembersAppend(strict, fields, g.value, d, g.pos, a - 1, b, depth); }
    }
  }

  // ---------------------------------------------------------------------
  // Whatever reads is a value, and ends where skipping it does
  // ---------------------------------------------------------------------

  lemma ObjectDispatch(d: Bytes, p: nat, depth: nat)
    requires ObjectHead(d, p).Ok?
    ensures WValue(Skip, d, p, depth) == WObject(Skip, d, p + 1, TY_OBJECT, depth)
    ensures SizeField(d, p + 1).Ok?
            && ObjectHead(d, p) == Out.Ok(SizeValue(SizeField(d, p + 1).value), SizeField(d, p + 1).pos)
  {
    hide WObject, WArray, WTyped, WExtension, WNum, WText, SizeField;
    HeaderFields(d[p]);
    assert d[p] == TY_OBJECT;
    assert WValue(Skip, d, p, depth) == WBody(Skip, d, p + 1, d[p], depth);
  }

  lemma ObjectSkips(d: Bytes, p: nat, depth: nat)
    requires p <= |d| && ObjectHead(d, p).Ok? && depth < MAX_DEPTH
    requires var o := ObjectHead(d, p); SkipRun(d, o.pos, o.value, depth + 1).Ok?
    ensures var o := ObjectHead(d, p);
            WValue(Skip, d, p, depth).Ok? && WValue(Skip, d, p, depth).pos == SkipRun(d, o.pos, o.value, depth + 1).pos
  {
    hide WValue, ObjectHead, SizeField, SizeValue, SkipRun, WMembers;
    var o := ObjectHead(d, p);
    ObjectDispatch(d, p, depth);
    RunIsMembers(d, o.pos, o.value, depth + 1);
  }

  lemma {:induction false} ReadSkips(strict: bool, s: Schema, prior: Val, d: Bytes, p: nat, depth: nat)
    requires p <= |d| && RValue(strict, s, prior, d, p, depth).Ok?
    ensures var r := RValue(strict, s, prior, d, p, depth);
            WValue(Skip, d, p, depth).Ok? && WValue(Skip, d, p, depth).pos == r.pos
    decreases |d| - p, 1, 0
  {
    hide WValue, RMembers, RTagged, ObjectHead;
    match s
    case Leaf => WalkChain.Chain(d, p, depth);
    case Struct(fields) =>
      var o := ObjectHead(d, p);
      ReadSkipsRun(strict, fields, Filling(Starting(|fields|, prior), {}), d, o.pos, o.value, depth + 1);
      ObjectSkips(d, p, depth);
    case Enum(tag, variants) => TaggedSkips(strict, tag, variants, prior, d, p, depth);
  }

  lemma {:induction false} ReadSkipsRun(strict: bool, fields: seq<Field>, f: Filling, d: Bytes, p: nat, n: nat, depth: nat)
    requires p <= |d| && |f.vals| == |fields| && RMembers(strict, fields, f, d, p, n, depth).Ok?
    ensures SkipRun(d, p, n, depth) == Out.Ok((), RMembers(strict, fields, f, d, p, n, depth).pos)
    decreases |d| - p, 3, n
  {
    hide WValue, KeyAt, RValue;
    if n > 0 {
      var key := KeyAt(d, p);
      var i := IndexOf(FieldNames(fields), key.value.0);
      if i.Some? { ReadSkips(strict, fields[i.value].schema, f.vals[i.value], d, key.pos, depth); }
      var g := RMember(strict, fields, f, d, p, depth);
      ReadSkipsRun(strict, fields, g.value, d, g.pos, n - 1, depth);
    }
  }

  /** The tag's own member is one that skips. */
  lemma TagSkips(d: Bytes, p: nat, first: nat, depth: nat)
    requires KeyAt(d, p).Ok? && TagName(d, KeyAt(d, p).pos, first).Ok?
    ensures SkipRun(d, p, 1, depth) == Out.Ok((), TagName(d, KeyAt(d, p).pos, first).pos)
  {
    var at := KeyAt(d, p).pos;
    hide KeyAt, WValue, SkipRun;
    NameIsValue(d, at, first, depth);
    RunStep(d, p, 0, depth);
    NoRun(d, TagName(d, at, first).pos, depth);
  }

  lemma NoRun(d: Bytes, p: nat, depth: nat)
    requires p <= |d|
    ensures SkipRun(d, p, 0, depth) == Out.Ok((), p)
  {
  }

  /** A tag's value is a string value. */
  lemma NameIsValue(d: Bytes, p: nat, first: nat, depth: nat)
    requires TagName(d, p, first).Ok?
    ensures WValue(Skip, d, p, depth).Ok? && WValue(Skip, d, p, depth).pos == TagName(d, p, first).pos
  {
    WalkChain.StricterText(Skip, d, p + 1);
    hide WObject, WArray, WTyped, WExtension, WNum, ValidUtf8;
    assert WValue(Skip, d, p, depth) == WBody(Skip, d, p + 1, d[p], depth);
  }

  /** An object whose tag is found and whose members past it skip is a value, ending where
      they do. */
  lemma TagFoundSkips(tag: Bytes, d: Bytes, p: nat, depth: nat)
    requires p <= |d| && ObjectHead(d, p).Ok? && depth < MAX_DEPTH
    requires var o := ObjectHead(d, p);
             var t := FindTag(tag, d, o.pos, o.value, depth + 1, o.pos);
             && t.Ok? && TagName(d, t.pos, o.pos).Ok?
             && SkipRun(d, TagName(d, t.pos, o.pos).pos, o.value - 1 - t.value, depth + 1).Ok?
    ensures var o := ObjectHead(d, p);
            var t := FindTag(tag, d, o.pos, o.value, depth + 1, o.pos);
            && WValue(Skip, d, p, depth).Ok?
            && WValue(Skip, d, p, depth).pos
               == SkipRun(d, TagName(d, t.pos, o.pos).pos, o.value - 1 - t.value, depth + 1).pos
  {
    hide WValue, RValue, KeyAt, ObjectHead, FindTag, TagName, SkipRun;
    var o := ObjectHead(d, p);
    var n, first := o.value, o.pos;
    var t := FindTag(tag, d, first, n, depth + 1, first);
    FoundTag(tag, d, first, n, depth + 1, first);
    var q := SkipRun(d, first, t.value, depth + 1).pos;
    TagSkips(d, q, first, depth + 1);
    RunAppends(d, q, 1, n - 1 - t.value, depth + 1);
    RunAppends(d, first, t.value, n - t.value, depth + 1);
    ObjectSkips(d, p, depth);
  }

  lemma {:induction false} TaggedSkips(strict: bool, tag: Bytes, variants: seq<Variant>, prior: Val, d: Bytes, p: nat, depth: nat)
    requires p <= |d| && RTagged(strict, tag, variants, prior, d, p, depth).Ok?
    ensures var r := RTagged(strict, tag, variants, prior, d, p, depth);
            WValue(Skip, d, p, depth).Ok? && WValue(Skip, d, p, depth).pos == r.pos
    decreases |d| - p, 0, 0
  {
    hide WValue, RMembers, ObjectHead, FindTag, TagName, SkipRun;
    var o := ObjectHead(d, p);
    var t := FindTag(tag, d, o.pos, o.value, depth + 1, o.pos);
    var name := TagName(d, t.pos, o.pos);
    var i := IndexOf(VariantNames(variants), name.value).value;
    var fields := variants[i].payload;
    ReadSkipsRun(strict, fields, Filling(StartingCase(i, |fields|, prior), {}), d, name.pos, o.value - 1 - t.value, depth + 1);
    TagFoundSkips(tag, d, p, depth);
  }

  // ---------------------------------------------------------------------
  // Reading depends on nothing outside the bytes read
  // ---------------------------------------------------------------------

  /** The bytes of `d` from `p` to `e` stand in `d'` too, `k` further on. */
  ghost predicate Moved(d: Bytes, p: nat, e: nat, d': Bytes, k: int) {
    p <= e <= |d| && 0 <= p + k && e + k <= |d'| && forall i | p <= i < e :: d[i] == d'[i + k]
  }

  lemma MovedBytes(d: Bytes, p: nat, e: nat, d': Bytes, k: int)
    requires Moved(d, p, e, d', k)
    ensures d[p..e] == d'[p + k..e + k]
  {
  }

  lemma KeyMoves(d: Bytes, p: nat, d': Bytes, k: int)
    requires KeyAt(d, p).Ok? && Moved(d, p, KeyAt(d, p).pos, d', k)
    ensures KeyAt(d', p + k) == Out.Ok((KeyAt(d, p).value.0, KeyAt(d, p).value.1 + k), KeyAt(d, p).pos + k)
  {
    var z := SizeField(d, p);
    AcceptedSize(d, p);
    MovedBytes(d, p, z.pos, d', k);
    assert z.value + [] == z.value;
    WalkedSize(d', p + k, z.value, [], z.pos + k);
    MovedBytes(d, z.pos, KeyAt(d, p).pos, d', k);
  }

  lemma TextMoves(m: Mode, d: Bytes, p: nat, d': Bytes, k: int)
    requires WText(m, d, p).Ok? && Moved(d, p, WText(m, d, p).pos, d', k)
    ensures WText(m, d', p + k) == Out.Ok(WText(m, d, p).value, WText(m, d, p).pos + k)
  {
    var t := WText(m, d, p);
    AcceptedText(m, d, p);
    MovedBytes(d, p, t.pos, d', k);
    assert EncodeText(t.value) + [] == EncodeText(t.value);
    WalkedText(m, d', p + k, t.value, [], t.pos + k);
  }

  lemma ValueMoves(m: Mode, d: Bytes, p: nat, depth: nat, d': Bytes, k: int)
    requires WValue(m, d, p, depth).Ok? && Moved(d, p, WValue(m, d, p, depth).pos, d', k) && depth <= MAX_DEPTH
    ensures WValue(m, d', p + k, depth) == Out.Ok(WValue(m, d, p, depth).value, WValue(m, d, p, depth).pos + k)
  {
    hide WValue;
    var x := WValue(m, d, p, depth);
    MovedBytes(d, p, x.pos, d', k);
    WalkTheorems.ExtentIsLocal(m, d, p, depth, d', p + k);
  }

  lemma HeadMoves(d: Bytes, p: nat, d': Bytes, k: int)
    requires ObjectHead(d, p).Ok? && Moved(d, p, ObjectHead(d, p).pos, d', k)
    ensures ObjectHead(d', p + k) == Out.Ok(ObjectHead(d, p).value, ObjectHead(d, p).pos + k)
  {
    var z := SizeField(d, p + 1);
    AcceptedSize(d, p + 1);
    MovedBytes(d, p + 1, z.pos, d', k);
    assert z.value + [] == z.value;
    WalkedSize(d', p + 1 + k, z.value, [], z.pos + k);
    assert d[p] == d'[p + k];
  }

  lemma TagNameMoves(d: Bytes, p: nat, first: nat, d': Bytes, k: int, first': nat)
    requires TagName(d, p, first).Ok? && Moved(d, p, TagName(d, p, first).pos, d', k)
    ensures TagName(d', p + k, first') == Out.Ok(TagName(d, p, first).value, TagName(d, p, first).pos + k)
  {
    hide WText;
    assert d[p] == d'[p + k];
    TextMoves(Validate, d, p + 1, d', k);
  }

  lemma {:induction false} RunMoves(d: Bytes, p: nat, n: nat, depth: nat, d': Bytes, k: int)
    requires p <= |d| && depth <= MAX_DEPTH && SkipRun(d, p, n, depth).Ok?
    requires Moved(d, p, SkipRun(d, p, n, depth).pos, d', k)
    ensures SkipRun(d', p + k, n, depth) == Out.Ok((), SkipRun(d, p, n, depth).pos + k)
    decreases n
  {
    hide WValue, KeyAt;
    if n > 0 {
      var key := KeyAt(d, p);
      var x := WValue(Skip, d, key.pos, depth);
      KeyMoves(d, p, d', k);
      ValueMoves(Skip, d, key.pos, depth, d', k);
      RunMoves(d, x.pos, n - 1, depth, d', k);
    }
  }

  lemma {:induction false} FindMoves(tag: Bytes, d: Bytes, p: nat, n: nat, depth: nat, first: nat, d': Bytes, k: int, first': nat)
    requires p <= |d| && depth <= MAX_DEPTH && FindTag(tag, d, p, n, depth, first).Ok?
    requires Moved(d, p, FindTag(tag, d, p, n, depth, first).pos, d', k)
    ensures FindTag(tag, d', p + k, n, depth, first')
            == Out.Ok(FindTag(tag, d, p, n, depth, first).value, FindTag(tag, d, p, n, depth, first).pos + k)
    decreases n
  {
    hide WValue, KeyAt;
    var key := KeyAt(d, p);
    KeyMoves(d, p, d', k);
    if key.value.0 != tag {
      var x := WValue(Skip, d, key.pos, depth);
      ValueMoves(Skip, d, key.pos, depth, d', k);
      FindMoves(tag, d, x.pos, n - 1, depth, first, d', k, first');
    }
  }

  lemma {:induction false} ReadMoves(strict: bool, s: Schema, prior: Val, d: Bytes, p: nat, depth: nat, d': Bytes, k: int)
    requires p <= |d| && depth <= MAX_DEPTH && RValue(strict, s, prior, d, p, depth).Ok?
    requires Moved(d, p, RValue(strict, s, prior, d, p, depth).pos, d', k)
    ensures RValue(strict, s, prior, d', p + k, depth)
            == Out.Ok(RValue(strict, s, prior, d, p, depth).value, RValue(strict, s, prior, d, p, depth).pos + k)
    decreases |d| - p, 1, 0
  {
    hide WValue, WBody, RMembers, RMember, RTagged, ObjectHead;
    match s
    case Leaf => ValueMoves(Build, d, p, depth, d', k);
    case Struct(fields) =>
      var o := ObjectHead(d, p);
      var f := Filling(Starting(|fields|, prior), {});
      HeadMoves(d, p, d', k);
      MembersMove(strict, fields, f, d, o.pos, o.value, depth + 1, d', k);
      assert RMembers(strict, fields, f, d, o.pos, o.value, depth + 1).pos == RValue(strict, s, prior, d, p, depth).pos;
      NoMembers(strict, fields, d, o.pos, depth + 1);
      NoMembers(strict, fields, d', o.pos + k, depth + 1);
    case Enum(tag, variants) => TaggedMoves(strict, tag, variants, prior, d, p, depth, d', k);
  }

  lemma NoMembers(strict: bool, fields: seq<Field>, d: Bytes, p: nat, depth: nat)
    requires p <= |d|
    ensures forall f: Filling | |f.vals| == |fields| :: RMembers(strict, fields, f, d, p, 0, depth) == Out.Ok(f, p)
  {
  }

  lemma {:induction false} MembersMove(strict: bool, fields: seq<Field>, f: Filling, d: Bytes, p: nat, n: nat, depth: nat,
                                      d': Bytes, k: int)
    requires p <= |d| && |f.vals| == |fields| && depth <= MAX_DEPTH && RMembers(strict, fields, f, d, p, n, depth).Ok?
    requires Moved(d, p, RMembers(strict, fields, f, d, p, n, depth).pos, d', k)
    ensures RMembers(strict, fields, f, d', p + k, n, depth)
            == Out.Ok(RMembers(strict, fields, f, d, p, n, depth).value, RMembers(strict, fields, f, d, p, n, depth).pos + k)
    decreases |d| - p, 3, n
  {
    hide RMember, Moved;
    if n > 0 {
      var g := RMember(strict, fields, f, d, p, depth);
      var rest := RMembers(strict, fields, g.value, d, g.pos, n - 1, depth);
      Narrow(d, p, rest.pos, d', k, g.pos);
      MemberMoves(strict, fields, f, d, p, depth, d', k);
      MembersMove(strict, fields, g.value, d, g.pos, n - 1, depth, d', k);
    }
  }

  lemma {:induction false} MemberMoves(strict: bool, fields: seq<Field>, f: Filling, d: Bytes, p: nat, depth: nat, d': Bytes, k: int)
    requires p <= |d| && |f.vals| == |fields| && depth <= MAX_DEPTH && RMember(strict, fields, f, d, p, depth).Ok?
    requires Moved(d, p, RMember(strict, fields, f, d, p, depth).pos, d', k) && p + k >= 0
    ensures RMember(strict, fields, f, d', p + k, depth)
            == Out.Ok(RMember(strict, fields, f, d, p, depth).value, RMember(strict, fields, f, d, p, depth).pos + k)
    decreases |d| - p, 2, 0
  {
    hide WValue, KeyAt, RValue;
    var key := KeyAt(d, p);
    KeyMoves(d, p, d', k);
    var i := IndexOf(FieldNames(fields), key.value.0);
    if i.Some? {
      ReadMoves(strict, fields[i.value].schema, f.vals[i.value], d, key.pos, depth, d', k);
    } else {
      ValueMoves(Skip, d, key.pos, depth, d', k);
    }
  }

  /** The members past the tag at `p`, and then those before it at `first`. */
  lemma {:induction false} RestMoves(strict: bool, fields: seq<Field>, vals: seq<Val>, d: Bytes, p: nat, after: nat, first: nat,
                                    before: nat, depth: nat, open: nat, d': Bytes, k: int, open': nat)
    requires first <= p <= |d| && |vals| == |fields| && depth <= MAX_DEPTH
    requires SkipRun(d, first, before, depth).Ok? && SkipRun(d, first, before, depth).pos <= p
    requires RRest(strict, fields, vals, d, p, after, first, before, depth, open).Ok?
    requires Moved(d, first, RRest(strict, fields, vals, d, p, after, first, before, depth, open).pos, d', k)
    ensures var r := RRest(strict, fields, vals, d, p, after, first, before, depth, open);
            RRest(strict, fields, vals, d', p + k, after, first + k, before, depth, open') == Out.Ok(r.value, r.pos + k)
    decreases |d| - first, 4, 0
  {
    hide RMembers, SkipRun, Moved;
    var f := Filling(vals, {});
    var x := RMembers(strict, fields, f, d, p, after, depth);
    Narrow(d, first, x.pos, d', k, p);
    MembersMove(strict, fields, f, d, p, after, depth, d', k);
    ReadSkipsRun(strict, fields, x.value, d, first, before, depth);
    Narrow(d, first, x.pos, d', k, SkipRun(d, first, before, depth).pos);
    MembersMove(strict, fields, x.value, d, first, before, depth, d', k);
  }

  lemma {:induction false} TaggedMoves(strict: bool, tag: Bytes, variants: seq<Variant>, prior: Val, d: Bytes, p: nat, depth: nat,
                                      d': Bytes, k: int)
    requires p <= |d| && depth <= MAX_DEPTH && RTagged(strict, tag, variants, prior, d, p, depth).Ok?
    requires Moved(d, p, RTagged(strict, tag, variants, prior, d, p, depth).pos, d', k)
    ensures RTagged(strict, tag, variants, prior, d', p + k, depth)
            == Out.Ok(RTagged(strict, tag, variants, prior, d, p, depth).value, RTagged(strict, tag, variants, prior, d, p, depth).pos + k)
    decreases |d| - p, 0, 0
  {
    hide WValue, RRest, ObjectHead, FindTag, TagName, SkipRun, Moved, KeyAt, IndexOf, RMembers;
    var o := ObjectHead(d, p);
    var n, first := o.value, o.pos;
    var t := FindTag(tag, d, first, n, depth + 1, first);
    var name := TagName(d, t.pos, first);
    var i := IndexOf(VariantNames(variants), name.value).value;
    var fields := variants[i].payload;
    var vals := StartingCase(i, |fields|, prior);
    var e := RTagged(strict, tag, variants, prior, d, p, depth).pos;
    Narrow(d, p, e, d', k, first);
    Narrow(d, first, e, d', k, t.pos);
    Narrow(d, t.pos, e, d', k, name.pos);
    HeadMoves(d, p, d', k);
    FindMoves(tag, d, first, n, depth + 1, first, d', k, first + k);
    TagNameMoves(d, t.pos, first, d', k, first + k);
    FoundTag(tag, d, first, n, depth + 1, first);
    RestMoves(strict, fields, vals, d, name.pos, n - 1 - t.value, first, t.value, depth + 1, p, d', k, p + k);
  }

  // ---------------------------------------------------------------------
  // The tag moved to the front
  // ---------------------------------------------------------------------

  /** What an object with a tag is made of: its members up to the tag run from `first` to
      `mid`, and the tag and all past it from `mid` to `e`. */
  ghost predicate Tagged(tag: Bytes, d: Bytes, p: nat, depth: nat, n: nat, first: nat, before: nat, mid: nat, at: nat, e: nat)
    requires p <= |d|
  {
    && depth < MAX_DEPTH
    && ObjectHead(d, p) == Out.Ok(n, first)
    && FindTag(tag, d, first, n, depth + 1, first) == Out.Ok(before, at)
    && SkipRun(d, first, before, depth + 1) == Out.Ok((), mid)
    && mid < at <= e && mid <= |d| && SkipRun(d, mid, n - before, depth + 1) == Out.Ok((), e)
  }

  lemma ObjectRun(d: Bytes, p: nat, depth: nat)
    requires p <= |d| && WValue(Skip, d, p, depth).Ok? && ObjectHead(d, p).Ok?
    ensures depth < MAX_DEPTH
    ensures var o := ObjectHead(d, p); SkipRun(d, o.pos, o.value, depth + 1) == Out.Ok((), WValue(Skip, d, p, depth).pos)
  {
    hide WValue, ObjectHead, SizeField, SizeValue, SkipRun, WMembers;
    var o := ObjectHead(d, p);
    ObjectDispatch(d, p, depth);
    RunIsMembers(d, o.pos, o.value, depth + 1);
  }

  lemma SkippedObject(tag: Bytes, d: Bytes, p: nat, depth: nat)
    requires p <= |d| && WValue(Skip, d, p, depth).Ok? && ObjectHead(d, p).Ok?
    requires var o := ObjectHead(d, p); FindTag(tag, d, o.pos, o.value, depth + 1, o.pos).Ok?
    ensures var o := ObjectHead(d, p);
            var t := FindTag(tag, d, o.pos, o.value, depth + 1, o.pos);
            Tagged(tag, d, p, depth, o.value, o.pos, t.value, SkipRun(d, o.pos, t.value, depth + 1).pos, t.pos,
                   WValue(Skip, d, p, depth).pos)
  {
    hide WValue, ObjectHead, KeyAt;
    var o := ObjectHead(d, p);
    var t := FindTag(tag, d, o.pos, o.value, depth + 1, o.pos);
    ObjectRun(d, p, depth);
    FoundTag(tag, d, o.pos, o.value, depth + 1, o.pos);
    RunAppends(d, o.pos, t.value, o.value - t.value, depth + 1);
    RunKey(d, SkipRun(d, o.pos, t.value, depth + 1).pos, o.value - t.value, depth + 1);
  }

  lemma RunKey(d: Bytes, p: nat, n: nat, depth: nat)
    requires p <= |d| && n > 0 && SkipRun(d, p, n, depth).Ok?
    ensures KeyAt(d, p).Ok? && KeyAt(d, p).pos < SkipRun(d, p, n, depth).pos
  {
    hide WValue, KeyAt;
    var x := WValue(Skip, d, KeyAt(d, p).pos, depth);
    assert SkipRun(d, p, n, depth) == SkipRun(d, x.pos, n - 1, depth);
  }

  /** `d'` holds at `p'` the object of `d` at `p` with its tag moved to the front. */
  ghost predicate TagFirst(d: Bytes, p: nat, first: nat, mid: nat, e: nat, d': Bytes, p': nat) {
    && p < first <= mid <= e <= |d| && p' + (e - p) <= |d'|
    && d'[p'..p' + (e - p)] == d[p..first] + (d[mid..e] + d[first..mid])
  }

  lemma TagFirstMoves(d: Bytes, p: nat, first: nat, mid: nat, e: nat, d': Bytes, p': nat)
    requires TagFirst(d, p, first, mid, e, d', p')
    ensures Moved(d, p, first, d', p' - p)
    ensures Moved(d, mid, e, d', p' - p + first - mid) && Moved(d', first + p' - p, e - mid + first + p' - p, d, mid - first + p - p')
    ensures Moved(d, first, mid, d', p' - p + e - mid)
            && Moved(d', e - mid + first + p' - p, e + p' - p, d, mid - e + p - p')
  {
    var k := p' - p;
    var whole := d'[p'..p' + (e - p)];
    forall i | p <= i < first ensures d[i] == d'[i + k] { assert whole[i - p] == d[p..first][i - p]; }
    forall i | mid <= i < e ensures d[i] == d'[i + k + first - mid] {
      assert whole[i - mid + first - p] == (d[mid..e] + d[first..mid])[i - mid] == d[mid..e][i - mid];
    }
    forall i | first <= i < mid ensures d[i] == d'[i + k + e - mid] {
      assert whole[i + e - mid - p] == (d[mid..e] + d[first..mid])[i - first + e - mid] == d[first..mid][i - first];
    }
    forall j | first + k <= j < e - mid + first + k ensures d'[j] == d[j + mid - first - k] {
      assert d[j + mid - first - k] == d'[j];
    }
    forall j | e - mid + first + k <= j < e + k ensures d'[j] == d[j + mid - e - k] {
      assert d[j + mid - e - k] == d'[j];
    }
  }

  /** The moved object is found to have its tag first, and skips to the same length. */
  lemma TagFirstParts(tag: Bytes, d: Bytes, p: nat, depth: nat, n: nat, first: nat, before: nat, mid: nat, at: nat, e: nat,
                      d': Bytes, p': nat)
    requires p <= |d| && Tagged(tag, d, p, depth, n, first, before, mid, at, e) && TagFirst(d, p, first, mid, e, d', p')
    ensures ObjectHead(d', p') == Out.Ok(n, first + p' - p)
    ensures FindTag(tag, d', first + p' - p, n, depth + 1, first + p' - p) == Out.Ok(0, at + p' - p + first - mid)
    ensures SkipRun(d', first + p' - p, n - before, depth + 1) == Out.Ok((), e + p' - p + first - mid)
  {
    hide WValue, ObjectHead, KeyAt, Moved, FindTag, SkipRun, TagFirst;
    TagFirstMoves(d, p, first, mid, e, d', p');
    HeadMoves(d, p, d', p' - p);
    FoundTag(tag, d, first, n, depth + 1, first);
    Narrow(d, mid, e, d', p' - p + first - mid, at);
    KeyMoves(d, mid, d', p' - p + first - mid);
    TagAtOnce(tag, d', first + p' - p, n, depth + 1, first + p' - p);
    RunMoves(d, mid, n - before, depth + 1, d', p' - p + first - mid);
  }

  lemma TagAtOnce(tag: Bytes, d: Bytes, p: nat, n: nat, depth: nat, first: nat)
    requires p <= |d| && n > 0 && KeyAt(d, p).Ok? && KeyAt(d, p).value.0 == tag
    ensures FindTag(tag, d, p, n, depth, first) == Out.Ok(0, KeyAt(d, p).pos)
  {
    hide KeyAt;
  }

  lemma Narrow(d: Bytes, p: nat, e: nat, d': Bytes, k: int, q: nat)
    requires Moved(d, p, e, d', k) && p <= q <= e
    ensures Moved(d, p, q, d', k) && Moved(d, q, e, d', k)
  {
  }

  /** The members past the tag and then those before it, all in one run. */
  lemma OneRun(strict: bool, fields: seq<Field>, f: Filling, d: Bytes, body: nat, a: nat, b: nat, depth: nat, open: nat, q: nat)
    requires body <= |d| && |f.vals| == |fields| && f.seen == {} && q <= body
    ensures var x := RMembers(strict, fields, f, d, body, a, depth);
            var all := RRest(strict, fields, f.vals, d, body, a + b, q, 0, depth, open);
            all.Ok? <==>
            && x.Ok? && RMembers(strict, fields, x.value, d, x.pos, b, depth).Ok?
            && !Missing(fields, RMembers(strict, fields, x.value, d, x.pos, b, depth).value.seen)
    ensures var x := RMembers(strict, fields, f, d, body, a, depth);
            var all := RRest(strict, fields, f.vals, d, body, a + b, q, 0, depth, open);
            all.Ok? ==> all.value == RMembers(strict, fields, x.value, d, x.pos, b, depth).value.vals
  {
    MembersAppend(strict, fields, f, d, body, a, b, depth);
    hide RMembers;
    var x := RMembers(strict, fields, f, d, body, a + b, depth);
    if x.Ok? { NoMembers(strict, fields, d, q, depth); }
  }

  /** Moving the tag to the front changes nothing about the payload read: the two objects'
      members come in one order, those past the tag first, wherever the tag stands. */
  lemma PayloadMoves(strict: bool, fields: seq<Field>, vals: seq<Val>, d: Bytes, first: nat, before: nat, mid: nat, body: nat,
                     after: nat, e: nat, depth: nat, open: nat, d': Bytes, k: int, open': nat)
    requires |vals| == |fields| && depth <= MAX_DEPTH && first <= mid <= body <= e <= |d| && first + k >= 0
    requires SkipRun(d, first, before, depth) == Out.Ok((), mid) && SkipRun(d, body, after, depth) == Out.Ok((), e)
    requires Moved(d, mid, e, d', k + first - mid) && Moved(d, first, mid, d', k + e - mid)
    requires Moved(d', first + k, e - mid + first + k, d, mid - first - k) && Moved(d', e - mid + first + k, e + k, d, mid - e - k)
    ensures var r := RRest(strict, fields, vals, d, body, after, first, before, depth, open);
            var r' := RRest(strict, fields, vals, d', body + k + first - mid, after + before, first + k, 0, depth, open');
            r.Ok? == r'.Ok? && (r.Ok? ==> r.pos == e && r'.pos == e + k && r.value == r'.value)
  {
    hide RMembers, SkipRun, Moved;
    var f := Filling(vals, {});
    var k1, k2 := k + first - mid, k + e - mid;
    Narrow(d, mid, e, d', k1, body);
    Narrow(d', first + k, e - mid + first + k, d, mid - first - k, body + k1);
    RunMoves(d, body, after, depth, d', k1);
    OneRun(strict, fields, f, d', body + k1, after, before, depth, open', first + k);
    MembersAppend(strict, fields, f, d', body + k1, after, before, depth);
    var x := RMembers(strict, fields, f, d, body, after, depth);
    var x' := RMembers(strict, fields, f, d', body + k1, after, depth);
    if x.Ok? {
      ReadSkipsRun(strict, fields, f, d, body, after, depth);
      MembersMove(strict, fields, f, d, body, after, depth, d', k1);
    }
    if x'.Ok? {
      ReadSkipsRun(strict, fields, f, d', body + k1, after, depth);
      MembersMove(strict, fields, f, d', body + k1, after, depth, d, -k1);
      BeforeMoves(strict, fields, x.value, d, first, before, mid, depth, d', k2);
    }
  }

  lemma BeforeMoves(strict: bool, fields: seq<Field>, f: Filling, d: Bytes, first: nat, before: nat, mid: nat, depth: nat, d': Bytes, k: int)
    requires |f.vals| == |fields| && depth <= MAX_DEPTH && first <= |d| && first + k >= 0
    requires SkipRun(d, first, before, depth) == Out.Ok((), mid) && Moved(d, first, mid, d', k) && Moved(d', first + k, mid + k, d, -k)
    ensures var r, r' := RMembers(strict, fields, f, d, first, before, depth), RMembers(strict, fields, f, d', first + k, before, depth);
            r.Ok? == r'.Ok? && (r.Ok? ==> r.pos == mid && r'.pos == mid + k && r.value == r'.value)
  {
    hide RMembers, SkipRun, Moved;
    RunMoves(d, first, before, depth, d', k);
    if RMembers(strict, fields, f, d, first, before, depth).Ok? {
      ReadSkipsRun(strict, fields, f, d, first, before, depth);
      MembersMove(strict, fields, f, d, first, before, depth, d', k);
    }
    if RMembers(strict, fields, f, d', first + k, before, depth).Ok? {
      ReadSkipsRun(strict, fields, f, d', first + k, before, depth);
      MembersMove(strict, fields, f, d', first + k, before, depth, d, -k);
    }
  }

  /** Past the tag's key: its value, the variant that names, and the other members into it. */
  function CaseRead(strict: bool, variants: seq<Variant>, prior: Val, d: Bytes, at: nat, first: nat, after: nat, before: nat,
                    depth: nat, open: nat): Out<Val>
    requires first <= at && first <= |d|
  {
    var (name, body) :- TagName(d, at, first);
    match IndexOf(VariantNames(variants), name)
    case None => Out.Err(UnknownVariant, at)
    case Some(i) =>
      var fields := variants[i].payload;
      var (vals, end) :- RRest(strict, fields, StartingCase(i, |fields|, prior), d, body, after, first, before, depth, open);
      Out.Ok(Case(i, vals), end)
  }

  lemma TaggedIsCase(strict: bool, tag: Bytes, variants: seq<Variant>, prior: Val, d: Bytes, p: nat, depth: nat, n: nat, first: nat,
                     before: nat, at: nat)
    requires p <= |d| && first <= |d| && depth < MAX_DEPTH && ObjectHead(d, p) == Out.Ok(n, first)
    requires FindTag(tag, d, first, n, depth + 1, first) == Out.Ok(before, at)
    ensures before < n
    ensures RTagged(strict, tag, variants, prior, d, p, depth) ==
            CaseRead(strict, variants, prior, d, at, first, n - 1 - before, before, depth + 1, p)
  {
    hide RRest, ObjectHead, FindTag, TagName, IndexOf;
  }

  /** Reading an internally tagged object is reading it with its tag moved to the front and
      the members before the tag moved to the end. Whatever the tag's place, the two reads
      both succeed or both fail, on the same value, and end where skipping the object does. */
  lemma TagPlaceIsFree(strict: bool, tag: Bytes, variants: seq<Variant>, prior: Val, d: Bytes, p: nat, depth: nat,
                       n: nat, first: nat, before: nat, mid: nat, at: nat, e: nat, d': Bytes, p': nat)
    requires p <= |d| && p' <= |d'|
    requires Tagged(tag, d, p, depth, n, first, before, mid, at, e) && TagFirst(d, p, first, mid, e, d', p')
    ensures var r, r' := RTagged(strict, tag, variants, prior, d, p, depth), RTagged(strict, tag, variants, prior, d', p', depth);
            && r.Ok? == r'.Ok?
            && (r.Ok? ==> r.value == r'.value && r.pos == e && r'.pos == p' + (e - p))
  {
    hide WValue, RRest, ObjectHead, FindTag, TagName, SkipRun, KeyAt, Moved, TagFirst, RTagged, IndexOf;
    var k := p' - p;
    var k1 := k + first - mid;
    TagFirstParts(tag, d, p, depth, n, first, before, mid, at, e, d', p');
    TaggedIsCase(strict, tag, variants, prior, d, p, depth, n, first, before, at);
    TaggedIsCase(strict, tag, variants, prior, d', p', depth, n, first + k, 0, at + k1);
    TagFirstMoves(d, p, first, mid, e, d', p');
    FoundTag(tag, d, first, n, depth + 1, first);
    SameName(d, mid, n - before, depth + 1, e, first, d', k1, first + k);
    var name := TagName(d, at, first);
    if name.Ok? {
      var i := IndexOf(VariantNames(variants), name.value);
      if i.Some? {
        var fields := variants[i.value].payload;
        PayloadMoves(strict, fields, StartingCase(i.value, |fields|, prior), d, first, before, mid, name.pos, n - 1 - before, e,
                     depth + 1, p, d', k, p');
      }
    }
  }

  /** The tag's value is the same name in both, or no name in either. */
  lemma SameName(d: Bytes, mid: nat, m: nat, depth: nat, e: nat, first: nat, d': Bytes, k: int, first': nat)
    requires mid <= |d| && m > 0 && depth <= MAX_DEPTH && SkipRun(d, mid, m, depth) == Out.Ok((), e)
    requires Moved(d, mid, e, d', k) && Moved(d', mid + k, e + k, d, -k)
    ensures KeyAt(d, mid).Ok? && KeyAt(d', mid + k).Ok? && KeyAt(d', mid + k).pos == KeyAt(d, mid).pos + k
    ensures var name, name' := TagName(d, KeyAt(d, mid).pos, first), TagName(d', KeyAt(d', mid + k).pos, first');
            && name.Ok? == name'.Ok?
            && (name.Ok? ==> && name'.value == name.value && name'.pos == name.pos + k && name.pos <= e
                             && SkipRun(d, name.pos, m - 1, depth) == Out.Ok((), e))
  {
    hide TagName, KeyAt, Moved, SkipRun;
    RunHead(d, mid, m, depth);
    var at, q := KeyAt(d, mid).pos, SkipRun(d, mid, 1, depth).pos;
    Narrow(d, mid, e, d', k, q);
    Narrow(d', mid + k, e + k, d, -k, q + k);
    Narrow(d, mid, q, d', k, at);
    Narrow(d', mid + k, q + k, d, -k, at + k);
    RunMoves(d, mid, 1, depth, d', k);
    KeyMoves(d, mid, d', k);
    if TagName(d, at, first).Ok? {
      TagSkips(d, mid, first, depth);
      TagNameMoves(d, at, first, d', k, first');
    }
    if TagName(d', at + k, first').Ok? {
      TagSkips(d', mid + k, first', depth);
      TagNameMoves(d', at + k, first', d, -k, first);
    }
  }

  lemma RunHead(d: Bytes, p: nat, n: nat, depth: nat)
    requires p <= |d| && n > 0 && SkipRun(d, p, n, depth).Ok?
    ensures SkipRun(d, p, 1, depth).Ok? && KeyAt(d, p).Ok? && KeyAt(d, p).pos <= SkipRun(d, p, 1, depth).pos
    ensures SkipRun(d, p, n, depth) == SkipRun(d, SkipRun(d, p, 1, depth).pos, n - 1, depth)
  {
    hide WValue, KeyAt;
    var x := WValue(Skip, d, KeyAt(d, p).pos, depth);
    assert SkipRun(d, p, n, depth) == SkipRun(d, x.pos, n - 1, depth);
    assert SkipRun(d, p, 1, depth) == SkipRun(d, x.pos, 0, depth);
  }

  /** `d` with the tag of the object at `p` moved, where it stands, to the front. */
  function WithTagFirst(d: Bytes, p: nat, first: nat, mid: nat, e: nat): (r: Bytes)
    requires p < first <= mid <= e <= |d|
    ensures |r| == |d|
  {
    d[..p] + ((d[p..first] + (d[mid..e] + d[first..mid])) + d[e..])
  }

  /** The same for any object that skips and has the tag, the rest of its document as it
      was. Without one or the other neither read succeeds. */
  lemma LateTagReadsAsFirst(strict: bool, tag: Bytes, variants: seq<Variant>, prior: Val, d: Bytes, p: nat, depth: nat)
    requires p <= |d| && ObjectHead(d, p).Ok? && WValue(Skip, d, p, depth).Ok?
    requires var o := ObjectHead(d, p); FindTag(tag, d, o.pos, o.value, depth + 1, o.pos).Ok?
    ensures var first := ObjectHead(d, p).pos;
            var before := FindTag(tag, d, first, ObjectHead(d, p).value, depth + 1, first).value;
            var mid := SkipRun(d, first, before, depth + 1).pos;
            var e := WValue(Skip, d, p, depth).pos;
            && p < first <= mid <= e <= |d|
            && RTagged(strict, tag, variants, prior, WithTagFirst(d, p, first, mid, e), p, depth).Ok?
               == RTagged(strict, tag, variants, prior, d, p, depth).Ok?
            && (RTagged(strict, tag, variants, prior, d, p, depth).Ok? ==>
                  && RTagged(strict, tag, variants, prior, d, p, depth).pos == e
                  && RTagged(strict, tag, variants, prior, WithTagFirst(d, p, first, mid, e), p, depth)
                     == RTagged(strict, tag, variants, prior, d, p, depth))
  {
    hide RTagged, WValue, FindTag, SkipRun, ObjectHead;
    var o := ObjectHead(d, p);
    var t := FindTag(tag, d, o.pos, o.value, depth + 1, o.pos);
    var mid := SkipRun(d, o.pos, t.value, depth + 1).pos;
    var e := WValue(Skip, d, p, depth).pos;
    SkippedObject(tag, d, p, depth);
    var d' := WithTagFirst(d, p, o.pos, mid, e);
    assert d'[p..e] == d[p..o.pos] + (d[mid..e] + d[o.pos..mid]);
    TagPlaceIsFree(strict, tag, variants, prior, d, p, depth, o.value, o.pos, t.value, mid, t.pos, e, d', p);
  }
}

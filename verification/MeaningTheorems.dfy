/** The typed reading reads what the document means. */
module MeaningTheorems {
  import opened Bits
  import opened Wrappers
  import opened Headers
  import opened Wire
  import opened Grammar
  import opened Walks
  import opened WalkProofs
  import opened Typed
  import opened Meanings
  import LateTagTheorems
  import WalkTheorems

  // ---------------------------------------------------------------------
  // Fields, one member at a time
  // ---------------------------------------------------------------------

  lemma ClaimsIsIndex(fields: seq<Field>, i: nat, key: Bytes)
    requires i < |fields|
    ensures Claims(fields, i, key) <==> IndexOf(FieldNames(fields), key) == Some(i)
  {
    var names := FieldNames(fields);
    assert forall j | 0 <= j < |fields| :: names[j] == fields[j].name;
  }

  lemma ClaimedIsIndex(fields: seq<Field>, key: Bytes)
    ensures Claimed(fields, key) <==> IndexOf(FieldNames(fields), key).Some?
  {
    var names := FieldNames(fields);
    assert forall j | 0 <= j < |fields| :: names[j] == fields[j].name;
  }

  lemma HeldStep(strict: bool, fields: seq<Field>, i: nat, v: Val, m: Member, ms: seq<Member>)
    requires i < |fields|
    ensures Held(strict, fields, i, v, [m] + ms) ==
            if !Claims(fields, i, m.key) then Held(strict, fields, i, v, ms)
            else
              match Means(strict, fields[i].schema, v, m.value)
              case None => None
              case Some(u) => Held(strict, fields, i, u, ms)
  {
    hide Means, Claims;
    assert ([m] + ms)[1..] == ms && ([m] + ms)[0] == m;
  }

  lemma KeyedStep(fields: seq<Field>, i: nat, m: Member, ms: seq<Member>)
    requires i < |fields|
    ensures Keyed(fields, i, [m] + ms) <==> Claims(fields, i, m.key) || Keyed(fields, i, ms)
  {
    hide Claims;
    var all := [m] + ms;
    if Claims(fields, i, m.key) { assert Claims(fields, i, all[0].key); }
    if Keyed(fields, i, ms) {
      var k :| 0 <= k < |ms| && Claims(fields, i, ms[k].key);
      assert all[k + 1] == ms[k];
    }
    if Keyed(fields, i, all) {
      var k :| 0 <= k < |all| && Claims(fields, i, all[k].key);
      assert k == 0 || all[k] == ms[k - 1];
    }
  }

  ghost predicate AllClaimed(fields: seq<Field>, ms: seq<Member>) {
    forall m | 0 <= m < |ms| :: Claimed(fields, ms[m].key)
  }

  lemma AllClaimedStep(fields: seq<Field>, m: Member, ms: seq<Member>)
    ensures AllClaimed(fields, [m] + ms) <==> Claimed(fields, m.key) && AllClaimed(fields, ms)
  {
    hide Claimed;
    var all := [m] + ms;
    assert all[0] == m && forall k | 0 <= k < |ms| :: all[k + 1] == ms[k];
    if AllClaimed(fields, all) {
      forall k | 0 <= k < |ms| ensures Claimed(fields, ms[k].key) { assert Claimed(fields, all[k + 1].key); }
    }
  }

  /** When there is a value of every field, and which. */
  lemma FilledIs(strict: bool, fields: seq<Field>, vals: seq<Val>, ms: seq<Member>)
    requires |vals| == |fields|
    ensures Filled(strict, fields, vals, ms).Some? <==>
            (strict ==> AllClaimed(fields, ms)) && forall i | 0 <= i < |fields| :: Held(strict, fields, i, vals[i], ms).Some?
    ensures Filled(strict, fields, vals, ms).Some? ==>
              forall i | 0 <= i < |fields| :: Held(strict, fields, i, vals[i], ms) == Some(Filled(strict, fields, vals, ms).value[i])
  {
    hide Held, Claimed;
  }

  lemma SameFilled(strict: bool, fields: seq<Field>, vals: seq<Val>, ms: seq<Member>, vals': seq<Val>, ms': seq<Member>)
    requires |vals| == |vals'| == |fields|
    requires strict ==> AllClaimed(fields, ms) == AllClaimed(fields, ms')
    requires forall i | 0 <= i < |fields| :: Held(strict, fields, i, vals[i], ms) == Held(strict, fields, i, vals'[i], ms')
    ensures Filled(strict, fields, vals, ms) == Filled(strict, fields, vals', ms')
  {
    hide Held, AllClaimed, Filled;
    FilledIs(strict, fields, vals, ms);
    FilledIs(strict, fields, vals', ms');
    var a, b := Filled(strict, fields, vals, ms), Filled(strict, fields, vals', ms');
    if a.Some? && b.Some? { assert a.value == b.value; }
  }

  lemma FilledUnclaimed(strict: bool, fields: seq<Field>, vals: seq<Val>, m: Member, ms: seq<Member>)
    requires |vals| == |fields| && IndexOf(FieldNames(fields), m.key).None?
    ensures Filled(strict, fields, vals, [m] + ms) == if strict then None else Filled(strict, fields, vals, ms)
  {
    hide Held, AllClaimed, Filled, Claims, Claimed, IndexOf;
    ClaimedIsIndex(fields, m.key);
    AllClaimedStep(fields, m, ms);
    FilledIs(strict, fields, vals, [m] + ms);
    if !strict {
      forall i | 0 <= i < |fields| ensures Held(strict, fields, i, vals[i], [m] + ms) == Held(strict, fields, i, vals[i], ms) {
        ClaimsIsIndex(fields, i, m.key);
        HeldStep(strict, fields, i, vals[i], m, ms);
      }
      SameFilled(strict, fields, vals, [m] + ms, vals, ms);
    }
  }

  lemma FilledClaimed(strict: bool, fields: seq<Field>, vals: seq<Val>, m: Member, ms: seq<Member>, i: nat)
    requires |vals| == |fields| && i < |fields| && IndexOf(FieldNames(fields), m.key) == Some(i)
    ensures Filled(strict, fields, vals, [m] + ms) ==
            match Means(strict, fields[i].schema, vals[i], m.value)
            case None => None
            case Some(u) => Filled(strict, fields, vals[i := u], ms)
  {
    hide Held, AllClaimed, Filled, Claims, Claimed, IndexOf, Means;
    ClaimedIsIndex(fields, m.key);
    AllClaimedStep(fields, m, ms);
    ClaimsIsIndex(fields, i, m.key);
    HeldStep(strict, fields, i, vals[i], m, ms);
    match Means(strict, fields[i].schema, vals[i], m.value)
    case None => FilledIs(strict, fields, vals, [m] + ms);
    case Some(u) =>
      forall j | 0 <= j < |fields|
        ensures Held(strict, fields, j, vals[j], [m] + ms) == Held(strict, fields, j, vals[i := u][j], ms)
      {
        ClaimsIsIndex(fields, j, m.key);
        HeldStep(strict, fields, j, vals[j], m, ms);
      }
      SameFilled(strict, fields, vals, [m] + ms, vals[i := u], ms);
  }

  lemma FilledNothing(strict: bool, fields: seq<Field>, vals: seq<Val>)
    requires |vals| == |fields|
    ensures Filled(strict, fields, vals, []) == Some(vals)
  {
    hide Means;
    FilledIs(strict, fields, vals, []);
    assert Filled(strict, fields, vals, []).value == vals;
  }

  // ---------------------------------------------------------------------
  // The members of a run
  // ---------------------------------------------------------------------

  /** `r`, reading a run of members that `w` walks, reads what they mean. */
  ghost predicate ReadsRun(strict: bool, fields: seq<Field>, f: Filling, r: Out<Filling>, w: Out<seq<Member>>)
    requires |f.vals| == |fields|
  {
    && (r.Ok? <==> w.Ok? && Filled(strict, fields, f.vals, w.value).Some?)
    && (r.Ok? ==>
          && r.pos == w.pos && Some(r.value.vals) == Filled(strict, fields, f.vals, w.value)
          && forall i | 0 <= i < |fields| :: i in r.value.seen <==> i in f.seen || Keyed(fields, i, w.value))
  }

  /** One member more at the front of a run. */
  lemma ReadsMore(strict: bool, fields: seq<Field>, f: Filling, m: Member, g: Filling, r: Out<Filling>, w: Out<seq<Member>>)
    requires |f.vals| == |fields| && |g.vals| == |fields| && ReadsRun(strict, fields, g, r, w) && w.Ok?
    requires match IndexOf(FieldNames(fields), m.key)
             case None => !strict && g == f
             case Some(i) =>
               var u := Means(strict, fields[i].schema, f.vals[i], m.value);
               u.Some? && g == Filling(f.vals[i := u.value], f.seen + {i})
    ensures ReadsRun(strict, fields, f, r, Out.Ok([m] + w.value, w.pos))
  {
    hide Filled, Means, Keyed, IndexOf, Claims;
    match IndexOf(FieldNames(fields), m.key) {
      case None => FilledUnclaimed(strict, fields, f.vals, m, w.value);
      case Some(i) => FilledClaimed(strict, fields, f.vals, m, w.value, i);
    }
    if r.Ok? {
      forall i | 0 <= i < |fields| ensures i in r.value.seen <==> i in f.seen || Keyed(fields, i, [m] + w.value) {
        KeyedStep(fields, i, m, w.value);
        ClaimsIsIndex(fields, i, m.key);
      }
    }
  }

  lemma KeyIsText(d: Bytes, p: nat)
    requires p <= |d| && KeyAt(d, p).Ok?
    ensures WKey(Skip, d, p, TY_OBJECT).Ok? && WKey(Skip, d, p, TY_OBJECT).value.text == KeyAt(d, p).value.0
  {
    hide SizeField, Take, SizeValue;
  }

  lemma {:induction false} MembersMeant(strict: bool, fields: seq<Field>, f: Filling, d: Bytes, p: nat, n: nat, depth: nat)
    requires p <= |d| && |f.vals| == |fields| && depth <= MAX_DEPTH
    ensures ReadsRun(strict, fields, f, RMembers(strict, fields, f, d, p, n, depth), WMembers(Skip, d, p, TY_OBJECT, n, depth))
    decreases |d| - p, 3, n
  {
    hide WKey, KeyAt, WValue, WBody, RValue, Means, Filled, ByteWidth, IndexOf, Claims;
    if n == 0 {
      FilledNothing(strict, fields, f.vals);
      return;
    }
    LateTagTheorems.KeyIsKey(d, p);
    var key := KeyAt(d, p);
    if key.Err? { return; }
    KeyIsText(d, p);
    var x := WValue(Skip, d, key.pos, depth);
    MemberMeant(strict, fields, f, d, p, depth);
    if x.Err? { return; }
    var w := WMembers(Skip, d, x.pos, TY_OBJECT, n - 1, depth);
    var m := Member(WKey(Skip, d, p, TY_OBJECT).value.z, key.value.0, x.value);
    var g := RMember(strict, fields, f, d, p, depth);
    if g.Ok? {
      MembersMeant(strict, fields, g.value, d, x.pos, n - 1, depth);
      if w.Ok? { ReadsMore(strict, fields, f, m, g.value, RMembers(strict, fields, g.value, d, x.pos, n - 1, depth), w); }
    } else if w.Ok? {
      NotRead(strict, fields, f.vals, m, w.value);
    }
  }

  lemma NotRead(strict: bool, fields: seq<Field>, vals: seq<Val>, m: Member, ms: seq<Member>)
    requires |vals| == |fields|
    requires match IndexOf(FieldNames(fields), m.key)
             case None => strict
             case Some(i) => Means(strict, fields[i].schema, vals[i], m.value).None?
    ensures Filled(strict, fields, vals, [m] + ms).None?
  {
    hide Filled, Means, IndexOf;
    match IndexOf(FieldNames(fields), m.key)
    case None => FilledUnclaimed(strict, fields, vals, m, ms);
    case Some(i) => FilledClaimed(strict, fields, vals, m, ms, i);
  }

  /** Reading one member is reading its value into its field, or stepping over it. */
  lemma {:induction false} MemberMeant(strict: bool, fields: seq<Field>, f: Filling, d: Bytes, p: nat, depth: nat)
    requires p <= |d| && |f.vals| == |fields| && depth <= MAX_DEPTH && KeyAt(d, p).Ok?
    ensures var key := KeyAt(d, p);
            var r, x := RMember(strict, fields, f, d, p, depth), WValue(Skip, d, key.pos, depth);
            match IndexOf(FieldNames(fields), key.value.0)
            case None => if strict || x.Err? then r.Err? else r == Out.Ok(f, x.pos)
            case Some(i) =>
              if x.Err? then r.Err?
              else
                match Means(strict, fields[i].schema, f.vals[i], x.value)
                case None => r.Err?
                case Some(u) => r == Out.Ok(Filling(f.vals[i := u], f.seen + {i}), x.pos)
    decreases |d| - p, 2, 0
  {
    hide KeyAt, WValue, WBody, RValue, Means, IndexOf;
    var key := KeyAt(d, p);
    match IndexOf(FieldNames(fields), key.value.0)
    case None =>
    case Some(i) => ReadIsMeant(strict, fields[i].schema, f.vals[i], d, key.pos, depth);
  }

  // ---------------------------------------------------------------------
  // Objects
  // ---------------------------------------------------------------------

  /** What skipping the object at `p` walks, if its head is one that a declared type takes. */
  lemma HeadWalks(d: Bytes, p: nat, depth: nat)
    requires p <= |d| && ObjectHead(d, p).Ok?
    ensures var o, w := ObjectHead(d, p), WValue(Skip, d, p, depth);
            if depth >= MAX_DEPTH then w.Err?
            else
              var ms := WMembers(Skip, d, o.pos, TY_OBJECT, o.value, depth + 1);
              && w.Ok? == ms.Ok?
              && (w.Ok? ==> IsRecord(w.value) && w.value.members == ms.value && w.pos == ms.pos)
  {
    hide ObjectHead, WValue, WMembers, SizeField, SizeValue;
    LateTagTheorems.ObjectDispatch(d, p, depth);
  }

  /** An object with string keys has such a head. */
  lemma RecordHead(d: Bytes, p: nat, depth: nat)
    requires p <= |d| && depth <= MAX_DEPTH && WValue(Skip, d, p, depth).Ok? && IsRecord(WValue(Skip, d, p, depth).value)
    ensures ObjectHead(d, p).Ok?
  {
    hide WMembers, WArray, WTyped, WNum, WText, WExtension;
    var r := WValue(Skip, d, p, depth);
    AcceptedValue(Skip, d, p, depth);
    SpanSplit(d, p, [HeaderOf(r.value)], EncodeBody(r.value), r.pos);
    SpanHead(d, p, r.value.h);
    HeaderFields(d[p]);
  }

  lemma {:induction false} ReadIsMeant(strict: bool, s: Schema, prior: Val, d: Bytes, p: nat, depth: nat)
    requires p <= |d| && depth <= MAX_DEPTH
    ensures var r, w := RValue(strict, s, prior, d, p, depth), WValue(Skip, d, p, depth);
            && (r.Ok? <==> w.Ok? && Means(strict, s, prior, w.value).Some?)
            && (r.Ok? ==> Some(r.value) == Means(strict, s, prior, w.value) && r.pos == w.pos)
    decreases |d| - p, 1, 0
  {
    match s
    case Leaf => LeafMeant(strict, prior, d, p, depth);
    case Struct(fields) => RecordMeant(strict, fields, prior, d, p, depth);
    case Enum(tag, variants) => CaseMeant(strict, tag, variants, prior, d, p, depth);
  }

  lemma LeafMeant(strict: bool, prior: Val, d: Bytes, p: nat, depth: nat)
    requires p <= |d| && depth <= MAX_DEPTH
    ensures var r, w := RValue(strict, Leaf, prior, d, p, depth), WValue(Skip, d, p, depth);
            && (r.Ok? <==> w.Ok? && Means(strict, Leaf, prior, w.value).Some?)
            && (r.Ok? ==> Some(r.value) == Means(strict, Leaf, prior, w.value) && r.pos == w.pos)
  {
    hide WValue, Accepts, WellFormed;
    var b, w := WValue(Build, d, p, depth), WValue(Skip, d, p, depth);
    if b.Ok? {
      WalkTheorems.WalkIffEncoding(Build, d, p, depth, b.value, b.pos);
      WalkTheorems.SkipAccepts(b.value);
      WalkTheorems.WalkIffEncoding(Skip, d, p, depth, b.value, b.pos);
    } else if w.Ok? {
      WalkTheorems.WalkIffEncoding(Skip, d, p, depth, w.value, w.pos);
      WalkTheorems.WalkIffEncoding(Build, d, p, depth, w.value, w.pos);
    }
  }

  lemma {:induction false} RecordMeant(strict: bool, fields: seq<Field>, prior: Val, d: Bytes, p: nat, depth: nat)
    requires p <= |d| && depth <= MAX_DEPTH
    ensures var r, w := RValue(strict, Struct(fields), prior, d, p, depth), WValue(Skip, d, p, depth);
            && (r.Ok? <==> w.Ok? && Means(strict, Struct(fields), prior, w.value).Some?)
            && (r.Ok? ==> Some(r.value) == Means(strict, Struct(fields), prior, w.value) && r.pos == w.pos)
    decreases |d| - p, 0, 0
  {
    hide WValue, WBody, ObjectHead, RMembers, WMembers, Filled, Keyed, MeansRecord, RRest;
    var o, w := ObjectHead(d, p), WValue(Skip, d, p, depth);
    if o.Err? {
      if w.Ok? && IsRecord(w.value) { RecordHead(d, p, depth); }
      return;
    }
    HeadWalks(d, p, depth);
    if depth < MAX_DEPTH { RestMeant(strict, fields, prior, d, o.pos, o.value, depth + 1, p); }
  }

  lemma {:induction false} RestMeant(strict: bool, fields: seq<Field>, prior: Val, d: Bytes, p: nat, n: nat, depth: nat, open: nat)
    requires p <= |d| && depth <= MAX_DEPTH
    ensures var r, w := RRest(strict, fields, Starting(|fields|, prior), d, p, n, p, 0, depth, open), WMembers(Skip, d, p, TY_OBJECT, n, depth);
            && (r.Ok? <==> w.Ok? && MeansRecord(strict, fields, prior, w.value).Some?)
            && (r.Ok? ==> MeansRecord(strict, fields, prior, w.value) == Some(Record(r.value)) && r.pos == w.pos)
    decreases |d| - p, 4, 0
  {
    hide RMembers, WMembers, Filled, Keyed, Starting;
    var f := Filling(Starting(|fields|, prior), {});
    MembersMeant(strict, fields, f, d, p, n, depth);
    LateTagTheorems.NoMembers(strict, fields, d, p, depth);
  }

  // ---------------------------------------------------------------------
  // Tagged variants
  // ---------------------------------------------------------------------

  /** A walked run of members, cut after the first `a`. */
  lemma {:induction false} SplitMembers(d: Bytes, p: nat, n: nat, depth: nat, a: nat)
    requires p <= |d| && a <= n && WMembers(Skip, d, p, TY_OBJECT, n, depth).Ok?
    ensures var w, front := WMembers(Skip, d, p, TY_OBJECT, n, depth), WMembers(Skip, d, p, TY_OBJECT, a, depth);
            && |w.value| == n && front.Ok? && front.value == w.value[..a]
            && WMembers(Skip, d, front.pos, TY_OBJECT, n - a, depth) == Out.Ok(w.value[a..], w.pos)
    decreases n
  {
    hide WKey, WValue, WBody, ByteWidth;
    var w := WMembers(Skip, d, p, TY_OBJECT, n, depth);
    if n > 0 {
      var key := WKey(Skip, d, p, TY_OBJECT);
      var x := WValue(Skip, d, key.pos, depth);
      var rest := WMembers(Skip, d, x.pos, TY_OBJECT, n - 1, depth);
      SplitMembers(d, x.pos, n - 1, depth, if a > 0 then a - 1 else 0);
      if a > 0 {
        assert w.value[..a] == [w.value[0]] + rest.value[..a - 1];
        assert w.value[a..] == rest.value[a - 1..];
      }
    }
    if a == 0 { assert w.value[..0] == [] && w.value[0..] == w.value; }
  }

  /** The member at the front of a walked run. */
  lemma FrontMember(d: Bytes, p: nat, n: nat, depth: nat)
    requires p <= |d| && n > 0 && WMembers(Skip, d, p, TY_OBJECT, n, depth).Ok?
    ensures var w, key := WMembers(Skip, d, p, TY_OBJECT, n, depth), KeyAt(d, p);
            && w.value != [] && key.Ok? && key.value.0 == w.value[0].key
            && var x := WValue(Skip, d, key.pos, depth);
               x.Ok? && x.value == w.value[0].value
               && WMembers(Skip, d, x.pos, TY_OBJECT, n - 1, depth) == Out.Ok(w.value[1..], w.pos)
  {
    hide WKey, KeyAt, WValue, WBody, ByteWidth;
    LateTagTheorems.KeyIsKey(d, p);
    KeyIsText(d, p);
  }

  /** Looking for the tag finds the first member so keyed. */
  lemma {:induction false} TagIsFirst(tag: Bytes, d: Bytes, p: nat, n: nat, depth: nat, first: nat)
    requires p <= |d| && WMembers(Skip, d, p, TY_OBJECT, n, depth).Ok?
    ensures var t, at := FindTag(tag, d, p, n, depth, first), TagAt(tag, WMembers(Skip, d, p, TY_OBJECT, n, depth).value);
            t.Ok? == at.Some? && (t.Ok? ==> t.value == at.value)
    decreases n
  {
    hide WValue, WBody, KeyAt, WMembers, TagAt, FindTag;
    if n == 0 {
      NothingFound(tag, d, p, depth, first);
    } else {
      FrontMember(d, p, n, depth);
      var x := WValue(Skip, d, KeyAt(d, p).pos, depth);
      TagIsFirst(tag, d, x.pos, n - 1, depth, first);
      FindStep(tag, d, p, n, depth, first);
      TagAtStep(tag, WMembers(Skip, d, p, TY_OBJECT, n, depth).value);
    }
  }

  lemma NothingFound(tag: Bytes, d: Bytes, p: nat, depth: nat, first: nat)
    requires p <= |d|
    ensures WMembers(Skip, d, p, TY_OBJECT, 0, depth) == Out.Ok([], p)
    ensures FindTag(tag, d, p, 0, depth, first).Err? && TagAt(tag, []).None?
  {
  }

  lemma FindStep(tag: Bytes, d: Bytes, p: nat, n: nat, depth: nat, first: nat)
    requires p <= |d| && n > 0 && KeyAt(d, p).Ok? && WValue(Skip, d, KeyAt(d, p).pos, depth).Ok?
    ensures var t, rest := FindTag(tag, d, p, n, depth, first),
                           FindTag(tag, d, WValue(Skip, d, KeyAt(d, p).pos, depth).pos, n - 1, depth, first);
            if KeyAt(d, p).value.0 == tag then t == Out.Ok(0, KeyAt(d, p).pos)
            else t.Ok? == rest.Ok? && (t.Ok? ==> t.value == rest.value + 1)
  {
    hide WValue, KeyAt;
  }

  lemma TagAtStep(tag: Bytes, ms: seq<Member>)
    requires ms != []
    ensures var t, rest := TagAt(tag, ms), TagAt(tag, ms[1..]);
            if ms[0].key == tag then t == Some(0) else t.Some? == rest.Some? && (t.Some? ==> t.value == rest.value + 1)
  {
  }

  /** The tag's value names a variant when it is a valid string. */
  lemma NameMeant(d: Bytes, p: nat, first: nat, depth: nat)
    requires depth <= MAX_DEPTH && WValue(Skip, d, p, depth).Ok?
    ensures var x, name := WValue(Skip, d, p, depth), TagName(d, p, first);
            && (name.Ok? <==> x.value.Str? && ValidUtf8(x.value.text.text))
            && (name.Ok? ==> name.value == x.value.text.text && name.pos == x.pos)
  {
    hide WObject, WArray, WTyped, WExtension, WNum, ValidUtf8;
    assert WValue(Skip, d, p, depth) == WBody(Skip, d, p + 1, d[p], depth);
    TextAlike(d, p + 1);
    if WValue(Skip, d, p, depth).value.Str? { StrIsString(d, p, depth); }
  }

  lemma TextAlike(d: Bytes, p: nat)
    ensures var s, v := WText(Skip, d, p), WText(Validate, d, p);
            if s.Err? then v == s else v == if ValidUtf8(s.value.text) then s else Out.Err(InvalidUtf8, s.pos)
  {
    hide ValidUtf8;
  }

  lemma StrIsString(d: Bytes, p: nat, depth: nat)
    requires depth <= MAX_DEPTH && WValue(Skip, d, p, depth).Ok? && WValue(Skip, d, p, depth).value.Str?
    ensures Ty(d[p]) == TY_STRING
  {
    hide WValue;
    var r := WValue(Skip, d, p, depth);
    AcceptedValue(Skip, d, p, depth);
    SpanSplit(d, p, [STRING], EncodeBody(r.value), r.pos);
    SpanHead(d, p, STRING);
  }

  /** The members past the tag and then those before it, into one variant's fields. */
  lemma {:induction false} VariantMeant(strict: bool, index: nat, fields: seq<Field>, prior: Val, d: Bytes, body: nat, first: nat,
                                       depth: nat, open: nat, ms: seq<Member>, t: nat)
    requires t < |ms| && first <= body <= |d| && depth <= MAX_DEPTH
    requires var w := WMembers(Skip, d, body, TY_OBJECT, |ms| - 1 - t, depth); w.Ok? && w.value == ms[t + 1..]
    requires var w := WMembers(Skip, d, first, TY_OBJECT, t, depth); w.Ok? && w.value == ms[..t]
    ensures var vals := StartingCase(index, |fields|, prior);
            var r, v := RRest(strict, fields, vals, d, body, |ms| - 1 - t, first, t, depth, open),
                        MeansVariant(strict, index, fields, prior, ms, t);
            && r.Ok? == v.Some?
            && (r.Ok? ==> v == Some(Case(index, r.value))
                          && r.pos == WMembers(Skip, d, body, TY_OBJECT, |ms| - 1 - t, depth).pos)
    decreases |d| - first, 4, 0
  {
    hide RMembers, WMembers, Filled, Keyed, StartingCase;
    var f := Filling(StartingCase(index, |fields|, prior), {});
    MembersMeant(strict, fields, f, d, body, |ms| - 1 - t, depth);
    var x := RMembers(strict, fields, f, d, body, |ms| - 1 - t, depth);
    if x.Ok? { MembersMeant(strict, fields, x.value, d, first, t, depth); }
  }

  lemma {:induction false} CaseMeant(strict: bool, tag: Bytes, variants: seq<Variant>, prior: Val, d: Bytes, p: nat, depth: nat)
    requires p <= |d| && depth <= MAX_DEPTH
    ensures var r, w := RTagged(strict, tag, variants, prior, d, p, depth), WValue(Skip, d, p, depth);
            && (r.Ok? <==> w.Ok? && Means(strict, Enum(tag, variants), prior, w.value).Some?)
            && (r.Ok? ==> Some(r.value) == Means(strict, Enum(tag, variants), prior, w.value) && r.pos == w.pos)
    decreases |d| - p, 0, 0
  {
    hide WValue, WBody, ObjectHead, WMembers, RTagged, MeansCase;
    var o, w := ObjectHead(d, p), WValue(Skip, d, p, depth);
    if RTagged(strict, tag, variants, prior, d, p, depth).Ok? {
      LateTagTheorems.TaggedSkips(strict, tag, variants, prior, d, p, depth);
    }
    if w.Err? { return; }
    if o.Err? {
      if IsRecord(w.value) { RecordHead(d, p, depth); }
      NoHead(strict, tag, variants, prior, d, p, depth);
      return;
    }
    HeadWalks(d, p, depth);
    TaggedMeant(strict, tag, variants, prior, d, p, o.pos, o.value, depth, w.value.members);
  }

  lemma NoHead(strict: bool, tag: Bytes, variants: seq<Variant>, prior: Val, d: Bytes, p: nat, depth: nat)
    requires p <= |d| && ObjectHead(d, p).Err?
    ensures RTagged(strict, tag, variants, prior, d, p, depth).Err?
  {
  }

  lemma {:induction false} TaggedMeant(strict: bool, tag: Bytes, variants: seq<Variant>, prior: Val, d: Bytes, p: nat, first: nat, n: nat,
                                      depth: nat, ms: seq<Member>)
    requires p < first <= |d| && depth < MAX_DEPTH && ObjectHead(d, p) == Out.Ok(n, first)
    requires var w := WMembers(Skip, d, first, TY_OBJECT, n, depth + 1); w.Ok? && w.value == ms
    ensures var r, v := RTagged(strict, tag, variants, prior, d, p, depth), MeansCase(strict, tag, variants, prior, ms);
            && r.Ok? == v.Some?
            && (r.Ok? ==> v == Some(r.value) && r.pos == WMembers(Skip, d, first, TY_OBJECT, n, depth + 1).pos)
    decreases |d| - first, 5, 0
  {
    hide WValue, WBody, ObjectHead, FindTag, TagName, TagAt, RRest, MeansVariant, IndexOf, KeyAt, WMembers, StartingCase;
    TagIsFirst(tag, d, first, n, depth + 1, first);
    var t := FindTag(tag, d, first, n, depth + 1, first);
    if n == 0 { NothingFound(tag, d, first, depth + 1, first); }
    if t.Err? { return; }
    TagMember(tag, d, first, n, depth + 1, ms);
    NameMeant(d, t.pos, first, depth + 1);
    var name := TagName(d, t.pos, first);
    if name.Err? { return; }
    var i := IndexOf(VariantNames(variants), name.value);
    if i.Some? { VariantMeant(strict, i.value, variants[i.value].payload, prior, d, name.pos, first, depth + 1, p, ms, t.value); }
  }

  /** The members of a run around its tag: where the tag's value is, and the two runs. */
  lemma TagMember(tag: Bytes, d: Bytes, first: nat, n: nat, depth: nat, ms: seq<Member>)
    requires first <= |d| && FindTag(tag, d, first, n, depth, first).Ok?
    requires var w := WMembers(Skip, d, first, TY_OBJECT, n, depth); w.Ok? && w.value == ms
    ensures var t := FindTag(tag, d, first, n, depth, first);
            var x, front := WValue(Skip, d, t.pos, depth), WMembers(Skip, d, first, TY_OBJECT, t.value, depth);
            && t.value < n == |ms| && x.Ok? && x.value == ms[t.value].value
            && front.Ok? && front.value == ms[..t.value]
            && WMembers(Skip, d, x.pos, TY_OBJECT, n - 1 - t.value, depth)
               == Out.Ok(ms[t.value + 1..], WMembers(Skip, d, first, TY_OBJECT, n, depth).pos)
  {
    hide WValue, WBody, FindTag, KeyAt, WMembers, SkipRun;
    var k := FindTag(tag, d, first, n, depth, first).value;
    LateTagTheorems.FoundTag(tag, d, first, n, depth, first);
    LateTagTheorems.RunIsMembers(d, first, k, depth);
    SplitMembers(d, first, n, depth, k);
    var mid := WMembers(Skip, d, first, TY_OBJECT, k, depth).pos;
    FrontMember(d, mid, n - k, depth);
    assert ms[k..][1..] == ms[k + 1..];
  }
}

/** What each field of a value read holds, and that a written value of a declared type reads as
    itself, its members in any order and a tag anywhere among them. */
module TypedRoundTrip {
  import opened Bits
  import opened Wrappers
  import opened Headers
  import opened Wire
  import opened Grammar
  import opened Walks
  import opened WalkProofs
  import opened Typed
  import opened Meanings
  import MeaningTheorems
  import WalkTheorems
  import Trees

  // ---------------------------------------------------------------------
  // One field
  // ---------------------------------------------------------------------

  /** A field no member is for keeps its value. */
  lemma {:induction false} NeverHeld(strict: bool, fields: seq<Field>, i: nat, v: Val, ms: seq<Member>)
    requires i < |fields| && !Keyed(fields, i, ms)
    ensures Held(strict, fields, i, v, ms) == Some(v)
    decreases |ms|
  {
    hide Means, Claims;
    if ms != [] {
      assert !Claims(fields, i, ms[0].key);
      forall m | 0 <= m < |ms| - 1 ensures !Claims(fields, i, ms[1..][m].key) { assert ms[1..][m] == ms[m + 1]; }
      NeverHeld(strict, fields, i, v, ms[1..]);
    }
  }

  /** Member `m` is the last that is for field `i`. */
  ghost predicate LastFor(fields: seq<Field>, i: nat, ms: seq<Member>, m: nat)
    requires i < |fields|
  {
    m < |ms| && Claims(fields, i, ms[m].key) && forall k | m < k < |ms| :: !Claims(fields, i, ms[k].key)
  }

  /** The last member for a field decides it: the field is what its schema reads there, into
      what the members before it left. */
  lemma {:induction false} LastHeld(strict: bool, fields: seq<Field>, i: nat, v: Val, ms: seq<Member>, m: nat)
    requires i < |fields| && LastFor(fields, i, ms, m)
    ensures Held(strict, fields, i, v, ms) ==
            match Held(strict, fields, i, v, ms[..m])
            case None => None
            case Some(u) => Means(strict, fields[i].schema, u, ms[m].value)
    decreases |ms|
  {
    hide Means, Claims;
    if m == 0 {
      assert ms[..0] == [];
      forall k | 0 <= k < |ms| - 1 ensures !Claims(fields, i, ms[1..][k].key) { assert ms[1..][k] == ms[k + 1]; }
      forall u ensures Held(strict, fields, i, u, ms[1..]) == Some(u) { NeverHeld(strict, fields, i, u, ms[1..]); }
    } else {
      assert ms[1..][m - 1] == ms[m] && ms[..m][1..] == ms[1..][..m - 1] && ms[..m][0] == ms[0];
      forall k | m - 1 < k < |ms| - 1 ensures !Claims(fields, i, ms[1..][k].key) { assert ms[1..][k] == ms[k + 1]; }
      forall u ensures Held(strict, fields, i, u, ms[1..]) ==
                       match Held(strict, fields, i, u, ms[1..][..m - 1])
                       case None => None
                       case Some(w) => Means(strict, fields[i].schema, w, ms[m].value)
      {
        LastHeld(strict, fields, i, u, ms[1..], m - 1);
      }
    }
  }

  lemma {:induction false} HeldAppends(strict: bool, fields: seq<Field>, i: nat, v: Val, a: seq<Member>, b: seq<Member>)
    requires i < |fields|
    ensures Held(strict, fields, i, v, a + b) ==
            match Held(strict, fields, i, v, a)
            case None => None
            case Some(u) => Held(strict, fields, i, u, b)
    decreases |a|
  {
    hide Means, Claims;
    if a == [] {
      assert a + b == b;
    } else {
      assert (a + b)[0] == a[0] && (a + b)[1..] == a[1..] + b;
      HeldAppends(strict, fields, i, v, a[1..], b);
      if u: Val :| Means(strict, fields[i].schema, v, a[0].value) == Some(u) { HeldAppends(strict, fields, i, u, a[1..], b); }
    }
  }

  lemma KeyedAppends(fields: seq<Field>, i: nat, a: seq<Member>, b: seq<Member>)
    requires i < |fields|
    ensures Keyed(fields, i, a + b) <==> Keyed(fields, i, a) || Keyed(fields, i, b)
  {
    hide Claims;
    var all := a + b;
    forall m | 0 <= m < |a| ensures all[m] == a[m] { }
    forall m | 0 <= m < |b| ensures all[|a| + m] == b[m] { }
    if Keyed(fields, i, b) {
      var m :| 0 <= m < |b| && Claims(fields, i, b[m].key);
      assert Claims(fields, i, all[|a| + m].key);
    }
    if Keyed(fields, i, a) {
      var m :| 0 <= m < |a| && Claims(fields, i, a[m].key);
      assert Claims(fields, i, all[m].key);
    }
    if Keyed(fields, i, all) {
      var m :| 0 <= m < |all| && Claims(fields, i, all[m].key);
      assert m < |a| || all[m] == b[m - |a|];
    }
  }

  /** What field `i` holds after the members `ms`, read into `start`: what its schema reads at
      the one member that is for it; a leaf met again, the last; unmet, what it held. */
  ghost predicate FieldHolds(strict: bool, fields: seq<Field>, i: nat, start: Val, ms: seq<Member>, v: Val)
    requires i < |fields|
  {
    && (!Keyed(fields, i, ms) ==> v == start && !fields[i].required)
    && forall m: nat | LastFor(fields, i, ms, m) ::
         && (fields[i].schema.Leaf? ==> v == Val.Plain(Trees.TreeOf(ms[m].value)))
         && (!Keyed(fields, i, ms[..m]) ==> Means(strict, fields[i].schema, start, ms[m].value) == Some(v))
  }

  lemma HeldField(strict: bool, fields: seq<Field>, i: nat, start: Val, ms: seq<Member>, v: Val)
    requires i < |fields| && Held(strict, fields, i, start, ms) == Some(v) && (fields[i].required ==> Keyed(fields, i, ms))
    ensures FieldHolds(strict, fields, i, start, ms, v)
  {
    hide Held, Keyed, Accepts, WellFormed;
    if !Keyed(fields, i, ms) { NeverHeld(strict, fields, i, start, ms); }
    forall m: nat | LastFor(fields, i, ms, m)
      ensures fields[i].schema.Leaf? ==> v == Val.Plain(Trees.TreeOf(ms[m].value))
      ensures !Keyed(fields, i, ms[..m]) ==> Means(strict, fields[i].schema, start, ms[m].value) == Some(v)
    {
      LastHeld(strict, fields, i, start, ms, m);
      if !Keyed(fields, i, ms[..m]) { NeverHeld(strict, fields, i, start, ms[..m]); }
    }
  }

  /** A struct read is one value of each field, held over from a value of its shape or else
      from the default. */
  lemma FieldOfRecord(strict: bool, fields: seq<Field>, prior: Val, n: Node)
    requires Means(strict, Struct(fields), prior, n).Some?
    ensures var r := Means(strict, Struct(fields), prior, n).value;
            && IsRecord(n) && r.Record? && |r.vals| == |fields|
            && forall i | 0 <= i < |fields| ::
                 FieldHolds(strict, fields, i, if prior.Record? && |prior.vals| == |fields| then prior.vals[i] else Unset,
                            n.members, r.vals[i])
  {
    hide Held, Filled, Keyed, FieldHolds;
    var start := Starting(|fields|, prior);
    var r := Means(strict, Struct(fields), prior, n).value;
    MeaningTheorems.FilledIs(strict, fields, start, n.members);
    forall i | 0 <= i < |fields| ensures FieldHolds(strict, fields, i, start[i], n.members, r.vals[i]) {
      HeldField(strict, fields, i, start[i], n.members, r.vals[i]);
    }
  }

  /** The members of an object in the order a tagged variant takes them. */
  function PastTheTag(ms: seq<Member>, t: nat): seq<Member>
    requires t < |ms|
  {
    ms[t + 1..] + ms[..t]
  }

  /** A variant read is the one the tag's text names, with a value of each of its fields, the
      members past the tag coming before the others. */
  lemma FieldOfCase(strict: bool, tag: Bytes, variants: seq<Variant>, prior: Val, n: Node)
    requires Means(strict, Enum(tag, variants), prior, n).Some?
    ensures var r := Means(strict, Enum(tag, variants), prior, n).value;
            && IsRecord(n) && TagAt(tag, n.members).Some? && r.Case? && r.index < |variants|
            && var t, fields := TagAt(tag, n.members).value, variants[r.index].payload;
            && n.members[t].value.Str? && variants[r.index].name == n.members[t].value.text.text
            && (forall k | 0 <= k < r.index :: variants[k].name != variants[r.index].name)
            && |r.vals| == |fields|
            && forall i | 0 <= i < |fields| ::
                 FieldHolds(strict, fields, i,
                            if prior.Case? && prior.index == r.index && |prior.vals| == |fields| then prior.vals[i] else Unset,
                            PastTheTag(n.members, t), r.vals[i])
  {
    hide Held, Filled, Keyed, FieldHolds, TagAt, ValidUtf8, IndexOf, MeansVariant;
    var ms := n.members;
    var t := TagAt(tag, ms).value;
    VariantNamed(variants, ms[t].value.text.text);
    var v := IndexOf(VariantNames(variants), ms[t].value.text.text).value;
    FieldOfVariant(strict, v, variants[v].payload, prior, ms, t);
  }

  lemma FieldOfVariant(strict: bool, index: nat, fields: seq<Field>, prior: Val, ms: seq<Member>, t: nat)
    requires t < |ms| && MeansVariant(strict, index, fields, prior, ms, t).Some?
    ensures var r := MeansVariant(strict, index, fields, prior, ms, t).value;
            && r.Case? && r.index == index && |r.vals| == |fields|
            && forall i | 0 <= i < |fields| ::
                 FieldHolds(strict, fields, i, StartingCase(index, |fields|, prior)[i], PastTheTag(ms, t), r.vals[i])
  {
    hide Held, Filled, Keyed, FieldHolds, StartingCase;
    var after, before := ms[t + 1..], ms[..t];
    var r := MeansVariant(strict, index, fields, prior, ms, t).value;
    var start := StartingCase(index, |fields|, prior);
    MeaningTheorems.FilledIs(strict, fields, start, after);
    var first := Filled(strict, fields, start, after).value;
    MeaningTheorems.FilledIs(strict, fields, first, before);
    forall i | 0 <= i < |fields| ensures FieldHolds(strict, fields, i, start[i], after + before, r.vals[i]) {
      HeldAppends(strict, fields, i, start[i], after, before);
      KeyedAppends(fields, i, after, before);
      HeldField(strict, fields, i, start[i], after + before, r.vals[i]);
    }
  }

  lemma VariantNamed(variants: seq<Variant>, name: Bytes)
    requires IndexOf(VariantNames(variants), name).Some?
    ensures var v := IndexOf(VariantNames(variants), name).value;
            v < |variants| && variants[v].name == name && forall k | 0 <= k < v :: variants[k].name != name
  {
    hide IndexOf;
    var names := VariantNames(variants);
    var v := IndexOf(names, name).value;
    forall k | 0 <= k < v ensures variants[k].name != name { assert names[..v][k] == names[k]; }
  }

  // ---------------------------------------------------------------------
  // There and back
  // ---------------------------------------------------------------------

  /** A declaration the macros accept: names are distinct, no field of a variant is named as
      the tag is, and a variant's name is text. */
  ghost predicate Declared(s: Schema)
    decreases s, 1
  {
    match s
    case Leaf => true
    case Struct(fields) => DeclaredFields(fields)
    case Enum(tag, variants) =>
      && (forall v, w | 0 <= v < w < |variants| :: variants[v].name != variants[w].name)
      && forall v | 0 <= v < |variants| ::
           && ValidUtf8(variants[v].name)
           && DeclaredFields(variants[v].payload)
           && forall i | 0 <= i < |variants[v].payload| :: variants[v].payload[i].name != tag
  }

  ghost predicate DeclaredFields(fields: seq<Field>)
    decreases fields, 0
  {
    && (forall i, j | 0 <= i < j < |fields| :: fields[i].name != fields[j].name)
    && forall i | 0 <= i < |fields| :: Declared(fields[i].schema)
  }

  /** `n` is a document's value that spells the value `v` of the type `s`. */
  ghost predicate Spells(s: Schema, v: Val, n: Node)
    decreases n, 1
  {
    match s
    case Leaf => v.Plain? && WellFormed(n) && Accepts(Build, n) && Trees.TreeOf(n) == v.v
    case Struct(fields) => v.Record? && IsRecord(n) && SpellsFields(fields, v.vals, n.members, |n.members|)
    case Enum(tag, variants) =>
      && v.Case? && v.index < |variants| && IsRecord(n)
      && exists t | 0 <= t < |n.members| ::
           && n.members[t].key == tag && n.members[t].value.Str?
           && n.members[t].value.text.text == variants[v.index].name
           && SpellsFields(variants[v.index].payload, v.vals, n.members, t)
  }

  /** The members, but for the one at `t`, are one of each field in some order. */
  ghost predicate SpellsFields(fields: seq<Field>, vals: seq<Val>, ms: seq<Member>, t: nat)
    decreases ms, 0
  {
    && |vals| == |fields|
    && (forall m, k | 0 <= m < k < |ms| :: ms[m].key != ms[k].key)
    && (forall m | 0 <= m < |ms| && m != t :: Claimed(fields, ms[m].key))
    && forall i | 0 <= i < |fields| ::
         exists m | 0 <= m < |ms| && m != t :: ms[m].key == fields[i].name && Spells(fields[i].schema, vals[i], ms[m].value)
  }

  lemma NameClaims(fields: seq<Field>, i: nat, key: Bytes)
    requires DeclaredFields(fields) && i < |fields|
    ensures Claims(fields, i, key) <==> fields[i].name == key
  {
  }

  /** The one member for a field, in any run that has it, is what the field holds. */
  lemma HeldOnce(strict: bool, fields: seq<Field>, i: nat, start: Val, ms: seq<Member>, m: nat)
    requires DeclaredFields(fields) && i < |fields| && m < |ms| && ms[m].key == fields[i].name
    requires forall k | 0 <= k < |ms| && k != m :: ms[k].key != ms[m].key
    ensures Keyed(fields, i, ms) && Held(strict, fields, i, start, ms) == Means(strict, fields[i].schema, start, ms[m].value)
  {
    hide Means, Held, DeclaredFields;
    forall k | 0 <= k < |ms| ensures Claims(fields, i, ms[k].key) <==> k == m { NameClaims(fields, i, ms[k].key); }
    hide Claims;
    LastHeld(strict, fields, i, start, ms, m);
    NeverHeld(strict, fields, i, start, ms[..m]);
  }

  lemma AllSpelled(fields: seq<Field>, vals: seq<Val>, ms: seq<Member>, t: nat)
    requires SpellsFields(fields, vals, ms, t)
    ensures |vals| == |fields|
    ensures forall m, k | 0 <= m < k < |ms| :: ms[m].key != ms[k].key
    ensures forall m | 0 <= m < |ms| && m != t :: Claimed(fields, ms[m].key)
  {
    hide Claimed;
  }

  lemma FieldSpelled(fields: seq<Field>, vals: seq<Val>, ms: seq<Member>, t: nat, i: nat) returns (m: nat)
    requires i < |fields| && SpellsFields(fields, vals, ms, t)
    ensures |vals| == |fields| && m < |ms| && m != t
    ensures ms[m].key == fields[i].name && Spells(fields[i].schema, vals[i], ms[m].value)
    ensures forall k | 0 <= k < |ms| && k != m :: ms[k].key != ms[m].key
  {
    hide Claimed;
    var field, v := fields[i], vals[i];
    m :| 0 <= m < |ms| && m != t && ms[m].key == fields[i].name && Spells(fields[i].schema, vals[i], ms[m].value);
  }

  /** Every value of a declared type reads from whatever spells it, into anything. */
  lemma {:induction false} SpelledMeans(strict: bool, s: Schema, v: Val, prior: Val, n: Node)
    requires Declared(s) && Spells(s, v, n)
    ensures Means(strict, s, prior, n) == Some(v)
    decreases n, 1
  {
    match s
    case Leaf =>
    case Struct(fields) => SpelledRecord(strict, fields, v, prior, n);
    case Enum(tag, variants) => SpelledCase(strict, tag, variants, v, prior, n);
  }

  lemma {:induction false} SpelledRecord(strict: bool, fields: seq<Field>, v: Val, prior: Val, n: Node)
    requires Declared(Struct(fields)) && Spells(Struct(fields), v, n)
    ensures Means(strict, Struct(fields), prior, n) == Some(v)
    decreases n, 0
  {
    hide Held, Filled, Means, DeclaredFields, SpellsFields, Keyed, Starting;
    var ms := n.members;
    AllSpelled(fields, v.vals, ms, |ms|);
    var start := Starting(|fields|, prior);
    forall i | 0 <= i < |fields| ensures Keyed(fields, i, ms) && Held(strict, fields, i, start[i], ms) == Some(v.vals[i]) {
      var m := FieldSpelled(fields, v.vals, ms, |ms|, i);
      FieldDeclared(fields, i);
      SpelledMeans(strict, fields[i].schema, v.vals[i], start[i], ms[m].value);
      HeldOnce(strict, fields, i, start[i], ms, m);
    }
    MeaningTheorems.FilledIs(strict, fields, start, ms);
    assert Filled(strict, fields, start, ms).value == v.vals;
    RecordIs(strict, fields, prior, n);
  }

  lemma FieldDeclared(fields: seq<Field>, i: nat)
    requires DeclaredFields(fields) && i < |fields|
    ensures Declared(fields[i].schema)
  {
  }

  lemma RecordIs(strict: bool, fields: seq<Field>, prior: Val, n: Node)
    requires IsRecord(n)
    ensures Means(strict, Struct(fields), prior, n) == MeansRecord(strict, fields, prior, n.members)
  {
  }

  /** The members but for the tag are the members in the order they are taken. */
  lemma HeldAroundTag(strict: bool, fields: seq<Field>, i: nat, start: Val, ms: seq<Member>, t: nat, m: nat)
    requires DeclaredFields(fields) && i < |fields| && t < |ms| && m < |ms| && m != t && ms[m].key == fields[i].name
    requires forall k | 0 <= k < |ms| && k != m :: ms[k].key != ms[m].key
    ensures Keyed(fields, i, ms[t + 1..]) || Keyed(fields, i, ms[..t])
    ensures Held(strict, fields, i, start, PastTheTag(ms, t)) == Means(strict, fields[i].schema, start, ms[m].value)
  {
    hide Means, Held, DeclaredFields, Keyed;
    var after, before, order := ms[t + 1..], ms[..t], PastTheTag(ms, t);
    var at := if m > t then m - t - 1 else |after| + m;
    forall k | 0 <= k < |order| ensures order[k] == ms[if k < |after| then k + t + 1 else k - |after|] { }
    assert order[at] == ms[m];
    HeldOnce(strict, fields, i, start, order, at);
    KeyedAppends(fields, i, after, before);
  }

  lemma FilledAroundTag(strict: bool, fields: seq<Field>, start: seq<Val>, vals: seq<Val>, ms: seq<Member>, t: nat)
    requires t < |ms| && |start| == |vals| == |fields|
    requires forall i | 0 <= i < |fields| :: Held(strict, fields, i, start[i], PastTheTag(ms, t)) == Some(vals[i])
    requires forall m | 0 <= m < |ms| && m != t :: Claimed(fields, ms[m].key)
    ensures Filled(strict, fields, start, ms[t + 1..]).Some?
    ensures Filled(strict, fields, Filled(strict, fields, start, ms[t + 1..]).value, ms[..t]) == Some(vals)
  {
    hide Held, Filled, Claimed;
    var after, before := ms[t + 1..], ms[..t];
    forall i | 0 <= i < |fields| ensures Held(strict, fields, i, start[i], after).Some? {
      HeldAppends(strict, fields, i, start[i], after, before);
    }
    MeaningTheorems.FilledIs(strict, fields, start, after);
    var first := Filled(strict, fields, start, after).value;
    forall i | 0 <= i < |fields| ensures Held(strict, fields, i, first[i], before) == Some(vals[i]) {
      HeldAppends(strict, fields, i, start[i], after, before);
    }
    MeaningTheorems.FilledIs(strict, fields, first, before);
    assert Filled(strict, fields, first, before).value == vals;
  }

  lemma TagIsThere(tag: Bytes, ms: seq<Member>, t: nat)
    requires t < |ms| && ms[t].key == tag && forall m, k | 0 <= m < k < |ms| :: ms[m].key != ms[k].key
    ensures TagAt(tag, ms) == Some(t)
  {
    hide TagAt;
  }

  lemma VariantIsThere(variants: seq<Variant>, v: nat)
    requires v < |variants| && forall v, w | 0 <= v < w < |variants| :: variants[v].name != variants[w].name
    ensures IndexOf(VariantNames(variants), variants[v].name) == Some(v)
  {
    hide IndexOf;
    var names := VariantNames(variants);
    assert names[v] == variants[v].name;
    VariantNamed(variants, variants[v].name);
  }

  lemma {:induction false} SpelledCase(strict: bool, tag: Bytes, variants: seq<Variant>, v: Val, prior: Val, n: Node)
    requires Declared(Enum(tag, variants)) && Spells(Enum(tag, variants), v, n)
    ensures Means(strict, Enum(tag, variants), prior, n) == Some(v)
    decreases n, 0
  {
    hide Held, Filled, Means, MeansVariant, DeclaredFields, TagAt, IndexOf, ValidUtf8, SpellsFields;
    var ms, fields := n.members, variants[v.index].payload;
    var t :| 0 <= t < |ms| && ms[t].key == tag && ms[t].value.Str? && ms[t].value.text.text == variants[v.index].name
             && SpellsFields(fields, v.vals, ms, t);
    AllSpelled(fields, v.vals, ms, t);
    TagIsThere(tag, ms, t);
    VariantIsThere(variants, v.index);
    SpelledVariant(strict, v.index, fields, v.vals, prior, ms, t);
    CaseIs(strict, tag, variants, prior, n);
  }

  lemma CaseIs(strict: bool, tag: Bytes, variants: seq<Variant>, prior: Val, n: Node)
    requires IsRecord(n)
    ensures Means(strict, Enum(tag, variants), prior, n) == MeansCase(strict, tag, variants, prior, n.members)
  {
  }

  lemma {:induction false} SpelledVariant(strict: bool, index: nat, fields: seq<Field>, vals: seq<Val>, prior: Val, ms: seq<Member>, t: nat)
    requires t < |ms| && DeclaredFields(fields) && SpellsFields(fields, vals, ms, t)
    ensures MeansVariant(strict, index, fields, prior, ms, t) == Some(Case(index, vals))
    decreases ms
  {
    hide Held, Filled, Means, DeclaredFields, SpellsFields, Keyed, StartingCase;
    AllSpelled(fields, vals, ms, t);
    var start := StartingCase(index, |fields|, prior);
    forall i | 0 <= i < |fields|
      ensures Keyed(fields, i, ms[t + 1..]) || Keyed(fields, i, ms[..t])
      ensures Held(strict, fields, i, start[i], PastTheTag(ms, t)) == Some(vals[i])
    {
      var m := FieldSpelled(fields, vals, ms, t, i);
      FieldDeclared(fields, i);
      SpelledMeans(strict, fields[i].schema, vals[i], start[i], ms[m].value);
      HeldAroundTag(strict, fields, i, start[i], ms, t, m);
    }
    FilledAroundTag(strict, fields, start, vals, ms, t);
  }

  /** A document that spells a value of a declared type, whatever the order of its members,
      wherever its tags stand and whatever surrounds it, reads as that value, over whatever
      was there. */
  lemma ReadsBack(strict: bool, s: Schema, v: Val, prior: Val, n: Node, d: Bytes, p: nat, e: nat, depth: nat)
    requires Declared(s) && Spells(s, v, n) && WellFormed(n) && depth + Nesting(n) <= MAX_DEPTH
    requires p <= |d| && Spans(d, p, Encode(n), e)
    ensures RValue(strict, s, prior, d, p, depth) == Out.Ok(v, e)
  {
    hide RValue, WValue, Means, Encode;
    WalkTheorems.SkipAccepts(n);
    WalkTheorems.WalkIffEncoding(Skip, d, p, depth, n, e);
    SpelledMeans(strict, s, v, prior, n);
    MeaningTheorems.ReadIsMeant(strict, s, prior, d, p, depth);
  }
}

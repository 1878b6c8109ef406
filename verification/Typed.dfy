/** Reading a BEVE document into a declared type, as a function of the document: structs,
    and enums whose tag is a member of their payload's object (src/beve/reader.rs, with the
    dispatch src/macros.rs generates standing as a small schema).

    This is the meaning the reader is held to. It knows nothing of a stack of deferred runs:
    a payload's members are those after the tag and then those before it. */
module Typed {
  import opened Bits
  import opened Wrappers
  import opened Headers
  import opened Wire
  import opened Grammar
  import opened Walks
  import Trees

  datatype Schema =
    | Leaf
    | Struct(fields: seq<Field>)
    | Enum(tag: Bytes, variants: seq<Variant>)

  datatype Field = Field(name: Bytes, required: bool, schema: Schema)

  /** A variant carries the fields of a struct, or nothing. */
  datatype Variant = Variant(name: Bytes, payload: seq<Field>)

  /** A value of a declared type. `Unset` is the default a field starts from. */
  datatype Val =
    | Unset
    | Plain(v: Trees.Value)
    | Record(vals: seq<Val>)
    | Case(index: nat, vals: seq<Val>)

  /** What reading members fills in: each field's value, and which fields were met. */
  datatype Filling = Filling(vals: seq<Val>, seen: set<nat>)

  /** The index of the name `key` is, which is what the perfect hash and the comparison
      after it come to. */
  function IndexOf(names: seq<Bytes>, key: Bytes): (r: Option<nat>)
    ensures r.Some? ==> r.value < |names| && names[r.value] == key && key !in names[..r.value]
    ensures r.None? ==> key !in names
  {
    if names == [] then None
    else if names[0] == key then Some(0)
    else match IndexOf(names[1..], key)
      case Some(i) =>
        assert names[..i + 1] == [names[0]] + names[1..][..i];
        Some(i + 1)
      case None => None
  }

  function FieldNames(fields: seq<Field>): (r: seq<Bytes>)
    ensures |r| == |fields|
  {
    seq<Bytes>(|fields|, i requires 0 <= i < |fields| => fields[i].name)
  }

  function VariantNames(variants: seq<Variant>): (r: seq<Bytes>)
    ensures |r| == |variants|
  {
    seq<Bytes>(|variants|, i requires 0 <= i < |variants| => variants[i].name)
  }

  function Fresh(n: nat): (r: seq<Val>)
    ensures |r| == n
  {
    seq(n, _ => Unset)
  }

  /** The fields a read starts from: what the value already holds, if it is a record of this
      shape. */
  function Starting(n: nat, prior: Val): (r: seq<Val>)
    ensures |r| == n
  {
    if prior.Record? && |prior.vals| == n then prior.vals else Fresh(n)
  }

  function StartingCase(index: nat, n: nat, prior: Val): (r: seq<Val>)
    ensures |r| == n
  {
    if prior.Case? && prior.index == index && |prior.vals| == n then prior.vals else Fresh(n)
  }

  predicate Missing(fields: seq<Field>, seen: set<nat>) {
    exists i | 0 <= i < |fields| :: fields[i].required && i !in seen
  }

  // ---------------------------------------------------------------------
  // Reading
  // ---------------------------------------------------------------------

  /** `strict` is whether a key no field claims is an error. */
  function RValue(strict: bool, s: Schema, prior: Val, d: Bytes, p: nat, depth: nat): (r: Out<Val>)
    requires p <= |d|
    ensures r.Ok? ==> p < r.pos <= |d|
    decreases |d| - p, 1, 0
  {
    match s
    case Leaf =>
      var (n, p1) :- WValue(Build, d, p, depth);
      Out.Ok(Val.Plain(Trees.TreeOf(n)), p1)
    case Struct(fields) =>
      var (n, p1) :- ObjectHead(d, p);
      if depth >= MAX_DEPTH then Out.Err(ExceededMaxDepth, p1)
      else
        var (vals, p2) :- RRest(strict, fields, Starting(|fields|, prior), d, p1, n, p1, 0, depth + 1, p);
        Out.Ok(Record(vals), p2)
    case Enum(tag, variants) => RTagged(strict, tag, variants, prior, d, p, depth)
  }

  /** The header and member count of an object with string keys. */
  function ObjectHead(d: Bytes, p: nat): (r: Out<nat>)
    ensures r.Ok? ==> p < r.pos <= |d|
  {
    var (h, p1) :- Head(d, p);
    if Ty(h) != TY_OBJECT then Out.Err(ExpectedObject, p1)
    else if KeyWidth(h).None? then Out.Err(InvalidHeader, p1)
    else if Sub(h) != CAT_FLOAT then Out.Err(UnsupportedKeyType, p1)
    else
      var (z, p2) :- SizeField(d, p1);
      Out.Ok(SizeValue(z), p2)
  }

  /** A key's bytes, and where they begin. */
  function KeyAt(d: Bytes, p: nat): (r: Out<(Bytes, nat)>)
    ensures r.Ok? ==> p < r.pos <= |d|
  {
    var (z, p1) :- SizeField(d, p);
    var (key, p2) :- Take(d, p1, SizeValue(z));
    Out.Ok((key, p1), p2)
  }

  function RMember(strict: bool, fields: seq<Field>, f: Filling, d: Bytes, p: nat, depth: nat): (r: Out<Filling>)
    requires p <= |d| && |f.vals| == |fields|
    ensures r.Ok? ==> p < r.pos <= |d| && |r.value.vals| == |fields|
    decreases |d| - p, 2, 0
  {
    var (key, p1) :- KeyAt(d, p);
    match IndexOf(FieldNames(fields), key.0)
    case Some(i) =>
      var (v, p2) :- RValue(strict, fields[i].schema, f.vals[i], d, p1, depth);
      Out.Ok(Filling(f.vals[i := v], f.seen + {i}), p2)
    case None =>
      if strict then Out.Err(UnknownKey, key.1)
      else
        var (_, p2) :- WValue(Skip, d, p1, depth);
        Out.Ok(f, p2)
  }

  function RMembers(strict: bool, fields: seq<Field>, f: Filling, d: Bytes, p: nat, n: nat, depth: nat): (r: Out<Filling>)
    requires p <= |d| && |f.vals| == |fields|
    ensures r.Ok? ==> p <= r.pos <= |d| && |r.value.vals| == |fields|
    decreases |d| - p, 3, n
  {
    if n == 0 then Out.Ok(f, p)
    else
      var (g, p1) :- RMember(strict, fields, f, d, p, depth);
      RMembers(strict, fields, g, d, p1, n - 1, depth)
  }

  /** The `after` members at `p`, then the `before` members at `first`, into one value; the
      cursor ends past the former. A required field met in neither is an error at `open`. */
  function RRest(strict: bool, fields: seq<Field>, vals: seq<Val>, d: Bytes, p: nat, after: nat, first: nat, before: nat,
                 depth: nat, open: nat): (r: Out<seq<Val>>)
    requires first <= p <= |d| && |vals| == |fields|
    ensures r.Ok? ==> p <= r.pos <= |d| && |r.value| == |fields|
    decreases |d| - first, 4, 0
  {
    var (f, p1) :- RMembers(strict, fields, Filling(vals, {}), d, p, after, depth);
    var (g, _) :- RMembers(strict, fields, f, d, first, before, depth);
    if Missing(fields, g.seen) then Out.Err(MissingKey, open) else Out.Ok(g.vals, p1)
  }

  /** The end of the `n` members at `p`, whatever they hold. */
  function SkipRun(d: Bytes, p: nat, n: nat, depth: nat): (r: Out<()>)
    requires p <= |d|
    ensures r.Ok? ==> p <= r.pos <= |d| && r == Out.Ok((), r.pos)
    decreases n
  {
    if n == 0 then Out.Ok((), p)
    else
      var (_, p1) :- KeyAt(d, p);
      var (_, p2) :- WValue(Skip, d, p1, depth);
      SkipRun(d, p2, n - 1, depth)
  }

  /** How many of the `n` members at `p` come before the one keyed `tag`, and the place just
      past that key. Without one, the error is at `first`. */
  function FindTag(tag: Bytes, d: Bytes, p: nat, n: nat, depth: nat, first: nat): (r: Out<nat>)
    requires p <= |d|
    ensures r.Ok? ==> p < r.pos <= |d| && r.value < n
    decreases n
  {
    if n == 0 then Out.Err(ExpectedTag, first)
    else
      var (key, p1) :- KeyAt(d, p);
      if key.0 == tag then Out.Ok(0, p1)
      else
        var (_, p2) :- WValue(Skip, d, p1, depth);
        var (before, p3) :- FindTag(tag, d, p2, n - 1, depth, first);
        Out.Ok(before + 1, p3)
  }

  /** The tag's value, which must be a string. */
  function TagName(d: Bytes, p: nat, first: nat): (r: Out<Bytes>)
    ensures r.Ok? ==> p < r.pos <= |d|
  {
    var (h, p1) :- Head(d, p);
    if Ty(h) != TY_STRING then Out.Err(ExpectedTag, first)
    else if !BareHeader(h) then Out.Err(InvalidHeader, p1)
    else
      var (t, p2) :- WText(Validate, d, p1);
      Out.Ok(t.text, p2)
  }

  function RTagged(strict: bool, tag: Bytes, variants: seq<Variant>, prior: Val, d: Bytes, p: nat, depth: nat): (r: Out<Val>)
    requires p <= |d|
    ensures r.Ok? ==> p < r.pos <= |d|
    decreases |d| - p, 0, 0
  {
    var (members, first) :- ObjectHead(d, p);
    if members == 0 then Out.Err(ExpectedTag, p)
    else if depth >= MAX_DEPTH then Out.Err(ExceededMaxDepth, first)
    else
      var (before, at) :- FindTag(tag, d, first, members, depth + 1, first);
      var (name, body) :- TagName(d, at, first);
      match IndexOf(VariantNames(variants), name)
      case None => Out.Err(UnknownVariant, at)
      case Some(i) =>
        var fields := variants[i].payload;
        var (vals, end) :- RRest(strict, fields, StartingCase(i, |fields|, prior), d, body, members - 1 - before, first, before,
                                 depth + 1, p);
        Out.Ok(Case(i, vals), end)
  }
}

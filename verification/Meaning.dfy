/** What a document means to a declared type, said of the value it holds and of each field
    on its own: no run of members, no cursor and nothing noted as met. */
module Meanings {
  import opened Bits
  import opened Wrappers
  import opened Headers
  import opened Wire
  import opened Grammar
  import opened Walks
  import opened Typed
  import Trees

  /** Field `i` is the one a member keyed `key` is for. */
  predicate Claims(fields: seq<Field>, i: nat, key: Bytes)
    requires i < |fields|
  {
    fields[i].name == key && forall j | 0 <= j < i :: fields[j].name != key
  }

  predicate Claimed(fields: seq<Field>, key: Bytes) {
    exists i | 0 <= i < |fields| :: fields[i].name == key
  }

  /** Field `i` is met among the members. */
  predicate Keyed(fields: seq<Field>, i: nat, members: seq<Member>)
    requires i < |fields|
  {
    exists m | 0 <= m < |members| :: Claims(fields, i, members[m].key)
  }

  /** The first member keyed `tag`. */
  function TagAt(tag: Bytes, members: seq<Member>): (r: Option<nat>)
    ensures r.Some? ==> r.value < |members| && members[r.value].key == tag
                        && forall m | 0 <= m < r.value :: members[m].key != tag
    ensures r.None? ==> forall m | 0 <= m < |members| :: members[m].key != tag
  {
    if members == [] then None
    else if members[0].key == tag then Some(0)
    else match TagAt(tag, members[1..])
      case Some(m) => Some(m + 1)
      case None => None
  }

  /** An object with string keys. */
  predicate IsRecord(n: Node) {
    n.Obj? && Sub(n.h) == CAT_FLOAT
  }

  /** The value `n` is of the declared type `s`, read into `prior`; or nothing. */
  function Means(strict: bool, s: Schema, prior: Val, n: Node): Option<Val>
    decreases n, 1
  {
    match s
    case Leaf => if WellFormed(n) && Accepts(Build, n) then Some(Val.Plain(Trees.TreeOf(n))) else None
    case Struct(fields) => if IsRecord(n) then MeansRecord(strict, fields, prior, n.members) else None
    case Enum(tag, variants) => if IsRecord(n) then MeansCase(strict, tag, variants, prior, n.members) else None
  }

  /** A struct: every field after the members, none that is required unmet. */
  function MeansRecord(strict: bool, fields: seq<Field>, prior: Val, members: seq<Member>): Option<Val>
    decreases members, 2
  {
    match Filled(strict, fields, Starting(|fields|, prior), members)
    case None => None
    case Some(vals) =>
      if exists i | 0 <= i < |fields| :: fields[i].required && !Keyed(fields, i, members) then None
      else Some(Record(vals))
  }

  /** A tagged variant: the one the tag's text names, its fields after the members past the
      tag and then those before it. */
  function MeansCase(strict: bool, tag: Bytes, variants: seq<Variant>, prior: Val, members: seq<Member>): Option<Val>
    decreases members, 2
  {
    match TagAt(tag, members)
    case None => None
    case Some(t) =>
      var name := members[t].value;
      if !name.Str? || !ValidUtf8(name.text.text) then None
      else
        match IndexOf(VariantNames(variants), name.text.text)
        case None => None
        case Some(v) => MeansVariant(strict, v, variants[v].payload, prior, members, t)
  }

  function MeansVariant(strict: bool, index: nat, fields: seq<Field>, prior: Val, members: seq<Member>, t: nat): Option<Val>
    requires t < |members|
    decreases members, 1
  {
    var after, before := members[t + 1..], members[..t];
    var first := Filled(strict, fields, StartingCase(index, |fields|, prior), after);
    if first.None? then None
    else
      match Filled(strict, fields, first.value, before)
      case None => None
      case Some(vals) =>
        if exists i | 0 <= i < |fields| :: fields[i].required && !Keyed(fields, i, after) && !Keyed(fields, i, before) then None
        else Some(Case(index, vals))
  }

  /** What `v`, the value of field `i`, becomes when each member that is for it is read into it
      in turn. */
  function Held(strict: bool, fields: seq<Field>, i: nat, v: Val, members: seq<Member>): Option<Val>
    requires i < |fields|
    decreases members, 0
  {
    if members == [] then Some(v)
    else if !Claims(fields, i, members[0].key) then Held(strict, fields, i, v, members[1..])
    else
      match Means(strict, fields[i].schema, v, members[0].value)
      case None => None
      case Some(u) => Held(strict, fields, i, u, members[1..])
  }

  /** Every field after the members, if each reads and, in the strict reading, every key is a
      field's. */
  function Filled(strict: bool, fields: seq<Field>, vals: seq<Val>, members: seq<Member>): (r: Option<seq<Val>>)
    requires |vals| == |fields|
    ensures r.Some? ==> |r.value| == |fields|
    decreases members, 1
  {
    if strict && exists m | 0 <= m < |members| :: !Claimed(fields, members[m].key) then None
    else if exists i | 0 <= i < |fields| :: Held(strict, fields, i, vals[i], members).None? then None
    else Some(seq(|fields|, i requires 0 <= i < |fields| => Held(strict, fields, i, vals[i], members).value))
  }
}

/** The reader over declared types: `read_object`, `read_internally_tagged` and what the
    generated dispatch calls back into (src/beve/reader.rs). A late tag's earlier members are
    put on a stack and read after the payload's own; each method is proved to read what
    `Typed` says is there, and to leave the stack and the depth as it found them. */
module LateTags {
  import opened Bits
  import opened Wrappers
  import opened Headers
  import opened Wire
  import opened Grammar
  import opened Walks
  import opened Readers
  import T = Typed
  import Trees

  /** Every deferred run belongs to an object that encloses members at `depth`. */
  ghost predicate Below(runs: seq<Deferred>, depth: nat) {
    forall i | 0 <= i < |runs| :: runs[i].depth < depth
  }

  /** The stack while an object's members are being read at `depth`: its own run, if it has
      one, on those of the objects around it. */
  ghost predicate Stacked(runs: seq<Deferred>, under: seq<Deferred>, depth: nat) {
    && Below(under, depth)
    && (runs == under || (|runs| == |under| + 1 && runs[..|under|] == under && runs[|under|].depth == depth))
  }

  /** What is read after the members at the cursor: the object's own run, or nothing. */
  ghost function OwnRun(runs: seq<Deferred>, under: seq<Deferred>, depth: nat, pos: nat): Deferred {
    if |runs| == |under| + 1 then runs[|under|] else Deferred(pos, 0, depth)
  }

  /** A value of a declared type, read into `prior`. */
  method ReadInto(r: Reader, strict: bool, s: T.Schema, prior: T.Val) returns (a: Answer<T.Val>)
    requires r.Valid() && r.implied == None && Below(r.deferred, r.depth + 1)
    modifies r`pos, r`depth, r`implied, r`deferred
    ensures r.Valid() && r.depth == old(r.depth) && r.deferred == old(r.deferred) && r.implied == None
    ensures Agrees(a, r.pos, T.RValue(strict, s, prior, r.data, old(r.pos), old(r.depth)))
    decreases |r.data| - r.pos, 2, 0
  {
    match s {
      case Leaf =>
        var v :- Trees.Read(r);
        return Result.Ok(T.Val.Plain(v));
      case Struct(fields) =>
        a := ReadObject(r, strict, fields, prior);
      case Enum(tag, variants) =>
        a := ReadInternallyTagged(r, strict, tag, variants, prior);
    }
  }

  /** Consume the header and member count of an object with string keys. */
  method TakeObjectHead(r: Reader) returns (a: Answer<nat>)
    requires r.Valid() && r.implied == None
    modifies r`pos, r`implied
    ensures r.Valid() && r.implied == None && Agrees(a, r.pos, T.ObjectHead(r.data, old(r.pos)))
  {
    var h :- r.TakeHead();
    if Ty(h) != TY_OBJECT { return Result.Err(ExpectedObject); }
    if KeyWidth(h).None? { return Result.Err(InvalidHeader); }
    if Sub(h) != CAT_FLOAT { return Result.Err(UnsupportedKeyType); }
    ghost var z;
    a, z := r.Size();
  }

  method ReadObject(r: Reader, strict: bool, fields: seq<T.Field>, prior: T.Val) returns (a: Answer<T.Val>)
    requires r.Valid() && r.implied == None && Below(r.deferred, r.depth + 1)
    modifies r`pos, r`depth, r`implied, r`deferred
    ensures r.Valid() && r.depth == old(r.depth) && r.deferred == old(r.deferred) && r.implied == None
    ensures Agrees(a, r.pos, T.RValue(strict, T.Struct(fields), prior, r.data, old(r.pos), old(r.depth)))
    decreases |r.data| - r.pos, 1, 0
  {
    ghost var under := r.deferred;
    var open := r.pos;
    var members :- TakeObjectHead(r);
    var _ :- r.Enter();
    var vals := ReadObjectRest(r, strict, fields, T.Starting(|fields|, prior), members, open, under);
    return if vals.Ok? then Result.Ok(T.Record(vals.value)) else Result.Err(vals.error);
  }

  /** Read the `remaining` members at the cursor and then the run deferred before them, if
      the object has one, and leave the object. A failure may leave that run stacked, for
      `ReadInternallyTagged` to drop. */
  method ReadObjectRest(r: Reader, strict: bool, fields: seq<T.Field>, vals: seq<T.Val>, remaining: nat, open: nat,
                        ghost under: seq<Deferred>)
      returns (a: Answer<seq<T.Val>>)
    requires r.Valid() && r.implied == None && r.depth > 0 && Stacked(r.deferred, under, r.depth)
    requires |vals| == |fields| && open <= |r.data|
    requires OwnRun(r.deferred, under, r.depth, r.pos).start <= r.pos
    modifies r`pos, r`depth, r`implied, r`deferred
    ensures r.Valid() && r.depth == old(r.depth) - 1 && r.implied == None
    ensures |r.deferred| >= |under| && r.deferred[..|under|] == under
    ensures a.Ok? || old(r.deferred) == under ==> r.deferred == under
    ensures var own := OwnRun(old(r.deferred), under, old(r.depth), old(r.pos));
            Agrees(a, r.pos, T.RRest(strict, fields, vals, r.data, old(r.pos), remaining, own.start, own.count, old(r.depth), open))
    decreases |r.data| - OwnRun(r.deferred, under, r.depth, r.pos).start, 6, 0
  {
    var filled := RestMembers(r, strict, fields, vals, remaining, under);
    r.Leave();
    var f :- filled;
    if exists i | 0 <= i < |fields| :: fields[i].required && i !in f.seen {
      r.pos := open;
      return Result.Err(MissingKey);
    }
    return Result.Ok(f.vals);
  }

  /** `ReadObjectRest` short of leaving the object. */
  method RestMembers(r: Reader, strict: bool, fields: seq<T.Field>, vals: seq<T.Val>, remaining: nat, ghost under: seq<Deferred>)
      returns (a: Answer<T.Filling>)
    requires r.Valid() && r.implied == None && r.depth > 0 && Stacked(r.deferred, under, r.depth) && |vals| == |fields|
    requires OwnRun(r.deferred, under, r.depth, r.pos).start <= r.pos
    modifies r`pos, r`depth, r`implied, r`deferred
    ensures r.Valid() && r.depth == old(r.depth) && r.implied == None
    ensures |r.deferred| >= |under| && r.deferred[..|under|] == under
    ensures a.Ok? || old(r.deferred) == under ==> r.deferred == under
    ensures var own := OwnRun(old(r.deferred), under, old(r.depth), old(r.pos));
            var x := T.RMembers(strict, fields, T.Filling(vals, {}), r.data, old(r.pos), remaining, old(r.depth));
            if x.Err? then Agrees(a, r.pos, x)
            else
              var y := T.RMembers(strict, fields, x.value, r.data, own.start, own.count, old(r.depth));
              if y.Err? then Agrees(a, r.pos, y) else a == Result.Ok(y.value) && r.pos == x.pos
    decreases |r.data| - OwnRun(r.deferred, under, r.depth, r.pos).start, 5, 0
  {
    ghost var own := OwnRun(r.deferred, under, r.depth, r.pos);
    var f :- ObjectMembers(r, strict, fields, T.Filling(vals, {}), remaining);
    var run := TakeDeferred(r, under);
    if run.Some? {
      var resume := r.pos;
      r.pos := run.value.start;
      f :- ObjectMembers(r, strict, fields, f, run.value.count);
      r.pos := resume;
    }
    return Result.Ok(f);
  }

  /** `n` members at the cursor, one after another. */
  method ObjectMembers(r: Reader, strict: bool, fields: seq<T.Field>, f: T.Filling, n: nat) returns (a: Answer<T.Filling>)
    requires r.Valid() && r.implied == None && Below(r.deferred, r.depth + 1) && |f.vals| == |fields|
    modifies r`pos, r`depth, r`implied, r`deferred
    ensures r.Valid() && r.depth == old(r.depth) && r.deferred == old(r.deferred) && r.implied == None
    ensures Agrees(a, r.pos, T.RMembers(strict, fields, f, r.data, old(r.pos), n, old(r.depth)))
    decreases |r.data| - r.pos, 4, 0
  {
    hide T.RMember, WValue;
    ghost var all := T.RMembers(strict, fields, f, r.data, r.pos, n, r.depth);
    var g := f;
    for i := 0 to n
      invariant r.Valid() && r.depth == old(r.depth) && r.deferred == old(r.deferred) && r.implied == None
      invariant r.pos >= old(r.pos) && |g.vals| == |fields|
      invariant all == T.RMembers(strict, fields, g, r.data, r.pos, n - i, r.depth)
    {
      g :- ObjectMember(r, strict, fields, g);
    }
    return Result.Ok(g);
  }

  /** One member: look its key up, let the field confirm it and read the value, and note the
      field as met; or refuse or step over it. */
  method ObjectMember(r: Reader, strict: bool, fields: seq<T.Field>, f: T.Filling) returns (a: Answer<T.Filling>)
    requires r.Valid() && r.implied == None && Below(r.deferred, r.depth + 1) && |f.vals| == |fields|
    modifies r`pos, r`depth, r`implied, r`deferred
    ensures r.Valid() && r.depth == old(r.depth) && r.deferred == old(r.deferred) && r.implied == None
    ensures Agrees(a, r.pos, T.RMember(strict, fields, f, r.data, old(r.pos), old(r.depth)))
    decreases |r.data| - r.pos, 3, 0
  {
    ghost var z;
    var n;
    n, z := r.Size();
    if n.Err? { return Result.Err(n.error); }
    var at := r.pos;
    var key :- r.TakeBytes(n.value);
    var i := T.IndexOf(T.FieldNames(fields), key);
    if i.Some? {
      var v :- ReadInto(r, strict, fields[i.value].schema, f.vals[i.value]);
      return Result.Ok(T.Filling(f.vals[i.value := v], f.seen + {i.value}));
    }
    if strict {
      r.pos := at;
      return Result.Err(UnknownKey);
    }
    var _ :- r.SkipValue();
    return Result.Ok(f);
  }

  /** The deferred run, if it is this object's to read: the top of the stack, when its depth
      is the object's own. */
  method TakeDeferred(r: Reader, ghost under: seq<Deferred>) returns (run: Option<Deferred>)
    requires Stacked(r.deferred, under, r.depth)
    modifies r`deferred
    ensures r.deferred == under
    ensures run == if old(r.deferred) == under then None else Some(old(r.deferred)[|under|])
  {
    if |r.deferred| > 0 && r.deferred[|r.deferred| - 1].depth == r.depth {
      run := Some(r.deferred[|r.deferred| - 1]);
      r.deferred := r.deferred[..|r.deferred| - 1];
    } else {
      run := None;
    }
  }

  /** Consume the rest of an object whose variant carries nothing. */
  method FinishInternallyTagged(r: Reader, strict: bool, remaining: nat, ghost under: seq<Deferred>, ghost open: nat)
      returns (a: Answer<()>)
    requires r.Valid() && r.implied == None && r.depth > 0 && Stacked(r.deferred, under, r.depth)
    requires OwnRun(r.deferred, under, r.depth, r.pos).start <= r.pos
    modifies r`pos, r`depth, r`implied, r`deferred
    ensures r.Valid() && r.depth == old(r.depth) - 1 && r.implied == None
    ensures |r.deferred| >= |under| && r.deferred[..|under|] == under
    ensures a.Ok? ==> r.deferred == under
    ensures var own := OwnRun(old(r.deferred), under, old(r.depth), old(r.pos));
            Ends(a, r.pos, T.RRest(strict, [], [], r.data, old(r.pos), remaining, own.start, own.count, old(r.depth), open))
  {
    var result := UnknownMembers(r, strict, remaining);
    if result.Ok? {
      var run := TakeDeferred(r, under);
      if run.Some? {
        var resume := r.pos;
        r.pos := run.value.start;
        result := UnknownMembers(r, strict, run.value.count);
        if result.Ok? { r.pos := resume; }
      }
    }
    r.Leave();
    return result;
  }

  /** Step over members no field claims, or refuse the first. */
  method UnknownMembers(r: Reader, strict: bool, n: nat) returns (a: Answer<()>)
    requires r.Valid() && r.implied == None
    modifies r`pos, r`depth, r`implied
    ensures r.Valid() && r.depth == old(r.depth) && r.implied == None
    ensures Ends(a, r.pos, T.RMembers(strict, [], T.Filling([], {}), r.data, old(r.pos), n, old(r.depth)))
    ensures var x := T.RMembers(strict, [], T.Filling([], {}), r.data, old(r.pos), n, old(r.depth));
            x.Ok? ==> x.value == T.Filling([], {})
  {
    hide WValue, T.RMember;
    ghost var f := T.Filling([], {});
    ghost var all := T.RMembers(strict, [], f, r.data, r.pos, n, r.depth);
    for i := 0 to n
      invariant r.Valid() && r.depth == old(r.depth) && r.implied == None
      invariant all == T.RMembers(strict, [], f, r.data, r.pos, n - i, r.depth)
    {
      var _ :- UnknownMember(r, strict);
    }
    return Result.Ok(());
  }

  method UnknownMember(r: Reader, strict: bool) returns (a: Answer<()>)
    requires r.Valid() && r.implied == None
    modifies r`pos, r`depth, r`implied
    ensures r.Valid() && r.depth == old(r.depth) && r.implied == None
    ensures Ends(a, r.pos, T.RMember(strict, [], T.Filling([], {}), r.data, old(r.pos), old(r.depth)))
    ensures var x := T.RMember(strict, [], T.Filling([], {}), r.data, old(r.pos), old(r.depth));
            x.Ok? ==> x.value == T.Filling([], {})
  {
    hide WValue, T.RValue;
    ghost var z;
    var len;
    len, z := r.Size();
    if len.Err? { return Result.Err(len.error); }
    var at := r.pos;
    var key :- r.TakeBytes(len.value);
    if strict {
      r.pos := at;
      return Result.Err(UnknownKey);
    }
    a := r.SkipValue();
  }

  /** An object whose tag names the variant its other members are the payload of. */
  method ReadInternallyTagged(r: Reader, strict: bool, tag: Bytes, variants: seq<T.Variant>, prior: T.Val) returns (a: Answer<T.Val>)
    requires r.Valid() && r.implied == None && Below(r.deferred, r.depth + 1)
    modifies r`pos, r`depth, r`implied, r`deferred
    ensures r.Valid() && r.depth == old(r.depth) && r.deferred == old(r.deferred) && r.implied == None
    ensures Agrees(a, r.pos, T.RTagged(strict, tag, variants, prior, r.data, old(r.pos), old(r.depth)))
    decreases |r.data| - r.pos, 1, 0
  {
    var open := r.pos;
    var members :- TakeObjectHead(r);
    if members == 0 {
      r.pos := open;
      return Result.Err(ExpectedTag);
    }
    var depth := r.depth;
    var runs := |r.deferred|;
    ghost var under := r.deferred;
    a := TaggedObject(r, strict, tag, variants, prior, members, open);
    if a.Err? {
      r.depth := depth;
      r.deferred := r.deferred[..runs];
    }
  }

  /** `ReadInternallyTagged` past the object's header and count. */
  method TaggedObject(r: Reader, strict: bool, tag: Bytes, variants: seq<T.Variant>, prior: T.Val, members: nat, open: nat)
      returns (a: Answer<T.Val>)
    requires r.Valid() && r.implied == None && Below(r.deferred, r.depth + 1)
    requires open < r.pos && T.ObjectHead(r.data, open) == Out.Ok(members, r.pos) && members > 0
    modifies r`pos, r`depth, r`implied, r`deferred
    ensures r.Valid() && r.implied == None
    ensures a.Ok? ==> r.depth == old(r.depth) && r.deferred == old(r.deferred)
    ensures |r.deferred| >= |old(r.deferred)| && r.deferred[..|old(r.deferred)|] == old(r.deferred)
    ensures Agrees(a, r.pos, T.RTagged(strict, tag, variants, prior, r.data, open, old(r.depth)))
    decreases |r.data| - r.pos, 8, 0
  {
    hide T.RRest, T.FindTag, T.ObjectHead, T.TagName, T.IndexOf, T.RMembers, T.StartingCase, T.RValue, WValue, WText;
    ghost var under := r.deferred;
    var _ :- r.Enter();
    var first := r.pos;
    var before :- SeekTag(r, tag, members);
    var at := r.pos;
    var name :- TagValue(r, first);
    NothingBefore(strict, variants, r.data, r.pos, members - 1 - before, first, r.depth, open);
    a := ReadVariant(r, strict, variants, prior, name, at, members - 1 - before, open, under);
  }

  /** The generated arm: the variant `name` names, and the object's remaining members as its
      payload. */
  method ReadVariant(r: Reader, strict: bool, variants: seq<T.Variant>, prior: T.Val, name: Bytes, at: nat, after: nat, open: nat,
                     ghost under: seq<Deferred>)
      returns (a: Answer<T.Val>)
    requires r.Valid() && r.implied == None && r.depth > 0 && Stacked(r.deferred, under, r.depth)
    requires at <= |r.data| && open <= |r.data| && OwnRun(r.deferred, under, r.depth, r.pos).start <= r.pos
    modifies r`pos, r`depth, r`implied, r`deferred
    ensures r.Valid() && r.implied == None
    ensures a.Ok? ==> r.depth == old(r.depth) - 1 && r.deferred == under
    ensures |r.deferred| >= |under| && r.deferred[..|under|] == under
    ensures var i := T.IndexOf(T.VariantNames(variants), name);
            if i.None? then a == Result.Err(UnknownVariant) && r.pos == at
            else
              var own := OwnRun(old(r.deferred), under, old(r.depth), old(r.pos));
              var fields := variants[i.value].payload;
              var o := T.RRest(strict, fields, T.StartingCase(i.value, |fields|, prior), r.data, old(r.pos), after, own.start, own.count,
                               old(r.depth), open);
              Ends(a, r.pos, o) && (o.Ok? ==> a == Result.Ok(T.Case(i.value, o.value)))
    decreases |r.data| - OwnRun(r.deferred, under, r.depth, r.pos).start, 7, 0
  {
    hide T.RRest, T.IndexOf;
    var i := T.IndexOf(T.VariantNames(variants), name);
    if i.None? {
      r.pos := at;
      return Result.Err(UnknownVariant);
    }
    var fields := variants[i.value].payload;
    if fields == [] {
      assert T.StartingCase(i.value, 0, prior) == [];
      var _ :- FinishInternallyTagged(r, strict, after, under, open);
      return Result.Ok(T.Case(i.value, []));
    }
    var vals :- ReadObjectRest(r, strict, fields, T.StartingCase(i.value, |fields|, prior), after, open, under);
    return Result.Ok(T.Case(i.value, vals));
  }

  /** With nothing deferred, where a deferred run would have been does not matter. */
  lemma NothingBefore(strict: bool, variants: seq<T.Variant>, d: Bytes, p: nat, n: nat, q: nat, depth: nat, open: nat)
    requires q <= p <= |d|
    ensures forall i, vals: seq<T.Val> | 0 <= i < |variants| && |vals| == |variants[i].payload| ::
              T.RRest(strict, variants[i].payload, vals, d, p, n, q, 0, depth, open)
              == T.RRest(strict, variants[i].payload, vals, d, p, n, p, 0, depth, open)
  {
  }

  /** Find the tag, stepping over the members before it and stacking them to be read later if
      there are any, and stop on its value. */
  method SeekTag(r: Reader, tag: Bytes, members: nat) returns (a: Answer<nat>)
    requires r.Valid() && r.implied == None && members > 0 && Below(r.deferred, r.depth)
    modifies r`pos, r`depth, r`implied, r`deferred
    ensures r.Valid() && r.depth == old(r.depth) && r.implied == None
    ensures Agrees(a, r.pos, T.FindTag(tag, r.data, old(r.pos), members, old(r.depth), old(r.pos)))
    ensures r.deferred == old(r.deferred)
            || (a.Ok? && r.deferred == old(r.deferred) + [Deferred(old(r.pos), a.value, old(r.depth))])
    ensures a.Ok? && r.deferred == old(r.deferred) ==> a.value == 0
  {
    hide WValue, T.KeyAt;
    var first := r.pos;
    ghost var all := T.FindTag(tag, r.data, first, members, r.depth, first);
    var key :- NameHere(r);
    if key == tag { return Result.Ok(0); }
    r.pos := first;
    var before := 0;
    while true
      invariant r.Valid() && r.depth == old(r.depth) && r.implied == None && r.deferred == old(r.deferred)
      invariant before <= members
      invariant var rest := T.FindTag(tag, r.data, r.pos, members - before, r.depth, first);
                all == if rest.Ok? then Out.Ok(rest.value + before, rest.pos) else rest
      decreases members - before
    {
      if before == members {
        r.pos := first;
        return Result.Err(ExpectedTag);
      }
      key :- NameHere(r);
      if key == tag { break; }
      var _ :- r.SkipValue();
      before := before + 1;
    }
    r.deferred := r.deferred + [Deferred(first, before, r.depth)];
    return Result.Ok(before);
  }

  /** A member's name, its size before it. */
  method NameHere(r: Reader) returns (a: Answer<Bytes>)
    requires r.Valid()
    modifies r`pos
    ensures r.Valid() && Ends(a, r.pos, T.KeyAt(r.data, old(r.pos)))
    ensures a.Ok? ==> a.value == T.KeyAt(r.data, old(r.pos)).value.0
  {
    ghost var z;
    var n;
    n, z := r.Size();
    if n.Err? { return Result.Err(n.error); }
    a := r.TakeBytes(n.value);
  }

  /** The tag's value: a string, or nothing that names a variant. */
  method TagValue(r: Reader, first: nat) returns (a: Answer<Bytes>)
    requires r.Valid() && r.implied == None && first <= |r.data|
    modifies r`pos, r`implied
    ensures r.Valid() && r.implied == None && Agrees(a, r.pos, T.TagName(r.data, old(r.pos), first))
  {
    var h :- r.TakeHead();
    if Ty(h) != TY_STRING {
      r.pos := first;
      return Result.Err(ExpectedTag);
    }
    if !BareHeader(h) { return Result.Err(InvalidHeader); }
    ghost var z;
    var n;
    n, z := r.Size();
    if n.Err? { return Result.Err(n.error); }
    var text :- r.TakeBytes(n.value);
    if !ValidUtf8(text) { return Result.Err(InvalidUtf8); }
    return Result.Ok(text);
  }
}

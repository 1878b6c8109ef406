/** The BEVE input cursor: `Reader` of src/beve/reader.rs, its primitives and the two walks
    that step over a value. Each method is proved to answer what the walk it is part of
    answers, cursor included, and to leave every other piece of state as it found it. */
module Readers {
  import opened Bits
  import opened Wrappers
  import opened Headers
  import opened Wire
  import opened Grammar
  import opened Walks

  type Answer<+T> = Result<T, ErrorCode>

  /** A method's answer and the cursor it leaves are those of `o`. */
  ghost predicate Agrees<T>(r: Answer<T>, pos: nat, o: Out<T>) {
    match o
    case Ok(v, e) => r == Result.Ok(v) && pos == e
    case Err(c, e) => r == Result.Err(c) && pos == e
  }

  /** The same, for a method that keeps nothing of what it walks. */
  ghost predicate Ends<S, T>(r: Answer<S>, pos: nat, o: Out<T>) {
    match o
    case Ok(_, e) => r.Ok? && pos == e
    case Err(c, e) => r == Result.Err(c) && pos == e
  }

  /** Two walks that come to the same end. */
  ghost predicate SameEnd<S, T>(a: Out<S>, b: Out<T>) {
    a.Ok? == b.Ok? && a.pos == b.pos && (a.Err? ==> b.Err? && a.code == b.code)
  }

  /** A walk from `p` with the header `implied` installed, or none. A header of the undefined
      type stands for a complex element's two components, but only when installed. */
  ghost predicate Stepped(r: Answer<()>, pos: nat, m: Mode, d: Bytes, p: nat, implied: Option<u8>, depth: nat)
    requires p <= |d|
  {
    match implied
    case None => Ends(r, pos, WValue(m, d, p, depth))
    case Some(h) =>
      if Ty(h) != TY_UNDEFINED then Ends(r, pos, WBody(m, d, p, h, depth))
      else
        match ElementWidth(h)
        case None => r == Result.Err(InvalidHeader) && pos == p
        case Some(w) => Ends(r, pos, Take(d, p, w))
  }

  function ModeOf(utf8: bool): Mode {
    if utf8 then Validate else Skip
  }

  /** Members before a late tag, to be read after the ones past it. */
  datatype Deferred = Deferred(start: nat, count: nat, depth: nat)

  class Reader {
    const data: Bytes
    var pos: nat
    var depth: nat
    /** The header the next value must be read with, when it carries none of its own. */
    var implied: Option<u8>
    /** Where the value `implied` was installed for begins, and that header. */
    var installed: Option<(nat, u8)>
    var deferred: seq<Deferred>

    ghost predicate Valid()
      reads this
    {
      pos <= |data| && depth <= MAX_DEPTH
    }

    constructor (data: Bytes)
      ensures Valid() && this.data == data && pos == 0 && depth == 0
      ensures implied == None && installed == None && deferred == []
    {
      this.data := data;
      pos := 0;
      depth := 0;
      implied := None;
      installed := None;
      deferred := [];
    }

    /** Move the cursor back, putting back the header of the element it was installed for
        if that is where it lands and taking it away if not. */
    method Rewind(to: nat)
      requires Valid()
      modifies `pos, `implied, `installed
      ensures Valid()
      ensures to > old(pos) ==> pos == old(pos) && implied == old(implied) && installed == old(installed)
      ensures to <= old(pos) ==> pos == to
      ensures to <= old(pos) && old(installed).Some? && old(installed).value.0 == to ==>
                installed == old(installed) && implied == Some(old(installed).value.1)
      ensures to <= old(pos) && (old(installed).None? || old(installed).value.0 != to) ==>
                installed == None && implied == None
    {
      if to > pos { return; }
      pos := to;
      if installed.Some? && installed.value.0 != to {
        installed := None;
      }
      implied := if installed.Some? then Some(installed.value.1) else None;
    }

    /** Make `h` the header of the value at the cursor, which carries none of its own. */
    method Install(h: u8)
      requires Valid()
      modifies `implied, `installed
      ensures Valid() && implied == Some(h) && installed == Some((pos, h))
    {
      implied := Some(h);
      installed := Some((pos, h));
    }

    // -------------------------------------------------------------------
    // Primitives
    // -------------------------------------------------------------------

    method TakeHead() returns (r: Answer<u8>)
      requires Valid()
      modifies `pos, `implied
      ensures Valid() && implied == None
      ensures old(implied).Some? ==> r == Result.Ok(old(implied).value) && pos == old(pos)
      ensures old(implied).None? ==> Agrees(r, pos, Head(data, old(pos)))
    {
      if implied.Some? {
        r := Result.Ok(implied.value);
        implied := None;
        return;
      }
      if pos >= |data| { return Result.Err(UnexpectedEnd); }
      r := Result.Ok(data[pos]);
      pos := pos + 1;
    }

    method TakeBytes(n: nat) returns (r: Answer<Bytes>)
      requires Valid()
      modifies `pos
      ensures Valid() && Agrees(r, pos, Take(data, old(pos), n))
    {
      var end := pos + n;
      if end > |data| { return Result.Err(UnexpectedEnd); }
      r := Result.Ok(data[pos..end]);
      pos := end;
    }

    /** Read a compressed size. `field` is the bytes it was read from. */
    method Size() returns (r: Answer<u64>, ghost field: Bytes)
      requires Valid()
      modifies `pos
      ensures Valid() && Ends(r, pos, SizeField(data, old(pos)))
      ensures r.Ok? ==> field == SizeField(data, old(pos)).value && r.value == SizeValue(field)
    {
      field := [];
      var end;
      r, end := DecodeSize(data, pos);
      if r.Ok? {
        field := SizeFieldAt(data, pos);
        pos := end;
      }
    }

    method Enter() returns (r: Answer<()>)
      requires Valid()
      modifies `depth
      ensures Valid()
      ensures old(depth) < MAX_DEPTH ==> r == Result.Ok(()) && depth == old(depth) + 1
      ensures old(depth) >= MAX_DEPTH ==> r == Result.Err(ExceededMaxDepth) && depth == old(depth)
    {
      if depth >= MAX_DEPTH { return Result.Err(ExceededMaxDepth); }
      depth := depth + 1;
      return Result.Ok(());
    }

    method Leave()
      requires Valid() && depth > 0
      modifies `depth
      ensures Valid() && depth == old(depth) - 1
    {
      depth := depth - 1;
    }

    method SkipPadding(width: nat) returns (r: Answer<Bytes>)
      requires Valid()
      modifies `pos
      ensures Valid() && Agrees(r, pos, Padding(data, old(pos), width))
    {
      var one :- TakeBytes(1);
      if !AlignedPaddingOk(one[0], width) { return Result.Err(InvalidPadding); }
      r := TakeBytes(one[0]);
    }

    /** Consume an aligned typed array's preamble and report its element header and count. */
    method TakeAlignedHead() returns (r: Answer<(u8, nat)>)
      requires Valid() && implied == None
      modifies `pos, `implied
      ensures Valid() && implied == None && Ends(r, pos, AlignedHead(data, old(pos)))
      ensures r.Ok? ==> var a := AlignedHead(data, old(pos)).value; r.value == (a.0, SizeValue(a.1))
    {
      var inner :- TakeHead();
      if Ty(inner) != TY_TYPED_ARRAY || Sub(inner) == CAT_OTHER { return Result.Err(InvalidHeader); }
      if FixedWidth(inner).None? { return Result.Err(InvalidHeader); }
      ghost var z;
      var n;
      n, z := Size();
      if n.Err? { return Result.Err(n.error); }
      var _ :- SkipPadding(FixedWidth(inner).value);
      return Result.Ok((inner, n.value));
    }

    method TakeAlignedPairs(class_: u8, width: nat) returns (r: Answer<nat>)
      requires Valid() && implied == None
      modifies `pos, `implied
      ensures Valid() && implied == None && Ends(r, pos, AlignedPairs(data, old(pos), class_, width))
      ensures r.Ok? ==> r.value == SizeValue(AlignedPairs(data, old(pos), class_, width).value.0) / 2
    {
      var outer :- TakeHead();
      if outer != ALIGNED_ARRAY { return Result.Err(InvalidHeader); }
      var inner :- TakeHead();
      if inner != ComplexComponents(class_) { return Result.Err(InvalidHeader); }
      ghost var z;
      var components;
      components, z := Size();
      if components.Err? { return Result.Err(components.error); }
      if components.value % 2 != 0 { return Result.Err(InvalidHeader); }
      var _ :- SkipPadding(width);
      return Result.Ok(components.value / 2);
    }

    /** Consume a typed array's preamble and report which form it is. */
    method TakePreamble(h: u8) returns (r: Answer<Typed>)
      requires Valid() && implied == None
      modifies `pos, `implied
      ensures Valid() && implied == None && Ends(r, pos, Preamble(data, old(pos), h))
      ensures r.Ok? ==> r.value == TypedOf(Preamble(data, old(pos), h).value)
    {
      ghost var z;
      var n;
      if Sub(h) == CAT_OTHER {
        if CountOf(h) == OTHER_BOOL {
          n, z := Size();
          return if n.Ok? then Result.Ok(Typed.Bools(n.value)) else Result.Err(n.error);
        } else if CountOf(h) == OTHER_STRING {
          n, z := Size();
          return if n.Ok? then Result.Ok(Typed.Strings(n.value)) else Result.Err(n.error);
        } else if CountOf(h) == OTHER_ALIGNED {
          var a :- TakeAlignedHead();
          return Result.Ok(Typed.Fixed(a.0, a.1));
        }
        return Result.Err(InvalidHeader);
      }
      if FixedWidth(h).None? { return Result.Err(InvalidHeader); }
      n, z := Size();
      return if n.Ok? then Result.Ok(Typed.Fixed(h, n.value)) else Result.Err(n.error);
    }

    /** `TakePreamble`, with a packed-boolean payload also confirmed present and its padding
        checked. */
    method TakeTypedHead(h: u8) returns (r: Answer<Typed>)
      requires Valid() && implied == None
      modifies `pos, `implied
      ensures Valid() && implied == None && Ends(r, pos, TypedHead(data, old(pos), h))
      ensures r.Ok? ==> r.value == TypedOf(TypedHead(data, old(pos), h).value)
    {
      var form :- TakePreamble(h);
      if form.Bools? {
        var bytes := DivCeil8(form.n);
        if pos + bytes > |data| { return Result.Err(UnexpectedEnd); }
        if bytes > 0 && !BoolPaddingOk(form.n, data[pos + bytes - 1]) {
          pos := pos + bytes;
          return Result.Err(InvalidPadding);
        }
      }
      return Result.Ok(form);
    }

    /** Consume a complex value's class header and all before its payload: the class, the
        width of a component, and how many pairs a run holds. */
    method TakeComplexHead() returns (r: Answer<(u8, nat, Option<nat>)>)
      requires Valid() && implied == None
      modifies `pos, `implied
      ensures Valid() && implied == None && Ends(r, pos, ComplexHead(data, old(pos)))
      ensures r.Ok? ==> var pre := ComplexHead(data, old(pos)).value;
                        r.value == (pre.class_, FixedWidth(pre.class_).value, if pre.One? then None else Some(pre.Pairs()))
    {
      var class_ :- TakeHead();
      if FixedWidth(class_).None? { return Result.Err(InvalidHeader); }
      var width := FixedWidth(class_).value;
      if Ty(class_) == COMPLEX_ONE {
        return Result.Ok((class_, width, None));
      } else if Ty(class_) == COMPLEX_MANY {
        ghost var z;
        var n;
        n, z := Size();
        return if n.Ok? then Result.Ok((class_, width, Some(n.value))) else Result.Err(n.error);
      } else if Ty(class_) == COMPLEX_ALIGNED {
        var pairs :- TakeAlignedPairs(class_, width);
        return Result.Ok((class_, width, Some(pairs)));
      }
      return Result.Err(InvalidHeader);
    }

    // -------------------------------------------------------------------
    // Skipping and validating
    // -------------------------------------------------------------------

    method SkipValue() returns (r: Answer<()>)
      requires Valid()
      modifies `pos, `depth, `implied
      ensures Valid() && depth == old(depth) && implied == None
      ensures Stepped(r, pos, Skip, data, old(pos), old(implied), old(depth))
    {
      r := Step(false);
    }

    method ValidateValue() returns (r: Answer<()>)
      requires Valid()
      modifies `pos, `depth, `implied
      ensures Valid() && depth == old(depth) && implied == None
      ensures Stepped(r, pos, Validate, data, old(pos), old(implied), old(depth))
    {
      r := Step(true);
    }

    /** The walk both of the above are. */
    method Step(utf8: bool) returns (r: Answer<()>)
      requires Valid()
      modifies `pos, `depth, `implied
      ensures Valid() && depth == old(depth) && implied == None
      ensures Stepped(r, pos, ModeOf(utf8), data, old(pos), old(implied), old(depth))
      decreases |data| - pos, 2, 0
    {
      var given := implied.Some?;
      var h :- TakeHead();
      if given && Ty(h) == TY_UNDEFINED {
        if ElementWidth(h).None? { return Result.Err(InvalidHeader); }
        var _ :- TakeBytes(ElementWidth(h).value);
        return Result.Ok(());
      }
      r := SkipBody(h, utf8);
    }

    method SkipBody(h: u8, utf8: bool) returns (r: Answer<()>)
      requires Valid() && implied == None
      modifies `pos, `depth, `implied
      ensures Valid() && depth == old(depth) && implied == None
      ensures Ends(r, pos, WBody(ModeOf(utf8), data, old(pos), h, old(depth)))
      decreases |data| - pos, 1, 0
    {
      if Ty(h) == TY_NULL_BOOL {
        return if h == NULL || h == FALSE || h == TRUE then Result.Ok(()) else Result.Err(InvalidHeader);
      } else if Ty(h) == TY_NUMBER {
        if FixedWidth(h).None? { return Result.Err(InvalidHeader); }
        var _ :- TakeBytes(FixedWidth(h).value);
        return Result.Ok(());
      } else if Ty(h) == TY_STRING {
        if !BareHeader(h) { return Result.Err(InvalidHeader); }
        r := SkipStr(utf8);
      } else if Ty(h) == TY_OBJECT {
        r := SkipObject(h, utf8);
      } else if Ty(h) == TY_GENERIC_ARRAY {
        if !BareHeader(h) { return Result.Err(InvalidHeader); }
        r := SkipArray(utf8);
      } else if Ty(h) == TY_TYPED_ARRAY {
        var _ :- Enter();
        r := SkipTyped(h, utf8);
        Leave();
      } else if Ty(h) == TY_EXTENSION {
        r := SkipExtension(h, utf8);
      } else {
        return Result.Err(InvalidHeader);
      }
    }

    method SkipStr(utf8: bool) returns (r: Answer<()>)
      requires Valid()
      modifies `pos
      ensures Valid() && Ends(r, pos, WText(ModeOf(utf8), data, old(pos)))
    {
      ghost var z;
      var n;
      n, z := Size();
      if n.Err? { return Result.Err(n.error); }
      var bytes :- TakeBytes(n.value);
      if utf8 && !ValidUtf8(bytes) { return Result.Err(InvalidUtf8); }
      return Result.Ok(());
    }

    method SkipObject(h: u8, utf8: bool) returns (r: Answer<()>)
      requires Valid() && implied == None
      modifies `pos, `depth, `implied
      ensures Valid() && depth == old(depth) && implied == None
      ensures Ends(r, pos, WObject(ModeOf(utf8), data, old(pos), h, old(depth)))
      decreases |data| - pos, 0, 0
    {
      hide WMembers, SizeField, SizeValue, KeyWidth;
      if KeyWidth(h).None? { return Result.Err(InvalidHeader); }
      ghost var z;
      var members;
      members, z := Size();
      if members.Err? { return Result.Err(members.error); }
      var _ :- Enter();
      r := SkipMembers(h, members.value, utf8);
      Leave();
    }

    method SkipMembers(h: u8, members: nat, utf8: bool) returns (r: Answer<()>)
      requires Valid() && implied == None && KeyWidth(h).Some?
      modifies `pos, `depth, `implied
      ensures Valid() && depth == old(depth) && implied == None
      ensures Ends(r, pos, WMembers(ModeOf(utf8), data, old(pos), h, members, old(depth)))
      decreases |data| - pos, 3, 0
    {
      hide WKey, WValue, KeyWidth;
      ghost var all := WMembers(ModeOf(utf8), data, pos, h, members, depth);
      for i := 0 to members
        invariant Valid() && depth == old(depth) && implied == None && pos >= old(pos)
        invariant SameEnd(all, WMembers(ModeOf(utf8), data, pos, h, members - i, depth))
      {
        var _ :- SkipKey(h, utf8);
        var _ :- Step(utf8);
      }
      return Result.Ok(());
    }

    method SkipKey(h: u8, utf8: bool) returns (r: Answer<()>)
      requires Valid() && KeyWidth(h).Some?
      modifies `pos
      ensures Valid() && Ends(r, pos, WKey(ModeOf(utf8), data, old(pos), h))
    {
      if Sub(h) == CAT_FLOAT {
        r := SkipStr(utf8);
      } else {
        var _ :- TakeBytes(KeyWidth(h).value);
        return Result.Ok(());
      }
    }

    method SkipArray(utf8: bool) returns (r: Answer<()>)
      requires Valid() && implied == None
      modifies `pos, `depth, `implied
      ensures Valid() && depth == old(depth) && implied == None
      ensures Ends(r, pos, WArray(ModeOf(utf8), data, old(pos), old(depth)))
      decreases |data| - pos, 0, 0
    {
      ghost var z;
      var n;
      n, z := Size();
      if n.Err? { return Result.Err(n.error); }
      var _ :- Enter();
      r := SkipItems(n.value, utf8);
      Leave();
    }

    method SkipItems(n: nat, utf8: bool) returns (r: Answer<()>)
      requires Valid() && implied == None
      modifies `pos, `depth, `implied
      ensures Valid() && depth == old(depth) && implied == None
      ensures Ends(r, pos, WValues(ModeOf(utf8), data, old(pos), n, old(depth)))
      decreases |data| - pos, 3, 0
    {
      ghost var all := WValues(ModeOf(utf8), data, pos, n, depth);
      for i := 0 to n
        invariant Valid() && depth == old(depth) && implied == None && pos >= old(pos)
        invariant SameEnd(all, WValues(ModeOf(utf8), data, pos, n - i, depth))
      {
        var _ :- Step(utf8);
      }
      return Result.Ok(());
    }

    method SkipTyped(h: u8, utf8: bool) returns (r: Answer<()>)
      requires Valid() && implied == None
      modifies `pos, `implied
      ensures Valid() && implied == None
      ensures Ends(r, pos, WTyped(ModeOf(utf8), data, old(pos), h))
    {
      var form :- TakeTypedHead(h);
      match form {
        case Bools(n) =>
          var _ :- TakeBytes(DivCeil8(n));
          return Result.Ok(());
        case Strings(n) =>
          r := SkipStrings(n, utf8);
        case Fixed(elem, n) =>
          var total := CheckedMul(n, FixedWidth(elem).value);
          if total.None? { return Result.Err(UnexpectedEnd); }
          var _ :- TakeBytes(total.value);
          return Result.Ok(());
      }
    }

    method SkipStrings(n: nat, utf8: bool) returns (r: Answer<()>)
      requires Valid()
      modifies `pos
      ensures Valid() && Ends(r, pos, WTexts(ModeOf(utf8), data, old(pos), n))
    {
      ghost var all := WTexts(ModeOf(utf8), data, pos, n);
      for i := 0 to n
        invariant Valid()
        invariant SameEnd(all, WTexts(ModeOf(utf8), data, pos, n - i))
      {
        var _ :- SkipStr(utf8);
      }
      return Result.Ok(());
    }

    method SkipTagged(utf8: bool) returns (r: Answer<()>)
      requires Valid() && implied == None
      modifies `pos, `depth, `implied
      ensures Valid() && depth == old(depth) && implied == None
      ensures Ends(r, pos, WTagged(ModeOf(utf8), data, old(pos), old(depth)))
      decreases |data| - pos, 0, 0
    {
      ghost var z;
      var index;
      index, z := Size();
      if index.Err? { return Result.Err(index.error); }
      var _ :- Enter();
      r := Step(utf8);
      Leave();
    }

    method SkipMatrix(utf8: bool) returns (r: Answer<()>)
      requires Valid() && implied == None
      modifies `pos, `depth, `implied
      ensures Valid() && depth == old(depth) && implied == None
      ensures Ends(r, pos, WMatrix(ModeOf(utf8), data, old(pos), old(depth)))
      decreases |data| - pos, 0, 0
    {
      var _ :- TakeBytes(1);
      var _ :- Enter();
      r := Step(utf8);
      if r.Ok? { r := Step(utf8); }
      Leave();
    }

    method SkipExtension(h: u8, utf8: bool) returns (r: Answer<()>)
      requires Valid() && implied == None
      modifies `pos, `depth, `implied
      ensures Valid() && depth == old(depth) && implied == None
      ensures Ends(r, pos, WExtension(ModeOf(utf8), data, old(pos), h, old(depth)))
      decreases |data| - pos, 0, 1
    {
      if ExtId(h) == EXT_DELIMITER {
        return Result.Err(InvalidHeader);
      } else if ExtId(h) == EXT_TYPE_TAG {
        r := SkipTagged(utf8);
      } else if ExtId(h) == EXT_MATRIX {
        r := SkipMatrix(utf8);
      } else if ExtId(h) == EXT_COMPLEX {
        var head :- TakeComplexHead();
        var total := CheckedMul(if head.2.Some? then head.2.value else 1, 2 * head.1);
        if total.None? { return Result.Err(UnexpectedEnd); }
        var _ :- TakeBytes(total.value);
        return Result.Ok(());
      } else {
        return Result.Err(UnsupportedFeature);
      }
    }
  }

  /** Which of the three shapes a typed array's payload has, its preamble consumed. */
  datatype Typed = Bools(n: nat) | Strings(n: nat) | Fixed(h: u8, n: nat)

  function TypedOf(form: TypedPreamble): Typed
    requires form.z != []
  {
    match form
    case Bools(_) => Typed.Bools(form.Count())
    case Strings(_) => Typed.Strings(form.Count())
    case Plain(h, _) => Typed.Fixed(h, form.Count())
    case Aligned(h, _, _) => Typed.Fixed(h, form.Count())
  }
}

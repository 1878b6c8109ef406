/** The transcoding walk of src/transcode.rs: which values it takes, which it refuses and
    where, and what depth it costs. The text it writes is not modelled. */
module Transcoder {
  import opened Bits
  import opened Wrappers
  import opened Headers
  import opened Wire
  import opened Grammar
  import opened Walks
  import opened Readers

  method Value(r: Reader) returns (a: Answer<()>)
    requires r.Valid() && r.implied == None
    modifies r`pos, r`depth, r`implied
    ensures r.Valid() && r.depth == old(r.depth) && r.implied == None
    ensures Ends(a, r.pos, WValue(Transcode, r.data, old(r.pos), old(r.depth)))
    decreases |r.data| - r.pos, 2, 0
  {
    var h :- r.TakeHead();
    a := Body(r, h);
  }

  method Body(r: Reader, h: u8) returns (a: Answer<()>)
    requires r.Valid() && r.implied == None
    modifies r`pos, r`depth, r`implied
    ensures r.Valid() && r.depth == old(r.depth) && r.implied == None
    ensures Ends(a, r.pos, WBody(Transcode, r.data, old(r.pos), h, old(r.depth)))
    decreases |r.data| - r.pos, 1, 0
  {
    if Ty(h) == TY_NULL_BOOL {
      return if h == NULL || h == FALSE || h == TRUE then Result.Ok(()) else Result.Err(InvalidHeader);
    } else if Ty(h) == TY_NUMBER {
      var width :- DecodableWidth(h);
      var _ :- r.TakeBytes(width);
      return Result.Ok(());
    } else if Ty(h) == TY_STRING {
      if !BareHeader(h) { return Result.Err(InvalidHeader); }
      var _ :- StrBody(r);
      return Result.Ok(());
    } else if Ty(h) == TY_OBJECT {
      a := Object(r, h);
    } else if Ty(h) == TY_TYPED_ARRAY {
      var _ :- r.Enter();
      a := TypedArray(r, h);
      r.Leave();
    } else if Ty(h) == TY_GENERIC_ARRAY {
      if !BareHeader(h) { return Result.Err(InvalidHeader); }
      a := GenericArray(r);
    } else if Ty(h) == TY_EXTENSION {
      a := Extension(r, h);
    } else {
      return Result.Err(InvalidHeader);
    }
  }

  /** The width of a number that is to be decoded rather than stepped over. */
  function DecodableWidth(h: u8): Answer<nat> {
    if FixedWidth(h).None? then Result.Err(InvalidHeader)
    else if IsFloat128(h) then Result.Err(UnsupportedFeature)
    else Result.Ok(FixedWidth(h).value)
  }

  /** The `SIZE | DATA` half of a string, which must be UTF-8. */
  method StrBody(r: Reader) returns (a: Answer<Bytes>)
    requires r.Valid()
    modifies r`pos
    ensures r.Valid()
    ensures forall m: Mode | m != Skip ::
              && Ends(a, r.pos, WText(m, r.data, old(r.pos)))
              && (a.Ok? ==> a.value == WText(m, r.data, old(r.pos)).value.text)
  {
    ghost var z;
    var n;
    n, z := r.Size();
    if n.Err? { return Result.Err(n.error); }
    var bytes :- r.TakeBytes(n.value);
    if !ValidUtf8(bytes) { return Result.Err(InvalidUtf8); }
    return Result.Ok(bytes);
  }

  method Object(r: Reader, h: u8) returns (a: Answer<()>)
    requires r.Valid() && r.implied == None
    modifies r`pos, r`depth, r`implied
    ensures r.Valid() && r.depth == old(r.depth) && r.implied == None
    ensures Ends(a, r.pos, WObject(Transcode, r.data, old(r.pos), h, old(r.depth)))
    decreases |r.data| - r.pos, 0, 0
  {
    if KeyWidth(h).None? { return Result.Err(InvalidHeader); }
    ghost var z;
    var members;
    members, z := r.Size();
    if members.Err? { return Result.Err(members.error); }
    var _ :- r.Enter();
    a := Members(r, h, members.value);
    r.Leave();
  }

  method Members(r: Reader, h: u8, members: nat) returns (a: Answer<()>)
    requires r.Valid() && r.implied == None && KeyWidth(h).Some?
    modifies r`pos, r`depth, r`implied
    ensures r.Valid() && r.depth == old(r.depth) && r.implied == None
    ensures Ends(a, r.pos, WMembers(Transcode, r.data, old(r.pos), h, members, old(r.depth)))
    decreases |r.data| - r.pos, 3, 0
  {
    hide WValue, WText, Take, ByteWidth, KeyWidth;
    ghost var all := WMembers(Transcode, r.data, r.pos, h, members, r.depth);
    for i := 0 to members
      invariant r.Valid() && r.depth == old(r.depth) && r.implied == None && r.pos >= old(r.pos)
      invariant SameEnd(all, WMembers(Transcode, r.data, r.pos, h, members - i, r.depth))
    {
      if Sub(h) == CAT_FLOAT {
        var _ :- StrBody(r);
      } else {
        var _ :- r.TakeBytes(KeyWidth(h).value);
      }
      var _ :- Value(r);
    }
    return Result.Ok(());
  }

  method GenericArray(r: Reader) returns (a: Answer<()>)
    requires r.Valid() && r.implied == None
    modifies r`pos, r`depth, r`implied
    ensures r.Valid() && r.depth == old(r.depth) && r.implied == None
    ensures Ends(a, r.pos, WArray(Transcode, r.data, old(r.pos), old(r.depth)))
    decreases |r.data| - r.pos, 0, 0
  {
    ghost var z;
    var n;
    n, z := r.Size();
    if n.Err? { return Result.Err(n.error); }
    var _ :- r.Enter();
    a := Items(r, n.value);
    r.Leave();
  }

  method Items(r: Reader, n: nat) returns (a: Answer<()>)
    requires r.Valid() && r.implied == None
    modifies r`pos, r`depth, r`implied
    ensures r.Valid() && r.depth == old(r.depth) && r.implied == None
    ensures Ends(a, r.pos, WValues(Transcode, r.data, old(r.pos), n, old(r.depth)))
    decreases |r.data| - r.pos, 3, 0
  {
    ghost var all := WValues(Transcode, r.data, r.pos, n, r.depth);
    for i := 0 to n
      invariant r.Valid() && r.depth == old(r.depth) && r.implied == None && r.pos >= old(r.pos)
      invariant SameEnd(all, WValues(Transcode, r.data, r.pos, n - i, r.depth))
    {
      var _ :- Value(r);
    }
    return Result.Ok(());
  }

  method TypedArray(r: Reader, h: u8) returns (a: Answer<()>)
    requires r.Valid() && r.implied == None
    modifies r`pos, r`implied
    ensures r.Valid() && r.implied == None
    ensures Ends(a, r.pos, WTyped(Transcode, r.data, old(r.pos), h))
  {
    var form :- r.TakeTypedHead(h);
    match form {
      case Bools(n) =>
        var _ :- r.TakeBytes(DivCeil8(n));
        return Result.Ok(());
      case Strings(n) =>
        a := Strings(r, n);
      case Fixed(elem, n) =>
        var _ :- Block(r, elem, n, FixedWidth(elem).value);
        return Result.Ok(());
    }
  }

  method Strings(r: Reader, n: nat) returns (a: Answer<()>)
    requires r.Valid()
    modifies r`pos
    ensures r.Valid() && Ends(a, r.pos, WTexts(Transcode, r.data, old(r.pos), n))
  {
    ghost var all := WTexts(Transcode, r.data, r.pos, n);
    for i := 0 to n
      invariant r.Valid()
      invariant SameEnd(all, WTexts(Transcode, r.data, r.pos, n - i))
    {
      var _ :- StrBody(r);
    }
    return Result.Ok(());
  }

  /** Take the payload of `n` elements of `width` bytes, refusing a type that cannot be
      decoded before looking for it, unless there is none to decode. */
  method Block(r: Reader, h: u8, n: nat, width: nat) returns (a: Answer<Bytes>)
    requires r.Valid() && FixedWidth(h).Some?
    modifies r`pos
    ensures r.Valid() && Agrees(a, r.pos, WBlock(Transcode, r.data, old(r.pos), h, n, width))
  {
    if n > 0 {
      var _ :- DecodableWidth(h);
    }
    var total := CheckedMul(n, width);
    if total.None? { return Result.Err(UnexpectedEnd); }
    a := r.TakeBytes(total.value);
  }

  method Extension(r: Reader, h: u8) returns (a: Answer<()>)
    requires r.Valid() && r.implied == None
    modifies r`pos, r`depth, r`implied
    ensures r.Valid() && r.depth == old(r.depth) && r.implied == None
    ensures Ends(a, r.pos, WExtension(Transcode, r.data, old(r.pos), h, old(r.depth)))
    decreases |r.data| - r.pos, 0, 1
  {
    if ExtId(h) == EXT_COMPLEX {
      a := Complex(r);
    } else if ExtId(h) == EXT_MATRIX {
      a := Matrix(r);
    } else if ExtId(h) == EXT_DELIMITER {
      return Result.Err(InvalidHeader);
    } else {
      return Result.Err(UnsupportedFeature);
    }
  }

  method Complex(r: Reader) returns (a: Answer<()>)
    requires r.Valid() && r.implied == None
    modifies r`pos, r`implied
    ensures r.Valid() && r.implied == None && Ends(a, r.pos, WComplex(Transcode, r.data, old(r.pos)))
  {
    var head :- r.TakeComplexHead();
    var _ :- Block(r, head.0, if head.2.Some? then head.2.value else 1, 2 * head.1);
    return Result.Ok(());
  }

  method Matrix(r: Reader) returns (a: Answer<()>)
    requires r.Valid() && r.implied == None
    modifies r`pos, r`depth, r`implied
    ensures r.Valid() && r.depth == old(r.depth) && r.implied == None
    ensures Ends(a, r.pos, WMatrix(Transcode, r.data, old(r.pos), old(r.depth)))
    decreases |r.data| - r.pos, 0, 0
  {
    var layout :- r.TakeBytes(1);
    if layout[0] != LAYOUT_RIGHT && layout[0] != LAYOUT_LEFT { return Result.Err(InvalidMatrixLayout); }
    var _ :- r.Enter();
    a := Value(r);
    if a.Ok? { a := Value(r); }
    r.Leave();
  }
}

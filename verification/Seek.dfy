/** Moving the cursor onto the value a JSON Pointer names: `seek`, `read_at` and `descend` of
    src/beve/reader.rs. */
module Seeks {
  import opened Bits
  import opened Wrappers
  import opened Headers
  import opened Wire
  import opened Grammar
  import opened Walks
  import opened Readers
  import opened Pointers
  import PackedBools
  import Trees

  // ---------------------------------------------------------------------
  // Where each step lands
  // ---------------------------------------------------------------------

  /** What an integer key of `width` bytes in the object headed by `h` reads as. */
  function KeyValue(h: u8, key: Bytes): int {
    if Sub(h) == CAT_SIGNED then SignExtend(LittleEndian(key), |key|) else LittleEndian(key)
  }

  /** The integer a token names among the keys of the object headed by `h`. */
  function Wanted(h: u8, token: Bytes): Option<int> {
    if Sub(h) == CAT_SIGNED then ParseI128(token) else ParseU128(token)
  }

  predicate Hits(h: u8, token: Bytes, key: Bytes) {
    if Sub(h) == CAT_FLOAT then Unescape(token) == key else Wanted(h, token) == Some(KeyValue(h, key))
  }

  function SMember(d: Bytes, p: nat, h: u8, token: Bytes, n: nat, depth: nat): (r: Out<Option<u8>>)
    requires p <= |d| && KeyWidth(h).Some?
    ensures r.Ok? ==> r.pos <= |d|
    decreases n
  {
    if n == 0 then Out.Err(NoSuchValue, p)
    else
      var (key, p1) :- WKey(Skip, d, p, h);
      if Hits(h, token, key.text) then Out.Ok(None, p1)
      else
        var (_, p2) :- WValue(Skip, d, p1, depth);
        SMember(d, p2, h, token, n - 1, depth)
  }

  function SObject(d: Bytes, p: nat, h: u8, token: Bytes, depth: nat): (r: Out<Option<u8>>)
    requires p <= |d|
    ensures r.Ok? ==> r.pos <= |d|
  {
    if KeyWidth(h).None? then Out.Err(InvalidHeader, p)
    else if Sub(h) != CAT_FLOAT && Wanted(h, token).None? then Out.Err(NoSuchValue, p)
    else
      var (z, p1) :- SizeField(d, p);
      if depth >= MAX_DEPTH then Out.Err(ExceededMaxDepth, p1)
      else SMember(d, p1, h, token, SizeValue(z), depth + 1)
  }

  function SArray(d: Bytes, p: nat, h: u8, token: Bytes, depth: nat): (r: Out<Option<u8>>)
    requires p <= |d|
    ensures r.Ok? ==> r.pos <= |d|
  {
    if !BareHeader(h) then Out.Err(InvalidHeader, p)
    else if Index(token).Err? then Out.Err(Index(token).error, p)
    else
      var (z, p1) :- SizeField(d, p);
      if depth >= MAX_DEPTH then Out.Err(ExceededMaxDepth, p1)
      else if Index(token).value >= SizeValue(z) then Out.Err(NoSuchValue, p1)
      else
        var (_, p2) :- WValues(Skip, d, p1, Index(token).value, depth + 1);
        Out.Ok(None, p2)
  }

  function STyped(d: Bytes, p: nat, h: u8, i: nat, depth: nat): (r: Out<Option<u8>>)
    requires p <= |d|
    ensures r.Ok? ==> r.pos <= |d|
  {
    if depth >= MAX_DEPTH then Out.Err(ExceededMaxDepth, p)
    else
      var (form, p1) :- TypedHead(d, p, h);
      if i >= form.Count() then Out.Err(NoSuchValue, p1)
      else if form.Bools? then
        Out.Ok(Some(if PackedBools.BitAt(d[p1 + i / 8], i % 8) then TRUE else FALSE), p1)
      else if form.Strings? then
        var (_, p2) :- WTexts(Skip, d, p1, i);
        Out.Ok(Some(STRING), p2)
      else
        var w := FixedWidth(form.h).value;
        if CheckedMul(i, w).None? then Out.Err(UnexpectedEnd, p1)
        else
          var (_, p2) :- Take(d, p1, i * w);
          if p2 + w > |d| then Out.Err(UnexpectedEnd, p2) else Out.Ok(Some(ElementOf(form.h)), p2)
  }

  /** From the container at `p`, whose header is `implied` if it has none of its own, onto what
      `token` names in it: where that is, and the header it is to be read with if it has none
      of its own. */
  function SDescend(d: Bytes, p: nat, implied: Option<u8>, token: Bytes, depth: nat): (r: Out<Option<u8>>)
    requires p <= |d|
    ensures r.Ok? ==> r.pos <= |d|
  {
    var (h, p1) :- if implied.Some? then Out.Ok(implied.value, p) else Head(d, p);
    if Ty(h) == TY_OBJECT then SObject(d, p1, h, token, depth)
    else if Ty(h) == TY_GENERIC_ARRAY then SArray(d, p1, h, token, depth)
    else if Ty(h) == TY_TYPED_ARRAY then
      if Index(token).Err? then Out.Err(Index(token).error, p1) else STyped(d, p1, h, Index(token).value, depth)
    else if h == DELIMITER || Ty(h) == TY_UNDEFINED then Out.Err(InvalidHeader, p1)
    else Out.Err(NoSuchValue, p1)
  }

  function SPath(d: Bytes, p: nat, implied: Option<u8>, tokens: seq<Bytes>, depth: nat): (r: Out<Option<u8>>)
    requires p <= |d|
    ensures r.Ok? ==> r.pos <= |d|
    decreases |tokens|
  {
    if tokens == [] then Out.Ok(implied, p)
    else if !Escaped(tokens[0]) then Out.Err(InvalidPointer, p)
    else
      var (h, p1) :- SDescend(d, p, implied, tokens[0], depth);
      SPath(d, p1, h, tokens[1..], depth + 1)
  }

  function SPointer(d: Bytes, p: nat, implied: Option<u8>, pointer: Bytes, depth: nat): (r: Out<Option<u8>>)
    requires p <= |d|
    ensures r.Ok? ==> r.pos <= |d|
  {
    match Tokens(pointer)
    case None => Out.Err(InvalidPointer, p)
    case Some(tokens) => SPath(d, p, implied, tokens, depth)
  }

  // ---------------------------------------------------------------------
  // Going there
  // ---------------------------------------------------------------------

  /** The cursor stands where `o` says, with the header `o` says installed. */
  ghost predicate Lands(a: Answer<()>, r: Reader, o: Out<Option<u8>>)
    reads r
  {
    && (o.Ok? ==> a.Ok? && r.pos == o.pos && r.implied == o.value
                  && (o.value.Some? ==> r.installed == Some((o.pos, o.value.value))))
    && (o.Err? ==> a == Result.Err(o.code) && r.pos == o.pos)
  }

  /** Consume a member's key, and whether it is the one `token` names. */
  method TakeKey(r: Reader, h: u8, token: Bytes) returns (hit: Answer<bool>)
    requires r.Valid() && KeyWidth(h).Some? && (Sub(h) != CAT_FLOAT ==> Wanted(h, token).Some?)
    modifies r`pos
    ensures r.Valid() && Ends(hit, r.pos, WKey(Skip, r.data, old(r.pos), h))
    ensures hit.Ok? ==> hit.value == Hits(h, token, WKey(Skip, r.data, old(r.pos), h).value.text)
  {
    if Sub(h) == CAT_FLOAT {
      ghost var field;
      var n;
      n, field := r.Size();
      if n.Err? { return Result.Err(n.error); }
      var key :- r.TakeBytes(n.value);
      var eq := TokenEq(token, key);
      return Result.Ok(eq);
    }
    var key :- r.TakeBytes(KeyWidth(h).value);
    return Result.Ok(Wanted(h, token).value == KeyValue(h, key));
  }

  /** Find the member `token` names in the object headed by `h`. */
  method DescendObject(r: Reader, h: u8, token: Bytes) returns (a: Answer<()>)
    requires r.Valid() && r.implied == None
    modifies r`pos, r`depth, r`implied
    ensures r.Valid() && r.implied == None && Lands(a, r, SObject(r.data, old(r.pos), h, token, old(r.depth)))
    ensures a.Ok? ==> r.depth == old(r.depth) + 1
  {
    hide WValue, WKey, Hits, Wanted, SizeField, SizeValue;
    if KeyWidth(h).None? { return Result.Err(InvalidHeader); }
    var wanted := Wanted(h, token);
    if Sub(h) != CAT_FLOAT && wanted.None? { return Result.Err(NoSuchValue); }
    ghost var z;
    var members;
    members, z := r.Size();
    if members.Err? { return Result.Err(members.error); }
    var _ :- r.Enter();
    ghost var all := SMember(r.data, r.pos, h, token, members.value, r.depth);
    for i := 0 to members.value
      invariant r.Valid() && r.implied == None && r.depth == old(r.depth) + 1
      invariant all == SMember(r.data, r.pos, h, token, members.value - i, r.depth)
    {
      var hit :- TakeKey(r, h, token);
      if hit { return Result.Ok(()); }
      var _ :- r.SkipValue();
    }
    return Result.Err(NoSuchValue);
  }

  method DescendArray(r: Reader, h: u8, token: Bytes) returns (a: Answer<()>)
    requires r.Valid() && r.implied == None
    modifies r`pos, r`depth, r`implied
    ensures r.Valid() && r.implied == None && Lands(a, r, SArray(r.data, old(r.pos), h, token, old(r.depth)))
    ensures a.Ok? ==> r.depth == old(r.depth) + 1
  {
    if !BareHeader(h) { return Result.Err(InvalidHeader); }
    var i :- Index(token);
    ghost var z;
    var n;
    n, z := r.Size();
    if n.Err? { return Result.Err(n.error); }
    var _ :- r.Enter();
    if i >= n.value { return Result.Err(NoSuchValue); }
    a := r.SkipItems(i, false);
  }

  /** Move onto element `i` of the typed array headed by `h`. */
  method DescendTyped(r: Reader, h: u8, i: nat) returns (a: Answer<()>)
    requires r.Valid() && r.implied == None
    modifies r`pos, r`depth, r`implied, r`installed
    ensures r.Valid() && Lands(a, r, STyped(r.data, old(r.pos), h, i, old(r.depth)))
    ensures a.Ok? ==> r.depth == old(r.depth) + 1
  {
    var _ :- r.Enter();
    var form :- r.TakeTypedHead(h);
    if i >= form.n { return Result.Err(NoSuchValue); }
    match form {
      case Bools(_) =>
        var byte := r.data[r.pos + i / 8];
        r.Install(if PackedBools.BitAt(byte, i % 8) then TRUE else FALSE);
      case Strings(_) =>
        var _ :- r.SkipStrings(i, false);
        r.Install(STRING);
      case Fixed(elem, _) =>
        var width := FixedWidth(elem).value;
        var offset := CheckedMul(i, width);
        if offset.None? { return Result.Err(UnexpectedEnd); }
        var _ :- r.TakeBytes(offset.value);
        if r.pos + width > |r.data| { return Result.Err(UnexpectedEnd); }
        r.Install(ElementOf(elem));
    }
    return Result.Ok(());
  }

  /** Move from the container at the cursor onto the member or element `token` names. */
  method Descend(r: Reader, token: Bytes) returns (a: Answer<()>)
    requires r.Valid()
    modifies r`pos, r`depth, r`implied, r`installed
    ensures r.Valid() && Lands(a, r, SDescend(r.data, old(r.pos), old(r.implied), token, old(r.depth)))
    ensures a.Ok? ==> r.depth == old(r.depth) + 1
  {
    var h :- r.TakeHead();
    if Ty(h) == TY_OBJECT {
      a := DescendObject(r, h, token);
    } else if Ty(h) == TY_GENERIC_ARRAY {
      a := DescendArray(r, h, token);
    } else if Ty(h) == TY_TYPED_ARRAY {
      var i :- Index(token);
      a := DescendTyped(r, h, i);
    } else if h == DELIMITER {
      return Result.Err(InvalidHeader);
    } else if Ty(h) == TY_UNDEFINED {
      return Result.Err(InvalidHeader);
    } else {
      return Result.Err(NoSuchValue);
    }
  }

  /** One step for each token of the pointer. */
  method DescendPath(r: Reader, pointer: Bytes) returns (a: Answer<()>)
    requires r.Valid()
    modifies r`pos, r`depth, r`implied, r`installed
    ensures r.Valid() && (a.Ok? ==> r.depth >= old(r.depth))
    ensures var o := SPointer(r.data, old(r.pos), old(r.implied), pointer, old(r.depth));
            if pointer == [] then a.Ok? && r.pos == old(r.pos) && r.implied == old(r.implied) && r.installed == old(r.installed)
            else Lands(a, r, o)
    ensures a.Ok? ==> r.depth == old(r.depth) + |Tokens(pointer).value|
  {
    hide SDescend, Escaped, Split;
    if pointer == [] { return Result.Ok(()); }
    if pointer[0] != SLASH { return Result.Err(InvalidPointer); }
    var tokens := Split(pointer[1..]);
    ghost var all := SPath(r.data, r.pos, r.implied, tokens, r.depth);
    for i := 0 to |tokens|
      invariant r.Valid() && r.depth == old(r.depth) + i
      invariant all == SPath(r.data, r.pos, r.implied, tokens[i..], r.depth)
      invariant i > 0 && r.implied.Some? ==> r.installed == Some((r.pos, r.implied.value))
    {
      ghost var rest := tokens[i..];
      assert rest[0] == tokens[i] && rest[1..] == tokens[i + 1..];
      var _ :- CheckEscapes(tokens[i]);
      var _ :- Descend(r, tokens[i]);
    }
    return Result.Ok(());
  }

  /** `DescendPath`, putting the depth back on a failure, and how many levels a success
      counted. */
  method Walk(r: Reader, pointer: Bytes) returns (a: Answer<nat>)
    requires r.Valid()
    modifies r`pos, r`depth, r`implied, r`installed
    ensures r.Valid()
    ensures var o := SPointer(r.data, old(r.pos), old(r.implied), pointer, old(r.depth));
            && (o.Ok? ==> a == Result.Ok(|Tokens(pointer).value|) && r.pos == o.pos && r.implied == o.value
                          && r.depth == old(r.depth) + a.value
                          && (pointer != [] && o.value.Some? ==> r.installed == Some((o.pos, o.value.value))))
            && (o.Err? ==> a == Result.Err(o.code) && r.pos == o.pos && r.depth == old(r.depth))
  {
    var depth := r.depth;
    var done := DescendPath(r, pointer);
    if done.Ok? { return Result.Ok(r.depth - depth); }
    r.depth := depth;
    return Result.Err(done.error);
  }

  /** Move the cursor onto the value `pointer` names, leaving it ready to be read. */
  method Seek(r: Reader, pointer: Bytes) returns (a: Answer<()>)
    requires r.Valid()
    modifies r`pos, r`depth, r`implied, r`installed
    ensures r.Valid() && r.depth == old(r.depth)
    ensures var o := SPointer(r.data, old(r.pos), old(r.implied), pointer, old(r.depth));
            && (o.Ok? ==> a.Ok? && r.pos == o.pos && r.implied == o.value
                          && (pointer != [] && o.value.Some? ==> r.installed == Some((o.pos, o.value.value))))
            && (o.Err? ==> a == Result.Err(o.code) && r.pos == o.pos)
  {
    var levels :- Walk(r, pointer);
    r.depth := r.depth - levels;
    return Result.Ok(());
  }
}

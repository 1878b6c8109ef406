/** Writing a tree as a BEVE document (src/value.rs and src/beve/writer.rs), and reading it
    back. */
module Writers {
  import opened Bits
  import opened Wrappers
  import opened Headers
  import opened Wire
  import opened Grammar
  import opened Walks
  import opened WalkProofs
  import opened Readers
  import opened Trees
  import opened NumberTheorems
  import AssocLists
  import WalkDepth

  const U64: u8 := Header(TY_NUMBER, CAT_UNSIGNED, 3)
  const I64: u8 := Header(TY_NUMBER, CAT_SIGNED, 3)
  const F64: u8 := Header(TY_NUMBER, CAT_FLOAT, 3)
  const OBJECT: u8 := TY_OBJECT

  // ---------------------------------------------------------------------
  // The trees there are
  // ---------------------------------------------------------------------

  /** Text of a length that a size can state. */
  predicate IsText(s: Bytes) { ValidUtf8(s) && |s| <= MAX_SIZE }

  predicate IsNumber(n: Number) {
    match n
    case Int(v) => -0x8000_0000_0000_0000 <= v < 0x1_0000_0000_0000_0000
    case Float(bits) => bits < TWO_TO_THE_64 && IsFinite(bits)
  }

  /** A tree as the source can hold one: numbers of 64 bits, the floats finite, text UTF-8 and
      an object's keys distinct. */
  ghost predicate IsTree(v: Value)
    decreases v, 1
  {
    match v
    case Null => true
    case Bool(_) => true
    case Num(n) => IsNumber(n)
    case String(s) => IsText(s)
    case Array(items) => |items| <= MAX_SIZE && AreTrees(items)
    case Object(ms) => |ms| <= MAX_SIZE && AssocLists.Distinct(ms) && AreMembers(ms)
  }

  ghost predicate AreTrees(items: seq<Value>)
    decreases items, 0
  {
    items == [] || (IsTree(items[0]) && AreTrees(items[1..]))
  }

  ghost predicate AreMembers(ms: seq<(Bytes, Value)>)
    decreases ms, 0
  {
    ms == [] || (assert ms[0].1 < ms[0]; IsText(ms[0].0) && IsTree(ms[0].1) && AreMembers(ms[1..]))
  }

  /** How many arrays and objects deep a tree goes. */
  function Levels(v: Value): nat
    decreases v, 1
  {
    match v
    case Array(items) => 1 + LevelsOf(items)
    case Object(ms) => 1 + MemberLevels(ms)
    case _ => 0
  }

  function LevelsOf(items: seq<Value>): nat
    decreases items, 0
  {
    if items == [] then 0 else Max(Levels(items[0]), LevelsOf(items[1..]))
  }

  function MemberLevels(ms: seq<(Bytes, Value)>): nat
    decreases ms, 0
  {
    if ms == [] then 0
    else
      assert ms[0].1 < ms[0];
      Max(Levels(ms[0].1), MemberLevels(ms[1..]))
  }

  // ---------------------------------------------------------------------
  // The value that is written
  // ---------------------------------------------------------------------

  function TextFor(s: Bytes): Text
    requires IsText(s)
  {
    Text(SizeBytes(|s|), s)
  }

  function NumberFor(n: Number): Node
    requires IsNumber(n)
  {
    match n
    case Int(v) => if v < 0 then Grammar.Num(I64, IntegerBytes(I64, v)) else Grammar.Num(U64, IntegerBytes(U64, v))
    case Float(bits) => Grammar.Num(F64, LowBytes(bits, 8))
  }

  ghost function NodeFor(v: Value): Node
    requires IsTree(v)
    decreases v, 1
  {
    match v
    case Null => Atom(NULL)
    case Bool(b) => Atom(if b then TRUE else FALSE)
    case Num(n) => NumberFor(n)
    case String(s) => Str(TextFor(s))
    case Array(items) => Arr(SizeBytes(|items|), NodesFor(items))
    case Object(ms) => Obj(OBJECT, SizeBytes(|ms|), MembersFor(ms))
  }

  ghost function NodesFor(items: seq<Value>): (r: seq<Node>)
    requires AreTrees(items)
    ensures |r| == |items|
    decreases items, 0
  {
    if items == [] then [] else [NodeFor(items[0])] + NodesFor(items[1..])
  }

  ghost function MembersFor(ms: seq<(Bytes, Value)>): (r: seq<Member>)
    requires AreMembers(ms)
    ensures |r| == |ms|
    decreases ms, 0
  {
    if ms == [] then []
    else
      assert ms[0].1 < ms[0];
      [Member(SizeBytes(|ms[0].0|), ms[0].0, NodeFor(ms[0].1))] + MembersFor(ms[1..])
  }

  /** What is written is a value of the format that a tree can be read from, as deep as the
      tree, and the tree it reads as is the one written. */
  ghost predicate Mirrors(n: Node, v: Value) {
    WellFormed(n) && Accepts(Build, n) && Nesting(n) == Levels(v) && TreeOf(n) == v
  }

  /** The members of an object and of the tree it reads as. */
  ghost predicate Alike(ns: seq<Member>, ms: seq<(Bytes, Value)>) {
    |ns| == |ms| && forall i | 0 <= i < |ms| :: ns[i].key == ms[i].0 && TreeOf(ns[i].value) == ms[i].1
  }

  lemma IntegerMirrors(h: u8, v: int)
    requires h == (if v < 0 then I64 else U64) && IsNumber(Int(v))
    ensures IsInteger(h) && Mirrors(Grammar.Num(h, IntegerBytes(h, v)), Value.Num(Int(v)))
  {
    Pow256OfWidths();
    WidthIsPower(h);
    hide IntegerBytes, Representable, NumberOf, Pow256, KeyText, Decimal, LowBytes, SignExtend, Or, And;
    IntegerRoundTrip(h, v);
  }

  lemma FloatMirrors(bits: nat)
    requires IsNumber(Float(bits))
    ensures Mirrors(Grammar.Num(F64, LowBytes(bits, 8)), Value.Num(Float(bits)))
  {
    hide LittleEndian, LowBytes, Pow256;
    WidthIsPower(F64);
    Pow256OfWidths();
    LowBytesRoundTrip(bits, 8);
  }

  lemma NumberMirrors(n: Number)
    requires IsNumber(n)
    ensures Mirrors(NumberFor(n), Value.Num(n))
  {
    hide Mirrors, IntegerBytes, LowBytes;
    match n
    case Int(v) => IntegerMirrors(if v < 0 then I64 else U64, v);
    case Float(bits) => FloatMirrors(bits);
  }

  lemma {:induction false} TreeMirrors(v: Value)
    requires IsTree(v)
    ensures Mirrors(NodeFor(v), v)
    decreases v, 1
  {
    hide SizeBytes, ValidUtf8, Representable, AcceptsAll, AcceptsMembers;
    match v
    case Null =>
    case Bool(_) =>
    case Num(n) => NumberMirrors(n);
    case String(s) => SizeBytesStates(|s|);
    case Array(items) =>
      SizeBytesStates(|items|);
      TreesMirror(items);
    case Object(ms) =>
      MembersMirror(ms);
      ObjectMirrors(ms);
  }

  lemma ObjectMirrors(ms: seq<(Bytes, Value)>)
    requires IsTree(Object(ms)) && Alike(MembersFor(ms), ms)
    requires MembersWellFormed(OBJECT, MembersFor(ms)) && AcceptsMembers(Build, OBJECT, MembersFor(ms))
    requires MemberNesting(MembersFor(ms)) == MemberLevels(ms)
    ensures Mirrors(NodeFor(Object(ms)), Object(ms))
  {
    hide SizeBytes, MembersWellFormed, AcceptsMembers, MemberNesting, MemberLevels, Filled, MembersFor, Alike,
         AssocLists.Distinct, AreMembers;
    SizeBytesStates(|ms|);
    assert [] + ms == ms;
    Refilled([], MembersFor(ms), ms);
    assert TreeOf(NodeFor(Object(ms))) == Object(Filled([], OBJECT, MembersFor(ms)));
  }

  lemma {:induction false} TreesMirror(items: seq<Value>)
    requires AreTrees(items)
    ensures var ns := NodesFor(items);
            && AllWellFormed(ns) && AcceptsAll(Build, ns) && AllNesting(ns) == LevelsOf(items) && TreesOf(ns) == items
    decreases items, 0
  {
    hide IsTree, NodeFor, TreeOf, WellFormed, Accepts, Nesting, Levels;
    if items != [] {
      TreeMirrors(items[0]);
      TreesMirror(items[1..]);
      assert NodesFor(items)[1..] == NodesFor(items[1..]);
    }
  }

  lemma {:induction false} MembersMirror(ms: seq<(Bytes, Value)>)
    requires AreMembers(ms)
    ensures var ns := MembersFor(ms);
            && MembersWellFormed(OBJECT, ns) && AcceptsMembers(Build, OBJECT, ns) && MemberNesting(ns) == MemberLevels(ms)
    ensures Alike(MembersFor(ms), ms)
    decreases ms, 0
  {
    hide IsTree, NodeFor, TreeOf, WellFormed, Accepts, Nesting, Levels, SizeBytes, ValidUtf8;
    if ms != [] {
      SizeBytesStates(|ms[0].0|);
      assert ms[0].1 < ms[0];
      TreeMirrors(ms[0].1);
      MembersMirror(ms[1..]);
      assert MembersFor(ms)[1..] == MembersFor(ms[1..]);
    }
  }

  /** Distinct members inserted in turn are the members. */
  lemma {:induction false} Refilled(entries: seq<(Bytes, Value)>, ns: seq<Member>, ms: seq<(Bytes, Value)>)
    requires Alike(ns, ms) && AssocLists.Distinct(entries + ms)
    ensures Filled(entries, OBJECT, ns) == entries + ms
    decreases |ns|
  {
    hide TreeOf, AssocLists.Distinct, AssocLists.Inserted;
    if ms == [] {
      assert entries + ms == entries;
    } else {
      NotYet(entries, ms);
      assert entries + [ms[0]] + ms[1..] == entries + ms;
      assert ms[0] == (ns[0].key, TreeOf(ns[0].value));
      Refilled(entries + [ms[0]], ns[1..], ms[1..]);
    }
  }

  lemma NotYet(entries: seq<(Bytes, Value)>, ms: seq<(Bytes, Value)>)
    requires ms != [] && AssocLists.Distinct(entries + ms)
    ensures AssocLists.Inserted(entries, ms[0].0, ms[0].1) == entries + [ms[0]]
  {
    var keys, all := AssocLists.Keys(entries), AssocLists.Keys(entries + ms);
    assert all[|entries|] == ms[0].0;
    assert forall i | 0 <= i < |keys| :: keys[i] == all[i];
  }

  /** The bytes a tree is written in, by what it is. */
  lemma Laid(v: Value)
    requires IsTree(v) && WellFormed(NodeFor(v))
    ensures var b := Encode(NodeFor(v));
            match v
            case Null => b == [NULL]
            case Bool(x) => b == [if x then TRUE else FALSE]
            case Num(n) => b == Encode(NumberFor(n))
            case String(s) => b == [STRING] + EncodeText(TextFor(s))
            case Array(items) =>
              AllWellFormed(NodesFor(items)) && b == [GENERIC_ARRAY] + (SizeBytes(|items|) + EncodeAll(NodesFor(items)))
            case Object(ms) =>
              && MembersWellFormed(OBJECT, MembersFor(ms))
              && b == [OBJECT] + (SizeBytes(|ms|) + EncodeMembers(OBJECT, MembersFor(ms)))
  {
    hide SizeBytes, EncodeAll, EncodeMembers, EncodeText, NumberFor, NodesFor, MembersFor, AllWellFormed, MembersWellFormed, ValidUtf8;
  }

  lemma NoMember()
    ensures MembersWellFormed(OBJECT, MembersFor([])) && EncodeMembers(OBJECT, MembersFor([])) == []
  {
  }

  lemma OneMember(ms: seq<(Bytes, Value)>)
    requires ms != [] && AreMembers(ms) && MembersWellFormed(OBJECT, MembersFor(ms))
    ensures IsText(ms[0].0) && IsTree(ms[0].1) && AreMembers(ms[1..])
    ensures WellFormed(NodeFor(ms[0].1)) && MembersWellFormed(OBJECT, MembersFor(ms[1..]))
    ensures EncodeMembers(OBJECT, MembersFor(ms))
            == EncodeText(TextFor(ms[0].0)) + (Encode(NodeFor(ms[0].1)) + EncodeMembers(OBJECT, MembersFor(ms[1..])))
  {
    hide IsTree, NodeFor, WellFormed, Encode, KeyFits, ValidUtf8, SizeBytes;
    assert MembersFor(ms)[1..] == MembersFor(ms[1..]);
  }

  // ---------------------------------------------------------------------
  // The writer
  // ---------------------------------------------------------------------

  class Writer {
    var buf: Bytes

    constructor ()
      ensures buf == []
    {
      buf := [];
    }

    method Push(b: u8)
      modifies this
      ensures buf == old(buf) + [b]
    {
      buf := buf + [b];
    }

    method Raw(bytes: Bytes)
      modifies this
      ensures buf == old(buf) + bytes
    {
      buf := buf + bytes;
    }

    /** Append a compressed size. */
    method Size(n: nat)
      requires n <= MAX_SIZE
      modifies this
      ensures buf == old(buf) + SizeBytes(n)
    {
      var out := new u8[8](_ => 0);
      var used := EncodeSize(n, out);
      buf := buf + out[..used];
    }

    /** A string with no header, as an object has its keys. */
    method StrBody(s: Bytes)
      requires IsText(s)
      modifies this
      ensures buf == old(buf) + EncodeText(TextFor(s))
    {
      Size(|s|);
      Raw(s);
    }

    method WriteNumber(n: Number)
      requires IsNumber(n)
      modifies this
      ensures WellFormed(NumberFor(n)) && buf == old(buf) + Encode(NumberFor(n))
    {
      hide IntegerBytes, LowBytes, Representable, FixedWidth, TreeOf, Nesting, Accepts, IsNumber;
      NumberMirrors(n);
      match n {
        case Int(v) =>
          if v < 0 {
            Push(I64);
            Raw(IntegerBytes(I64, v));
          } else {
            Push(U64);
            Raw(IntegerBytes(U64, v));
          }
        case Float(bits) =>
          Push(F64);
          Raw(LowBytes(bits, 8));
      }
    }

    /** Append a tree's document. */
    method Write(v: Value)
      requires IsTree(v)
      modifies this
      ensures WellFormed(NodeFor(v)) && buf == old(buf) + Encode(NodeFor(v))
      decreases v, 1
    {
      hide SizeBytes, Encode, NodeFor, EncodeText, EncodeAll, EncodeMembers, NumberFor, TextFor, NodesFor, MembersFor;
      hide WellFormed, ValidUtf8, AreTrees, AreMembers, AllWellFormed, MembersWellFormed;
      TreeMirrors(v);
      Laid(v);
      match v {
        case Null => Push(NULL);
        case Bool(b) => Push(if b then TRUE else FALSE);
        case Num(n) => WriteNumber(n);
        case String(s) =>
          Push(STRING);
          StrBody(s);
        case Array(items) =>
          Push(GENERIC_ARRAY);
          Size(|items|);
          WriteItems(items);
        case Object(ms) =>
          Push(OBJECT);
          Size(|ms|);
          WriteMembers(ms);
      }
    }

    method WriteItems(items: seq<Value>)
      requires AreTrees(items)
      modifies this
      ensures AllWellFormed(NodesFor(items)) && buf == old(buf) + EncodeAll(NodesFor(items))
      decreases items, 0
    {
      hide IsTree, NodeFor, WellFormed, Encode;
      TreesMirror(items);
      for i := 0 to |items|
        invariant AreTrees(items[i..]) && AllWellFormed(NodesFor(items[i..]))
        invariant buf + EncodeAll(NodesFor(items[i..])) == old(buf) + EncodeAll(NodesFor(items))
      {
        assert items[i..][1..] == items[i + 1..];
        assert NodesFor(items[i..])[1..] == NodesFor(items[i + 1..]);
        Write(items[i]);
      }
    }

    method WriteMembers(ms: seq<(Bytes, Value)>)
      requires AreMembers(ms)
      modifies this
      ensures MembersWellFormed(OBJECT, MembersFor(ms)) && buf == old(buf) + EncodeMembers(OBJECT, MembersFor(ms))
      decreases ms, 0
    {
      hide IsTree, NodeFor, WellFormed, Encode, EncodeMembers, EncodeText, TextFor, IsText, MembersWellFormed, MembersFor;
      hide AcceptsMembers, MemberNesting, MemberLevels, Alike, AreMembers;
      MembersMirror(ms);
      NoMember();
      for i := 0 to |ms|
        invariant AreMembers(ms[i..]) && MembersWellFormed(OBJECT, MembersFor(ms[i..]))
        invariant buf + EncodeMembers(OBJECT, MembersFor(ms[i..])) == old(buf) + EncodeMembers(OBJECT, MembersFor(ms))
      {
        OneMember(ms[i..]);
        assert ms[i..][1..] == ms[i + 1..];
        StrBody(ms[i].0);
        assert ms[i].1 < ms[i];
        Write(ms[i].1);
      }
    }
  }

  // ---------------------------------------------------------------------
  // There and back
  // ---------------------------------------------------------------------

  /** A written tree, with anything around it, reads as itself and ends where it does, if there
      is room for its levels; without, it is too deep and nothing else. */
  lemma WrittenReads(v: Value, d: Bytes, p: nat, e: nat, depth: nat)
    requires IsTree(v) && depth <= MAX_DEPTH
    requires WellFormed(NodeFor(v)) && Spans(d, p, Encode(NodeFor(v)), e)
    ensures TreeOf(NodeFor(v)) == v
    ensures if depth + Levels(v) <= MAX_DEPTH then WValue(Build, d, p, depth) == Out.Ok(NodeFor(v), e)
            else WValue(Build, d, p, depth).Err? && WValue(Build, d, p, depth).code == ExceededMaxDepth
  {
    hide WValue, Encode, NodeFor;
    TreeMirrors(v);
    WalkDepth.FitsOrTooDeep(Build, d, p, depth, NodeFor(v), e);
  }

  /** Read a whole document: one value, and nothing after it. */
  method FromBeve(data: Bytes) returns (a: Answer<Value>)
    ensures var o := WValue(Build, data, 0, 0);
            a == if o.Err? then Result.Err(o.code)
                 else if o.pos != |data| then Result.Err(TrailingContent)
                 else Result.Ok(TreeOf(o.value))
  {
    var r := new Reader(data);
    a := Trees.Read(r);
    if a.Ok? && r.pos != |r.data| { a := Result.Err(TrailingContent); }
  }

  method ToBeve(v: Value) returns (data: Bytes)
    requires IsTree(v)
    ensures WellFormed(NodeFor(v)) && data == Encode(NodeFor(v))
  {
    var w := new Writer();
    w.Write(v);
    data := w.buf;
    assert [] + data == data;
  }

  /** Writing a tree and reading the document back gives the tree, for exactly the trees of at
      most 256 levels. */
  method WriteThenRead(v: Value) returns (a: Answer<Value>)
    requires IsTree(v)
    ensures a == if Levels(v) <= MAX_DEPTH then Result.Ok(v) else Result.Err(ExceededMaxDepth)
  {
    hide WValue, Encode, NodeFor, Levels;
    var data := ToBeve(v);
    assert data[0..|data|] == data;
    WrittenReads(v, data, 0, |data|, 0);
    a := FromBeve(data);
  }
}

/** The trees of the forms a tree is never written in: matrices, and arrays of booleans and
    of strings. */
module TreeTheorems {
  import opened Bits
  import opened Wrappers
  import opened Headers
  import opened Wire
  import opened Grammar
  import opened Walks
  import opened WalkProofs
  import opened Trees
  import AssocLists
  import PackedBools
  import WalkTheorems

  function Member(v: Value, key: string): Option<Value> {
    if v.Object? then AssocLists.Lookup(v.members, Ascii(key)) else None
  }

  lemma MatrixDispatch(d: Bytes, p: nat, depth: nat)
    requires p < |d| && d[p] == MATRIX
    ensures WValue(Build, d, p, depth) == WMatrix(Build, d, p + 1, depth)
  {
    hide WMatrix, WTagged, WComplex, WObject, WArray, WTyped, WNum, WText;
    ExtensionDispatch(Build, d, p + 1, MATRIX, depth);
    assert WExtension(Build, d, p + 1, MATRIX, depth) == WMatrix(Build, d, p + 1, depth);
  }

  lemma MatrixTreeOf(layout: u8, extents: Node, value: Node)
    ensures TreeOf(Mat(layout, extents, value)) == MatrixTree(layout, TreeOf(extents), TreeOf(value))
  {
  }

  /** A matrix's document reads as an object of three members: which of the two layouts its
      second byte is, the tree of the value after that under `extents`, and the tree of the
      value after that one under `value`. */
  lemma MatrixDocument(d: Bytes, p: nat, depth: nat)
    requires p < |d| && d[p] == MATRIX && WValue(Build, d, p, depth).Ok?
    ensures var r := WValue(Build, d, p, depth);
            var tree := TreeOf(r.value);
            var x := WValue(Build, d, p + 2, depth + 1);
            && x.Ok? && WValue(Build, d, x.pos, depth + 1).Ok? && WValue(Build, d, x.pos, depth + 1).pos == r.pos
            && tree.Object? && |tree.members| == 3
            && Member(tree, "extents") == Some(TreeOf(x.value))
            && Member(tree, "value") == Some(TreeOf(WValue(Build, d, x.pos, depth + 1).value))
            && (Member(tree, "layout") == Some(String(Ascii("layout_right"))) <==> d[p + 1] == LAYOUT_RIGHT)
            && (Member(tree, "layout") == Some(String(Ascii("layout_left"))) <==> d[p + 1] == LAYOUT_LEFT)
  {
    hide WValue, WMatrix, TreeOf, MatrixTree, Member, Ascii;
    MatrixDispatch(d, p, depth);
    MatrixIsPair(Build, d, p + 1, depth);
    var x := WValue(Build, d, p + 2, depth + 1);
    var y := WValue(Build, d, x.pos, depth + 1);
    MatrixTreeOf(d[p + 1], x.value, y.value);
    ThreeMembers(d[p + 1], TreeOf(x.value), TreeOf(y.value));
  }

  lemma ThreeMembers(layout: u8, extents: Value, value: Value)
    ensures var tree := MatrixTree(layout, extents, value);
            && tree.Object? && |tree.members| == 3
            && Member(tree, "extents") == Some(extents) && Member(tree, "value") == Some(value)
            && Member(tree, "layout") == Some(String(if layout == LAYOUT_RIGHT then Ascii("layout_right") else Ascii("layout_left")))
            && Ascii("layout_right") != Ascii("layout_left")
  {
    var e, l, v := Ascii("extents"), Ascii("layout"), Ascii("value");
    var keys := AssocLists.Keys(MatrixTree(layout, extents, value).members);
    assert keys == [l, e, v];
  }

  /** An array of packed booleans reads as them. */
  lemma BoolsDocument(z: Bytes, bits: seq<bool>, d: Bytes, p: nat, e: nat, depth: nat)
    requires IsSizeField(z) && SizeValue(z) == |bits| && depth < MAX_DEPTH
    requires Spans(d, p, [BOOL_ARRAY] + (z + PackedBools.Pack(bits)), e)
    ensures var r := WValue(Build, d, p, depth);
            && r.Ok? && r.pos == e && TreeOf(r.value).Array? && |TreeOf(r.value).items| == |bits|
            && forall i | 0 <= i < |bits| :: TreeOf(r.value).items[i] == Bool(bits[i])
  {
    hide PackedBools.Pack, PackedBools.Unpack, SizeValue, WValue, BoolPaddingOk;
    var node := BoolArr(z, PackedBools.Pack(bits));
    PackedBools.PackedUnpacks(bits);
    assert |PackedBools.Pack(bits)| == DivCeil8(|bits|);
    assert WellFormed(node);
    assert Accepts(Build, node);
    assert Encode(node) == [BOOL_ARRAY] + (z + PackedBools.Pack(bits));
    WalkTheorems.WalkIffEncoding(Build, d, p, depth, node, e);
  }

  function TextsFor(zs: seq<Bytes>, ss: seq<Bytes>): (r: seq<Text>)
    requires |zs| == |ss|
    ensures |r| == |ss|
  {
    if ss == [] then [] else [Text(zs[0], ss[0])] + TextsFor(zs[1..], ss[1..])
  }

  /** An array of strings, whichever size fields measure them, reads as them. */
  lemma StringsDocument(z: Bytes, zs: seq<Bytes>, ss: seq<Bytes>, d: Bytes, p: nat, e: nat, depth: nat)
    requires IsSizeField(z) && SizeValue(z) == |ss| == |zs| && depth < MAX_DEPTH
    requires forall i | 0 <= i < |ss| :: IsSizeField(zs[i]) && SizeValue(zs[i]) == |ss[i]| && ValidUtf8(ss[i])
    requires Spans(d, p, [STRING_ARRAY] + (z + EncodeTexts(TextsFor(zs, ss))), e)
    ensures var r := WValue(Build, d, p, depth);
            && r.Ok? && r.pos == e && TreeOf(r.value).Array? && |TreeOf(r.value).items| == |ss|
            && forall i | 0 <= i < |ss| :: TreeOf(r.value).items[i] == String(ss[i])
  {
    hide SizeValue, WValue, ValidUtf8, EncodeTexts, TextsFor, TextsFit, TextsOk;
    TextsAre(zs, ss);
    var node := StrArr(z, TextsFor(zs, ss));
    assert WellFormed(node);
    assert Accepts(Build, node);
    assert Encode(node) == [STRING_ARRAY] + (z + EncodeTexts(TextsFor(zs, ss)));
    WalkTheorems.WalkIffEncoding(Build, d, p, depth, node, e);
  }

  lemma {:induction false} TextsAre(zs: seq<Bytes>, ss: seq<Bytes>)
    requires |zs| == |ss|
    requires forall i | 0 <= i < |ss| :: IsSizeField(zs[i]) && SizeValue(zs[i]) == |ss[i]| && ValidUtf8(ss[i])
    ensures TextsFit(TextsFor(zs, ss)) && TextsOk(Build, TextsFor(zs, ss))
    ensures |Trees.Strings(TextsFor(zs, ss))| == |ss|
    ensures forall i | 0 <= i < |ss| :: Trees.Strings(TextsFor(zs, ss))[i] == String(ss[i])
    decreases |ss|
  {
    hide SizeValue, ValidUtf8;
    if ss != [] {
      TextsAre(zs[1..], ss[1..]);
      assert TextsFor(zs, ss)[1..] == TextsFor(zs[1..], ss[1..]);
    }
  }

  // ---------------------------------------------------------------------
  // Objects, whatever keys they repeat
  // ---------------------------------------------------------------------

  /** The members of an object as a tree has them: key text and the value's tree. */
  function Items(h: u8, members: seq<Grammar.Member>): (r: seq<(Bytes, Value)>)
    ensures |r| == |members|
  {
    seq(|members|, i requires 0 <= i < |members| => (KeyText(h, members[i].key), TreeOf(members[i].value)))
  }

  /** What the last of the items so keyed holds. */
  function LastOf(items: seq<(Bytes, Value)>, key: Bytes): Option<Value> {
    if items == [] then None
    else if items[|items| - 1].0 == key then Some(items[|items| - 1].1)
    else LastOf(items[..|items| - 1], key)
  }

  /** Each key once, where it first came. */
  function FirstKeys(items: seq<(Bytes, Value)>): seq<Bytes> {
    if items == [] then []
    else
      var keys, key := FirstKeys(items[..|items| - 1]), items[|items| - 1].0;
      if key in keys then keys else keys + [key]
  }

  lemma {:induction false} FilledIsInserted(entries: seq<(Bytes, Value)>, h: u8, members: seq<Grammar.Member>)
    ensures Filled(entries, h, members) == AssocLists.InsertedAll(entries, Items(h, members))
    decreases members, 0
  {
    hide AssocLists.Inserted, AssocLists.InsertedAll, TreeOf, KeyText;
    var items := Items(h, members);
    if members == [] {
      NoneInserted(entries);
    } else {
      assert items[1..] == Items(h, members[1..]);
      FilledIsInserted(AssocLists.Inserted(entries, items[0].0, items[0].1), h, members[1..]);
      AssocLists.InsertedAllFirst(entries, items);
    }
  }

  lemma NoneInserted(entries: seq<(Bytes, Value)>)
    ensures AssocLists.InsertedAll(entries, []) == entries
  {
  }

  lemma {:induction false} LastWins(items: seq<(Bytes, Value)>, key: Bytes)
    ensures var r := AssocLists.InsertedAll([], items);
            AssocLists.Distinct(r) && AssocLists.Keys(r) == FirstKeys(items) && AssocLists.Lookup(r, key) == LastOf(items, key)
    decreases |items|
  {
    hide AssocLists.Inserted, AssocLists.Lookup, AssocLists.ToMap, AssocLists.Distinct;
    if items == [] {
      NothingThere(key);
    } else {
      var front, last := items[..|items| - 1], items[|items| - 1];
      var r := AssocLists.InsertedAll([], front);
      LastWins(front, key);
      AssocLists.InsertedRefines(r, last.0, last.1);
      AssocLists.LookupRefines(r, key);
      AssocLists.LookupRefines(AssocLists.Inserted(r, last.0, last.1), key);
    }
  }

  lemma NothingThere(key: Bytes)
    ensures var none: seq<(Bytes, Value)> := [];
            AssocLists.Distinct(none) && AssocLists.Keys(none) == [] && AssocLists.Lookup(none, key) == None
  {
  }

  /** An object reads as its keys in the order they first came, each with the value of the last
      member so keyed. */
  lemma ObjectTree(h: u8, z: Bytes, members: seq<Grammar.Member>, key: Bytes)
    ensures var tree := TreeOf(Obj(h, z, members));
            && tree.Object? && AssocLists.Keys(tree.members) == FirstKeys(Items(h, members))
            && AssocLists.Lookup(tree.members, key) == LastOf(Items(h, members), key)
  {
    hide AssocLists.Lookup, AssocLists.InsertedAll, Filled, Items, LastOf, FirstKeys;
    FilledIsInserted([], h, members);
    LastWins(Items(h, members), key);
  }
}

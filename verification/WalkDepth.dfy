/** A value nested too deep is refused for that and nothing else. */
module WalkDepth {
  import opened Bits
  import opened Wrappers
  import opened Headers
  import opened Wire
  import opened Grammar
  import opened Walks
  import opened WalkProofs

  ghost predicate Refused<T>(r: Out<T>) {
    r.Err? && r.code == ExceededMaxDepth
  }

  lemma {:induction false} DeepBody(m: Mode, d: Bytes, p: nat, depth: nat, n: Node, e: nat)
    requires WellFormed(n) && Accepts(m, n) && depth <= MAX_DEPTH < depth + Nesting(n)
    requires Spans(d, p, EncodeBody(n), e)
    ensures Refused(WBody(m, d, p, HeaderOf(n), depth))
    decreases n, 1
  {
    hide WTagged, WMatrix, WObject, WArray, WTyped, WNum, WText, WComplex, EncodeBody, AllNesting, MemberNesting;
    if n.Obj? {
      DeepObject(m, d, p, depth, n, e);
    } else if n.Arr? {
      DeepArray(m, d, p, depth, n, e);
    } else if n.Tagged? {
      DeepTagged(m, d, p, depth, n, e);
      ExtensionDispatch(m, d, p, TYPE_TAG, depth);
      assert WExtension(m, d, p, TYPE_TAG, depth) == WTagged(m, d, p, depth);
    } else if n.Mat? {
      DeepMatrix(m, d, p, depth, n, e);
      ExtensionDispatch(m, d, p, MATRIX, depth);
      assert WExtension(m, d, p, MATRIX, depth) == WMatrix(m, d, p, depth);
    } else {
      assert depth == MAX_DEPTH && Ty(HeaderOf(n)) == TY_TYPED_ARRAY;
    }
  }

  lemma {:induction false} DeepObject(m: Mode, d: Bytes, p: nat, depth: nat, n: Node, e: nat)
    requires n.Obj? && WellFormed(n) && Accepts(m, n) && depth <= MAX_DEPTH < depth + Nesting(n)
    requires Spans(d, p, EncodeBody(n), e)
    ensures Refused(WObject(m, d, p, n.h, depth))
    decreases n, 0
  {
    hide SizeField, WMembers, SizeValue, EncodeMembers, AcceptsMembers, MembersWellFormed, MemberNesting;
    WalkedSize(d, p, n.z, EncodeMembers(n.h, n.members), e);
    if depth < MAX_DEPTH { DeepMembers(m, d, p + |n.z|, n.h, depth + 1, n.members, e); }
  }

  lemma {:induction false} DeepArray(m: Mode, d: Bytes, p: nat, depth: nat, n: Node, e: nat)
    requires n.Arr? && WellFormed(n) && Accepts(m, n) && depth <= MAX_DEPTH < depth + Nesting(n)
    requires Spans(d, p, EncodeBody(n), e)
    ensures Refused(WArray(m, d, p, depth))
    decreases n, 0
  {
    hide SizeField, WValues, SizeValue, EncodeAll, AcceptsAll, AllWellFormed, AllNesting;
    WalkedSize(d, p, n.z, EncodeAll(n.items), e);
    if depth < MAX_DEPTH { DeepValues(m, d, p + |n.z|, depth + 1, n.items, e); }
  }

  lemma {:induction false} DeepTagged(m: Mode, d: Bytes, p: nat, depth: nat, n: Node, e: nat)
    requires n.Tagged? && WellFormed(n) && Accepts(m, n) && depth <= MAX_DEPTH < depth + Nesting(n)
    requires Spans(d, p, EncodeBody(n), e)
    ensures Refused(WTagged(m, d, p, depth))
    decreases n, 0
  {
    hide SizeField, WValue, Encode, SizeValue;
    WalkedSize(d, p, n.z, Encode(n.value), e);
    assert Encode(n.value) == Encode(n.value) + [];
    if depth < MAX_DEPTH { DeepValue(m, d, p + |n.z|, depth + 1, n.value, [], e); }
  }

  lemma {:induction false} DeepMatrix(m: Mode, d: Bytes, p: nat, depth: nat, n: Node, e: nat)
    requires n.Mat? && WellFormed(n) && Accepts(m, n) && depth <= MAX_DEPTH < depth + Nesting(n)
    requires Spans(d, p, EncodeBody(n), e)
    ensures Refused(WMatrix(m, d, p, depth))
    decreases n, 0
  {
    hide Spans, WValue, WBody, Encode, EncodeBody, WellFormed, Accepts, Nesting;
    MatIs(m, n);
    WalkedHead(d, p, n.layout, Encode(n.extents) + Encode(n.value), e);
    assert d[p..p + 1] == [n.layout];
    if depth < MAX_DEPTH {
      if depth + 1 + Nesting(n.extents) > MAX_DEPTH {
        DeepValue(m, d, p + 1, depth + 1, n.extents, Encode(n.value), e);
      } else {
        WalkedValue(m, d, p + 1, depth + 1, n.extents, Encode(n.value), e);
        assert Encode(n.value) == Encode(n.value) + [];
        DeepValue(m, d, p + 1 + |Encode(n.extents)|, depth + 1, n.value, [], e);
      }
    }
  }

  lemma {:induction false} DeepValue(m: Mode, d: Bytes, p: nat, depth: nat, n: Node, rest: Bytes, e: nat)
    requires WellFormed(n) && Accepts(m, n) && depth <= MAX_DEPTH < depth + Nesting(n)
    requires Spans(d, p, Encode(n) + rest, e)
    ensures Refused(WValue(m, d, p, depth))
    decreases n, 2
  {
    hide WBody, EncodeBody;
    SpanSplit(d, p, Encode(n), rest, e);
    WalkedHead(d, p, HeaderOf(n), EncodeBody(n), p + |Encode(n)|);
    DeepBody(m, d, p + 1, depth, n, p + |Encode(n)|);
  }

  lemma {:induction false} DeepValues(m: Mode, d: Bytes, p: nat, depth: nat, items: seq<Node>, e: nat)
    requires AllWellFormed(items) && AcceptsAll(m, items) && depth <= MAX_DEPTH < depth + AllNesting(items)
    requires Spans(d, p, EncodeAll(items), e)
    ensures Refused(WValues(m, d, p, |items|, depth))
    decreases items, 0
  {
    hide WValue, Encode, WellFormed, Accepts, Nesting;
    var rest := items[1..];
    if depth + Nesting(items[0]) > MAX_DEPTH {
      DeepValue(m, d, p, depth, items[0], EncodeAll(rest), e);
    } else {
      WalkedValue(m, d, p, depth, items[0], EncodeAll(rest), e);
      DeepValues(m, d, p + |Encode(items[0])|, depth, rest, e);
    }
  }

  lemma {:induction false} DeepMembers(m: Mode, d: Bytes, p: nat, h: u8, depth: nat, members: seq<Member>, e: nat)
    requires MembersWellFormed(h, members) && AcceptsMembers(m, h, members) && KeyWidth(h).Some?
    requires depth <= MAX_DEPTH < depth + MemberNesting(members) && Spans(d, p, EncodeMembers(h, members), e)
    ensures Refused(WMembers(m, d, p, h, |members|, depth))
    decreases members, 0
  {
    hide WValue, WKey, Encode, EncodeText, WellFormed, Accepts, Nesting, KeyFits;
    var x, rest := members[0], members[1..];
    var q := p + |x.z + x.key|;
    WalkedKey(m, d, p, h, x, Encode(x.value) + EncodeMembers(h, rest), e);
    if depth + Nesting(x.value) > MAX_DEPTH {
      DeepValue(m, d, q, depth, x.value, EncodeMembers(h, rest), e);
    } else {
      WalkedValue(m, d, q, depth, x.value, EncodeMembers(h, rest), e);
      DeepMembers(m, d, q + |Encode(x.value)|, h, depth, rest, e);
    }
  }

  /** A value a mode takes is walked, or is nested too deep and refused for that. */
  lemma FitsOrTooDeep(m: Mode, d: Bytes, p: nat, depth: nat, n: Node, e: nat)
    requires WellFormed(n) && Accepts(m, n) && depth <= MAX_DEPTH && Spans(d, p, Encode(n), e)
    ensures if depth + Nesting(n) <= MAX_DEPTH then WValue(m, d, p, depth) == Out.Ok(n, e)
            else WValue(m, d, p, depth).Err? && WValue(m, d, p, depth).code == ExceededMaxDepth
  {
    hide WValue, Encode;
    assert Encode(n) == Encode(n) + [];
    if depth + Nesting(n) <= MAX_DEPTH {
      WalkedValue(m, d, p, depth, n, [], e);
    } else {
      DeepValue(m, d, p, depth, n, [], e);
    }
  }
}

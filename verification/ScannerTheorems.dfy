/** The resumable walk against the walk that sees the whole input. However the bytes arrive,
    the scanner answers as `WValue` skipping the value would, but for one input: one that ends
    just past the header of a matrix standing at the depth limit. */
module ScannerTheorems {
  import opened Bits
  import opened Wrappers
  import opened Headers
  import opened Wire
  import opened Grammar
  import opened Walks
  import opened WalkTheorems
  import opened WalkShift
  import opened Scanners

  // ---------------------------------------------------------------------
  // What a scan has left to walk
  // ---------------------------------------------------------------------

  /** A walk's answer without the value. */
  function Bare<T>(r: Out<T>): Out<()> {
    match r case Ok(_, e) => Out.Ok((), e) case Err(code, e) => Out.Err(code, e)
  }

  function OwedKey(d: Bytes, p: nat, cat: u8, width: nat): (r: Out<()>)
    ensures r.Ok? ==> p <= r.pos <= |d|
  {
    if cat == CAT_FLOAT then Bare(WText(Skip, d, p)) else Bare(Take(d, p, width))
  }

  function OwedMembers(d: Bytes, p: nat, cat: u8, width: nat, n: nat, depth: nat): (r: Out<()>)
    requires p <= |d|
    ensures r.Ok? ==> p <= r.pos <= |d|
    decreases n
  {
    if n == 0 then Out.Ok((), p)
    else
      var (_, p1) :- OwedKey(d, p, cat, width);
      var (_, p2) :- WValue(Skip, d, p1, depth);
      OwedMembers(d, p2, cat, width, n - 1, depth)
  }

  /** What an open container still owes, walked from `p`. */
  function OwedBy(d: Bytes, p: nat, f: Frame, depth: nat): (r: Out<()>)
    requires p <= |d|
    ensures r.Ok? ==> p <= r.pos <= |d|
  {
    if f.left == 0 then Out.Ok((), p)
    else
      match f
      case Values(left) => Bare(WValues(Skip, d, p, left, depth))
      case Strings(left) => Bare(WTexts(Skip, d, p, left))
      case Object(cat, width, left, key) =>
        if key then OwedMembers(d, p, cat, width, left, depth)
        else
          var (_, p1) :- WValue(Skip, d, p, depth);
          OwedMembers(d, p1, cat, width, left - 1, depth)
  }

  /** What all the open containers owe, the innermost first. */
  function Owed(d: Bytes, p: nat, stack: seq<Frame>, outer: nat): (r: Out<()>)
    requires p <= |d|
    ensures r.Ok? ==> p <= r.pos <= |d|
    decreases |stack|
  {
    if stack == [] then Out.Ok((), p)
    else
      var (_, p1) :- OwedBy(d, p, Top(stack), outer + |stack|);
      Owed(d, p1, Below(stack), outer)
  }

  predicate Fits(d: Bytes, s: Scan) {
    s.pos <= |d| && (!s.started ==> s.stack == [] && s.pending == 0)
  }

  /** The rest of the value a scan is in. */
  function Rest(d: Bytes, s: Scan, outer: nat): (r: Out<()>)
    requires Fits(d, s)
  {
    if !s.started then Bare(WValue(Skip, d, s.pos, outer))
    else
      var (_, p) :- Take(d, s.pos, s.pending);
      Owed(d, p, s.stack, outer)
  }

  // ---------------------------------------------------------------------
  // A preamble against the walk of its value
  // ---------------------------------------------------------------------

  /** The rest of a value, past its preamble. */
  function Through(d: Bytes, p: nat, o: Opening, depth: nat): (r: Out<()>)
    requires p <= |d|
    ensures r.Ok? ==> p <= r.pos <= |d|
  {
    var (_, p1) :- Take(d, p, o.skip);
    if o.frame.None? then Out.Ok((), p1) else OwedBy(d, p1, o.frame.value, depth + 1)
  }

  /** The header at `p` is a matrix's, at the depth limit, and nothing follows it. The walk
      takes the layout byte before the level and finds the input over; the scanner takes the
      level first and refuses it. */
  predicate LastMatrix(d: Bytes, p: nat, depth: nat) {
    p + 1 == |d| && d[p] == MATRIX && depth >= MAX_DEPTH
  }

  /** A preamble's answer against the walk of the whole value. */
  predicate OpensAs(d: Bytes, w: Out<()>, s: Out<Opening>, depth: nat) {
    match s
    case Ok(o, p) => p <= |d| && w == Through(d, p, o, depth)
    case Err(code, _) => w.Err? && w.code == code
  }

  lemma HeadOpens(d: Bytes, p: nat, depth: nat)
    ensures var w := Bare(WValue(Skip, d, p, depth));
            var s := ScanHead(d, p, depth);
            if LastMatrix(d, p, depth) then
              w == Out.Err(UnexpectedEnd, |d|) && s.Err? && s.code == ExceededMaxDepth
            else OpensAs(d, w, s, depth)
  {
    hide WValue, WObject, WArray, WTyped, WExtension, ScanObject, ScanArray, ScanTyped, ScanExtension, OwedBy;
    if p >= |d| {
      NoHead(d, p, depth);
      return;
    }
    var h := d[p];
    BodyWalk(d, p, depth);
    if Ty(h) == TY_OBJECT {
      OpensObject(d, p + 1, h, depth);
    } else if Ty(h) == TY_TYPED_ARRAY {
      OpensTyped(d, p + 1, h, depth);
    } else if Ty(h) == TY_EXTENSION {
      OpensExtension(d, p + 1, h, depth);
    } else if Ty(h) == TY_GENERIC_ARRAY {
      OpensArray(d, p + 1, h, depth);
    } else {
      OpensPlain(d, p, h, depth);
    }
  }

  lemma NoHead(d: Bytes, p: nat, depth: nat)
    requires p >= |d|
    ensures WValue(Skip, d, p, depth) == Out.Err(UnexpectedEnd, p)
  {
  }

  lemma OpensPlain(d: Bytes, p: nat, h: u8, depth: nat)
    requires p < |d| && d[p] == h
    requires Ty(h) in {TY_NULL_BOOL, TY_NUMBER, TY_STRING, TY_UNDEFINED}
    ensures OpensAs(d, Bare(WBody(Skip, d, p + 1, h, depth)), ScanHead(d, p, depth), depth)
  {
    hide SizeField, SizeValue, FixedWidth, OwedBy, WObject, WArray, WTyped, WExtension;
  }

  lemma BodyWalk(d: Bytes, p: nat, depth: nat)
    requires p < |d|
    ensures WValue(Skip, d, p, depth) == WBody(Skip, d, p + 1, d[p], depth)
  {
  }

  lemma OpensObject(d: Bytes, p: nat, h: u8, depth: nat)
    requires p <= |d|
    ensures OpensAs(d, Bare(WObject(Skip, d, p, h, depth)), ScanObject(d, p, h, depth), depth)
  {
    hide SizeField, SizeValue, KeyWidth, OwedMembers, WMembers;
    var z := SizeField(d, p);
    if KeyWidth(h).Some? && z.Ok? {
      MembersOwed(d, z.pos, h, SizeValue(z.value), depth + 1);
      NoneOwed(d, z.pos, Sub(h), KeyWidth(h).value, depth + 1);
    }
  }

  lemma NoneOwed(d: Bytes, p: nat, cat: u8, width: nat, depth: nat)
    requires p <= |d|
    ensures OwedMembers(d, p, cat, width, 0, depth) == Out.Ok((), p)
  {
  }

  lemma {:induction false} MembersOwed(d: Bytes, p: nat, h: u8, n: nat, depth: nat)
    requires p <= |d| && KeyWidth(h).Some?
    ensures Bare(WMembers(Skip, d, p, h, n, depth)) == OwedMembers(d, p, Sub(h), KeyWidth(h).value, n, depth)
    decreases n
  {
    hide WValue, WText, KeyWidth;
    if n > 0 {
      var key := WKey(Skip, d, p, h);
      if key.Ok? {
        var x := WValue(Skip, d, key.pos, depth);
        if x.Ok? { MembersOwed(d, x.pos, h, n - 1, depth); }
      }
    }
  }

  lemma OpensArray(d: Bytes, p: nat, h: u8, depth: nat)
    requires p <= |d|
    ensures if BareHeader(h) then OpensAs(d, Bare(WArray(Skip, d, p, depth)), ScanArray(d, p, h, depth), depth)
            else ScanArray(d, p, h, depth) == Out.Err(InvalidHeader, p)
  {
    hide SizeField, SizeValue, WValues;
    var z := SizeField(d, p);
    if z.Ok? { NoValues(d, z.pos, depth + 1); }
  }

  lemma OpensTyped(d: Bytes, p: nat, h: u8, depth: nat)
    requires p <= |d|
    ensures if depth >= MAX_DEPTH then ScanTyped(d, p, h, depth) == Out.Err(ExceededMaxDepth, p)
            else OpensAs(d, Bare(WTyped(Skip, d, p, h)), ScanTyped(d, p, h, depth), depth)
  {
    hide TypedHead, SizeValue, FixedWidth, WTexts, OwedMembers, WValues;
    var form := TypedHead(d, p, h);
    if form.Ok? && form.value.Strings? { NoTexts(d, form.pos); }
  }

  lemma OpensExtension(d: Bytes, p: nat, h: u8, depth: nat)
    requires p <= |d|
    ensures var w := Bare(WExtension(Skip, d, p, h, depth));
            var s := ScanExtension(d, p, h, depth);
            if p == |d| && ExtId(h) == EXT_MATRIX && depth >= MAX_DEPTH then
              w == Out.Err(UnexpectedEnd, |d|) && s == Out.Err(ExceededMaxDepth, p)
            else OpensAs(d, w, s, depth)
  {
    if ExtId(h) == EXT_TYPE_TAG {
      OpensTagged(d, p, depth);
      hide WTagged, OwedBy;
    } else if ExtId(h) == EXT_MATRIX {
      hide WValue, WValues, OwedMembers, WTexts;
      if p + 1 <= |d| { TwoValues(d, p + 1, depth + 1); }
    } else {
      hide ComplexHead, FixedWidth, SizeValue, WTagged, WMatrix, OwedBy;
    }
  }

  lemma OpensTagged(d: Bytes, p: nat, depth: nat)
    requires p <= |d|
    ensures var z := SizeField(d, p);
            OpensAs(d, Bare(WTagged(Skip, d, p, depth)), if z.Ok? then Opened(depth, z.pos, 0, Values(1)) else Out.Err(z.code, z.pos), depth)
  {
    hide SizeField, WValue, WValues, OwedMembers, WTexts;
    var z := SizeField(d, p);
    if z.Ok? { OneValue(d, z.pos, depth + 1); }
  }

  lemma NoTexts(d: Bytes, p: nat)
    requires p <= |d|
    ensures WTexts(Skip, d, p, 0) == Out.Ok([], p)
  {
  }

  lemma NoValues(d: Bytes, p: nat, depth: nat)
    requires p <= |d|
    ensures WValues(Skip, d, p, 0, depth) == Out.Ok([], p)
  {
  }

  lemma OneValue(d: Bytes, p: nat, depth: nat)
    requires p <= |d|
    ensures Bare(WValues(Skip, d, p, 1, depth)) == Bare(WValue(Skip, d, p, depth))
  {
    hide WValue;
  }

  lemma TwoValues(d: Bytes, p: nat, depth: nat)
    requires p <= |d|
    ensures Bare(WValues(Skip, d, p, 2, depth)) ==
            var x := WValue(Skip, d, p, depth); if x.Err? then Bare(x) else Bare(WValue(Skip, d, x.pos, depth))
  {
    hide WValue;
    var x := WValue(Skip, d, p, depth);
    if x.Ok? { OneValue(d, x.pos, depth); }
  }

  /** What a preamble settled, more input does not unsettle. */
  lemma HeadStays(d: Bytes, p: nat, depth: nat, c: nat)
    requires p <= c <= |d|
    ensures var r := ScanHead(d[..c], p, depth);
            r.Ok? || r.code != UnexpectedEnd ==> ScanHead(d, p, depth) == r
  {
    hide SizeField, TypedHead, ComplexHead, FixedWidth, SizeValue, KeyWidth;
    if p < c {
      CutSize(d, p + 1, c);
      CutTypedHead(d, p + 1, d[p], c);
      CutComplexHead(d, p + 1, c);
    }
  }

  // ---------------------------------------------------------------------
  // Every step keeps what is left to walk
  // ---------------------------------------------------------------------

  /** Whether a payload runs past the end of the input. */
  predicate Overruns(d: Bytes, s: Scan) {
    s.pos + s.pending > |d|
  }

  /** Going on from `t` answers as going on from `s` does. */
  ghost predicate Keeps(d: Bytes, s: Scan, t: Scan, outer: nat)
    requires Fits(d, s) && Fits(d, t)
  {
    if Overruns(d, t) then
      Rest(d, s, outer).Err? && Rest(d, s, outer).code == UnexpectedEnd && Rest(d, s, outer).pos <= t.pos
    else Rest(d, s, outer) == Rest(d, t, outer)
  }

  lemma DrainKeeps(d: Bytes, c: nat, s: Scan, outer: nat)
    requires c <= |d| && Fits(d[..c], s)
    ensures var t := Drained(d[..c], s);
            Fits(d[..c], t) && Fits(d, s) && Fits(d, t) && Keeps(d, s, t, outer)
  {
    hide WValue, Owed;
  }

  lemma {:induction false} SettleKeeps(d: Bytes, p: nat, stack: seq<Frame>, outer: nat)
    requires p <= |d|
    ensures Owed(d, p, Settled(stack), outer) == Owed(d, p, stack, outer)
    decreases |stack|
  {
    hide OwedMembers, WValues, WTexts, WValue;
    if stack != [] && Top(stack).left == 0 { SettleKeeps(d, p, Below(stack), outer); }
  }

  /** A value taken from a container: the value, and then what the container owes without it. */
  lemma OwedValue(d: Bytes, p: nat, f: Frame, depth: nat)
    requires p <= |d| && f.left > 0 && (f.Values? || (f.Object? && !f.key))
    ensures OwedBy(d, p, f, depth) ==
            var x := WValue(Skip, d, p, depth);
            if x.Err? then Bare(x) else OwedBy(d, x.pos, TakenFrom(f), depth)
  {
    hide WValue, OwedMembers;
    var x := WValue(Skip, d, p, depth);
    if x.Ok? {
      if f.Object? { NoneOwed(d, x.pos, f.cat, f.width, depth); } else { NoValues(d, x.pos, depth); }
    }
  }

  lemma OwedText(d: Bytes, p: nat, f: Frame, depth: nat)
    requires p <= |d| && f.left > 0 && f.Strings?
    ensures OwedBy(d, p, f, depth) ==
            var x := WText(Skip, d, p);
            if x.Err? then Bare(x) else OwedBy(d, x.pos, TakenFrom(f), depth)
  {
    hide WText;
  }

  lemma OwedName(d: Bytes, p: nat, f: Frame, depth: nat)
    requires p <= |d| && f.left > 0 && f.Object? && f.key
    ensures OwedBy(d, p, f, depth) ==
            var x := OwedKey(d, p, f.cat, f.width);
            if x.Err? then Bare(x) else OwedBy(d, x.pos, TakenFrom(f), depth)
  {
    hide OwedKey, WValue;
  }

  lemma TakenParts(s: Scan)
    requires s.stack != [] && Top(s.stack).left > 0
    ensures var t := Taken(s).stack; |t| == |s.stack| && Top(t) == TakenFrom(Top(s.stack)) && Below(t) == Below(s.stack)
  {
  }

  lemma PushedParts(stack: seq<Frame>, f: Frame)
    ensures Top(stack + [f]) == f && Below(stack + [f]) == stack
  {
  }

  /** Going on to the containers further out. */
  function Then(d: Bytes, r: Out<()>, stack: seq<Frame>, outer: nat): Out<()>
    requires r.Ok? ==> r.pos <= |d|
  {
    if r.Err? then r else Owed(d, r.pos, stack, outer)
  }

  /** What the innermost container owes, and then the others. */
  lemma OwedTop(d: Bytes, p: nat, stack: seq<Frame>, outer: nat)
    requires p <= |d| && stack != []
    ensures Owed(d, p, stack, outer) == Then(d, OwedBy(d, p, Top(stack), outer + |stack|), Below(stack), outer)
  {
    hide OwedBy;
  }

  /** Meeting a duty on the part of the input there is leaves the same to walk on all of it. */
  lemma MeetKeeps(d: Bytes, c: nat, s: Scan, outer: nat)
    requires c <= |d| && Fits(d[..c], s) && s.pending == 0
    requires s.stack == [] || Top(s.stack).left > 0
    requires s.started ==> s.stack != []
    requires Meet(d[..c], s, outer).Found?
    ensures var t := Meet(d[..c], s, outer).value;
            Fits(d[..c], t) && t.started && Rest(d, s, outer) == Rest(d, t, outer)
  {
    hide Rest, Meet;
    if DutyOf(s.stack).DueValue? {
      MeetValue(d, c, s, outer);
    } else if DutyOf(s.stack).DueText? || DutyOf(s.stack).cat == CAT_FLOAT {
      MeetSized(d, c, s, outer);
    } else {
      MeetFixed(d, c, s, outer);
    }
  }

  lemma MeetFixed(d: Bytes, c: nat, s: Scan, outer: nat)
    requires c <= |d| && Fits(d[..c], s) && s.pending == 0 && s.started
    requires s.stack != [] && Top(s.stack).left > 0
    requires DutyOf(s.stack).DueKey? && DutyOf(s.stack).cat != CAT_FLOAT
    requires Meet(d[..c], s, outer).Found?
    ensures var t := Meet(d[..c], s, outer).value;
            Fits(d[..c], t) && t.started && Rest(d, s, outer) == Rest(d, t, outer)
  {
    hide WValue, OwedMembers, Owed, OwedBy;
    TakenParts(s);
    var f := Top(s.stack);
    var depth := outer + |s.stack|;
    OwedName(d, s.pos, f, depth);
    var t := Meet(d[..c], s, outer).value;
    OwedTop(d, s.pos, s.stack, outer);
    OwedTop(d, t.pos, t.stack, outer);
  }

  lemma MeetSized(d: Bytes, c: nat, s: Scan, outer: nat)
    requires c <= |d| && Fits(d[..c], s) && s.pending == 0 && s.started
    requires s.stack != [] && Top(s.stack).left > 0
    requires DutyOf(s.stack).DueText? || (DutyOf(s.stack).DueKey? && DutyOf(s.stack).cat == CAT_FLOAT)
    requires Meet(d[..c], s, outer).Found?
    ensures var t := Meet(d[..c], s, outer).value;
            Fits(d[..c], t) && t.started && Rest(d, s, outer) == Rest(d, t, outer)
  {
    hide WValue, OwedMembers, Owed, OwedBy, SizeField, SizeValue;
    TakenParts(s);
    CutSize(d, s.pos, c);
    var f := Top(s.stack);
    var depth := outer + |s.stack|;
    if f.Strings? { OwedText(d, s.pos, f, depth); } else { OwedName(d, s.pos, f, depth); }
    var t := Meet(d[..c], s, outer).value;
    OwedTop(d, s.pos, s.stack, outer);
    var body := Take(d, t.pos, t.pending);
    if body.Ok? {
      OwedTop(d, body.pos, t.stack, outer);
    }
  }

  lemma MeetValue(d: Bytes, c: nat, s: Scan, outer: nat)
    requires c <= |d| && Fits(d[..c], s) && s.pending == 0
    requires s.stack == [] || Top(s.stack).left > 0
    requires s.started ==> s.stack != []
    requires DutyOf(s.stack).DueValue? && Meet(d[..c], s, outer).Found?
    ensures var t := Meet(d[..c], s, outer).value;
            Fits(d[..c], t) && t.started && Rest(d, s, outer) == Rest(d, t, outer)
  {
    hide WValue, OwedMembers, Owed, OwedBy, ScanHead, LastMatrix, SizeField, WText, Rest, Through;
    var depth := outer + |s.stack|;
    HeadStays(d, s.pos, depth, c);
    HeadOpens(d, s.pos, depth);
    var head := ScanHead(d, s.pos, depth);
    RestOfValue(d, s, outer);
    RestOfOpening(d, s, head.value, head.pos, outer);
  }

  /** What is left before a value: the value, and then what its container owes without it. */
  lemma RestOfValue(d: Bytes, s: Scan, outer: nat)
    requires Fits(d, s) && s.pending == 0 && (s.stack == [] || Top(s.stack).left > 0) && (s.started ==> s.stack != [])
    requires DutyOf(s.stack).DueValue?
    ensures Rest(d, s, outer) == Then(d, Bare(WValue(Skip, d, s.pos, outer + |s.stack|)), Taken(s).stack, outer)
  {
    hide WValue, OwedMembers, Owed, OwedBy;
    var depth := outer + |s.stack|;
    if s.stack == [] {
      NoContainers(d, outer);
    } else {
      OwedValue(d, s.pos, Top(s.stack), depth);
      OwedTop(d, s.pos, s.stack, outer);
    }
    TakenOwed(d, s, Bare(WValue(Skip, d, s.pos, depth)), outer);
  }

  lemma NoContainers(d: Bytes, outer: nat)
    ensures forall p: nat | p <= |d| :: Owed(d, p, [], outer) == Out.Ok((), p)
  {
  }

  /** What is left once a value's preamble is taken: the rest of it, and then the same. */
  lemma RestOfOpening(d: Bytes, s: Scan, o: Opening, p: nat, outer: nat)
    requires p <= |d| && (s.stack == [] || Top(s.stack).left > 0) && (s.started <==> s.stack != [])
    ensures var taken := Taken(s.(pos := p, pending := o.skip));
            var t := if o.frame.Some? then taken.(stack := taken.stack + [o.frame.value]) else taken;
            && t.started && Fits(d, t)
            && Rest(d, t, outer) == Then(d, Through(d, p, o, outer + |s.stack|), Taken(s).stack, outer)
  {
    hide OwedBy, Owed;
    var body := Take(d, p, o.skip);
    var stack := Taken(s).stack;
    if s.stack != [] { TakenParts(s); }
    if body.Ok? && o.frame.Some? {
      PushedParts(stack, o.frame.value);
      OwedTop(d, body.pos, stack + [o.frame.value], outer);
    }
  }

  /** Past the value taken from the innermost container, the rest of it and of all outside. */
  lemma TakenOwed(d: Bytes, s: Scan, r: Out<()>, outer: nat)
    requires s.stack == [] || Top(s.stack).left > 0
    requires r.Ok? ==> r.pos <= |d|
    ensures s.stack == [] ==> Then(d, r, [], outer) == r
    ensures s.stack != [] && r.Ok? ==>
              Then(d, r, Taken(s).stack, outer) ==
              Then(d, OwedBy(d, r.pos, TakenFrom(Top(s.stack)), outer + |s.stack|), Below(s.stack), outer)
  {
    if s.stack == [] {
      assert r.Ok? ==> r.value == ();
    } else {
      TakenParts(s);
      hide OwedBy;
    }
  }

  lemma SettledRest(d: Bytes, s: Scan, outer: nat)
    requires Fits(d, s)
    ensures Fits(d, s.(stack := Settled(s.stack))) && Rest(d, s.(stack := Settled(s.stack)), outer) == Rest(d, s, outer)
  {
    hide WValue, Owed;
    if s.pos + s.pending <= |d| { SettleKeeps(d, s.pos + s.pending, s.stack, outer); }
  }

  lemma {:induction false} AdvanceKeeps(d: Bytes, c: nat, s: Scan, outer: nat)
    requires c <= |d| && Fits(d[..c], s)
    ensures var t := Advanced(d[..c], s, outer).0;
            Fits(d[..c], t) && Fits(d, s) && Fits(d, t) && Keeps(d, s, t, outer)
    decreases c - s.pos, |s.stack|, DutyOf(s.stack).DueKey?
  {
    hide Rest, Meet, Settled, Owed;
    DrainKeeps(d, c, s, outer);
    var t := Drained(d[..c], s);
    if t.pending > 0 { return; }
    var u := t.(stack := Settled(t.stack));
    SettledRest(d, t, outer);
    if u.started && u.stack == [] { return; }
    if Meet(d[..c], u, outer).Found? {
      MeetKeeps(d, c, u, outer);
      AdvanceKeeps(d, c, Meet(d[..c], u, outer).value, outer);
    }
  }

  /** Where an advance stops, and why. */
  ghost predicate Stops(d: Bytes, s: Scan, outer: nat, r: Answer<nat>) {
    match r
    case Found(e) => s == Scan(e, 0, [], true)
    case Short => (s.pos == |d| && s.pending > 0 && s.started) || (Ready(s) && Meet(d, s, outer).Short?)
    case Refused(code) => Ready(s) && Meet(d, s, outer) == Refused(code)
  }

  predicate Ready(s: Scan) {
    s.pending == 0 && (s.stack == [] || Top(s.stack).left > 0) && (s.started ==> s.stack != [])
  }

  lemma {:induction false} AdvanceStops(d: Bytes, s: Scan, outer: nat)
    requires Fits(d, s)
    ensures Stops(d, Advanced(d, s, outer).0, outer, Advanced(d, s, outer).1)
    decreases |d| - s.pos, |s.stack|, DutyOf(s.stack).DueKey?
  {
    hide Meet, Settled;
    var t := Drained(d, s);
    if t.pending > 0 { return; }
    var u := t.(stack := Settled(t.stack));
    if u.started && u.stack == [] { return; }
    if Meet(d, u, outer).Found? {
      assert d[..|d|] == d;
      MeetKeeps(d, |d|, u, outer);
      AdvanceStops(d, Meet(d, u, outer).value, outer);
    }
  }

  // ---------------------------------------------------------------------
  // Stopping short
  // ---------------------------------------------------------------------

  /** The input ends just past the header of a matrix that stands at the depth limit: the walk
      finds the input over there, and one byte more makes it a refusal of the depth. */
  predicate EndsAtDeepMatrix(d: Bytes, p: nat, outer: nat) {
    && WValue(Skip, d, p, outer).Err?
    && d != [] && d[|d| - 1] == MATRIX
    && DeepMatrix(Bare(WValue(Skip, d, p, outer)), Bare(WValue(Skip, d + [0], p, outer)), |d|)
  }

  predicate DeepMatrix(here: Out<()>, further: Out<()>, end: nat) {
    here == Out.Err(UnexpectedEnd, end) && further.Err? && further.code == ExceededMaxDepth
  }

  /** A walk with no bytes left ends well or early: it has no header to open a container by. */
  lemma {:induction false} NoBytes(d: Bytes, stack: seq<Frame>, outer: nat)
    ensures var r := Owed(d, |d|, stack, outer);
            if r.Ok? then r.pos == |d| else r.code == UnexpectedEnd
    decreases |stack|
  {
    hide WValue;
    if stack == [] { return; }
    NoBytesFor(d, Top(stack), outer + |stack|);
    var r := OwedBy(d, |d|, Top(stack), outer + |stack|);
    if r.Ok? { NoBytes(d, Below(stack), outer); }
  }

  lemma NoBytesFor(d: Bytes, f: Frame, depth: nat)
    ensures var r := OwedBy(d, |d|, f, depth);
            if r.Ok? then r.pos == |d| else r.code == UnexpectedEnd
  {
    assert WValue(Skip, d, |d|, depth) == Out.Err(UnexpectedEnd, |d|);
    hide WValue;
  }

  /** A scan that stopped for want of bytes has a walk that ends early, and not at a matrix. */
  lemma ShortEnds(d: Bytes, s: Scan, outer: nat)
    requires Fits(d, s) && Stops(d, s, outer, Short)
    ensures Rest(d, s, outer).Err? && Rest(d, s, outer).code == UnexpectedEnd
    ensures Overruns(d, s) ==> Rest(d, s, outer).pos == |d|
    ensures d != [] && d[|d| - 1] == MATRIX && !Overruns(d + [0], s) ==>
              !DeepMatrix(Rest(d, s, outer), Rest(d + [0], s, outer), |d|)
  {
    hide WValue, Owed, Meet, OwedBy;
    if s.pending > 0 {
      if s.pos + s.pending == |d| + 1 { NoBytes(d + [0], s.stack, outer); }
    } else if DutyOf(s.stack).DueValue? {
      ShortValue(d, s, outer);
    } else {
      ShortKey(d, s, outer);
    }
  }

  lemma ShortKey(d: Bytes, s: Scan, outer: nat)
    requires Fits(d, s) && Ready(s) && Meet(d, s, outer).Short? && !DutyOf(s.stack).DueValue?
    ensures Rest(d, s, outer).Err? && Rest(d, s, outer).code == UnexpectedEnd
    ensures !DeepMatrix(Rest(d, s, outer), Rest(d + [0], s, outer), |d|)
  {
    hide WValue, OwedBy, Owed;
    var f := Top(s.stack);
    var depth := outer + |s.stack|;
    var d' := d + [0];
    TakenParts(s);
    if f.Strings? {
      OwedText(d, s.pos, f, depth);
      OwedText(d', s.pos, f, depth);
    } else {
      OwedName(d, s.pos, f, depth);
      OwedName(d', s.pos, f, depth);
    }
    OwedTop(d, s.pos, s.stack, outer);
    OwedTop(d', s.pos, s.stack, outer);
    if s.pos == |d| {
      OwedTop(d', |d'|, Taken(s).stack, outer);
      NoBytes(d', Taken(s).stack, outer);
      assert d'[|d|] == 0;
    }
  }

  lemma ShortValue(d: Bytes, s: Scan, outer: nat)
    requires Fits(d, s) && Ready(s) && Meet(d, s, outer).Short? && DutyOf(s.stack).DueValue?
    ensures Rest(d, s, outer).Err? && Rest(d, s, outer).code == UnexpectedEnd
    ensures d != [] && d[|d| - 1] == MATRIX ==> !DeepMatrix(Rest(d, s, outer), Rest(d + [0], s, outer), |d|)
  {
    hide WValue, OwedBy, Owed, ScanHead;
    var depth := outer + |s.stack|;
    var d' := d + [0];
    HeadOpens(d, s.pos, depth);
    HeadShort(d, s.pos, depth);
    var x := WValue(Skip, d', s.pos, depth);
    if s.stack != [] {
      var f := Top(s.stack);
      TakenParts(s);
      OwedValue(d, s.pos, f, depth);
      OwedValue(d', s.pos, f, depth);
      OwedTop(d, s.pos, s.stack, outer);
      OwedTop(d', s.pos, s.stack, outer);
      if x.Ok? {
        OwedTop(d', x.pos, Taken(s).stack, outer);
        if x.pos == |d'| { NoBytes(d', Taken(s).stack, outer); }
      }
    }
  }

  /** A preamble that ran out of bytes is not a matrix's. */
  lemma HeadShort(d: Bytes, p: nat, depth: nat)
    requires p <= |d| && ScanHead(d, p, depth).Err? && ScanHead(d, p, depth).code == UnexpectedEnd
    ensures WValue(Skip, d, p, depth).Err? && WValue(Skip, d, p, depth).code == UnexpectedEnd
    ensures d != [] && d[|d| - 1] == MATRIX && WValue(Skip, d, p, depth).pos == |d| ==>
              var x := WValue(Skip, d + [0], p, depth);
              if x.Ok? then x.pos == |d| + 1 else x.code != ExceededMaxDepth
  {
    HeadOpens(d, p, depth);
    if d != [] && d[|d| - 1] == MATRIX && WValue(Skip, d, p, depth).pos == |d| { HeadShortOfMatrix(d, p, depth); }
  }

  lemma HeadShortOfMatrix(d: Bytes, p: nat, depth: nat)
    requires p <= |d| && ScanHead(d, p, depth).Err? && ScanHead(d, p, depth).code == UnexpectedEnd
    requires d != [] && d[|d| - 1] == MATRIX && Bare(WValue(Skip, d, p, depth)) == Out.Err(UnexpectedEnd, |d|)
    ensures var x := WValue(Skip, d + [0], p, depth);
            if x.Ok? then x.pos == |d| + 1 else x.code != ExceededMaxDepth
  {
    BareError(WValue(Skip, d, p, depth));
    hide WValue, ScanHead, Bare;
    var d' := d + [0];
    assert d'[..|d|] == d;
    CutValue(Skip, d', p, depth, |d|);
    if p == |d| {
      NullIsShort(d', p, depth);
    } else if Ty(d[p]) == TY_TYPED_ARRAY {
      assert d'[p] == d[p];
      TypedShort(d, p, depth);
      TypedWalk(d', p, depth);
      TypedNotDeep(d', p + 1, d[p]);
    } else if d[p] == COMPLEX {
      assert d'[p] == d[p];
      ComplexWalk(d', p, depth);
      ComplexNotDeep(d', p + 1);
    } else {
      SizeMissing(d, p, depth);
    }
  }

  lemma BareError<T>(r: Out<T>)
    ensures Bare(r).Err? ==> r.Err? && r.code == Bare(r).code && r.pos == Bare(r).pos
  {
  }

  lemma NullIsShort(d: Bytes, p: nat, depth: nat)
    requires p < |d| && d[p] == NULL
    ensures WValue(Skip, d, p, depth) == Out.Ok(Atom(NULL), p + 1)
  {
    hide WObject, WArray, WTyped, WExtension, WNum, WText;
  }

  lemma TypedWalk(d: Bytes, p: nat, depth: nat)
    requires p < |d| && Ty(d[p]) == TY_TYPED_ARRAY
    ensures depth < MAX_DEPTH ==> WValue(Skip, d, p, depth) == WTyped(Skip, d, p + 1, d[p])
  {
    hide WTyped;
  }

  lemma TypedShort(d: Bytes, p: nat, depth: nat)
    requires p < |d| && Ty(d[p]) == TY_TYPED_ARRAY && ScanHead(d, p, depth).Err? && ScanHead(d, p, depth).code == UnexpectedEnd
    ensures depth < MAX_DEPTH
  {
  }

  lemma ComplexWalk(d: Bytes, p: nat, depth: nat)
    requires p < |d| && d[p] == COMPLEX
    ensures WValue(Skip, d, p, depth) == WComplex(Skip, d, p + 1)
  {
    ExtensionWalk(d, p, depth);
    assert WExtension(Skip, d, p + 1, COMPLEX, depth) == WComplex(Skip, d, p + 1);
  }

  /** A preamble that is a header and a size is cut short before its size or inside it. */
  lemma SizeMissing(d: Bytes, p: nat, depth: nat)
    requires p < |d| && ScanHead(d, p, depth).Err? && ScanHead(d, p, depth).code == UnexpectedEnd
    requires Ty(d[p]) != TY_TYPED_ARRAY && d[p] != COMPLEX
    ensures WValue(Skip, d, p, depth) == Out.Err(UnexpectedEnd, p + 1) && d[p] != MATRIX
  {
    var h := d[p];
    assert SizeField(d, p + 1).Err? && d[p] != MATRIX;
    NoRoomForSize(d, p);
    BodyWalk(d, p, depth);
    if Ty(h) == TY_EXTENSION {
      ExtensionWalk(d, p, depth);
      assert ExtId(h) == EXT_TYPE_TAG;
      assert WExtension(Skip, d, p + 1, h, depth) == WTagged(Skip, d, p + 1, depth);
      hide SizeField, WValue;
    } else {
      hide SizeField, SizeValue, WValue, WMembers, WValues, WExtension, WTyped, KeyWidth, FixedWidth;
    }
  }

  lemma ExtensionWalk(d: Bytes, p: nat, depth: nat)
    requires p < |d| && Ty(d[p]) == TY_EXTENSION
    ensures WValue(Skip, d, p, depth) == WExtension(Skip, d, p + 1, d[p], depth)
  {
    BodyWalk(d, p, depth);
  }

  lemma MatrixWalk(d: Bytes, p: nat, depth: nat)
    requires p < |d| && d[p] == MATRIX
    ensures WValue(Skip, d, p, depth) == WMatrix(Skip, d, p + 1, depth)
  {
    ExtensionWalk(d, p, depth);
  }

  /** A size field that is missing altogether ends the input just past its header. */
  lemma NoRoomForSize(d: Bytes, p: nat)
    requires p < |d|
    ensures SizeField(d, p + 1).Err? ==> SizeField(d, p + 1) == Out.Err(UnexpectedEnd, p + 1)
  {
  }

  lemma TypedNotDeep(d: Bytes, p: nat, h: u8)
    ensures WTyped(Skip, d, p, h).Err? ==> WTyped(Skip, d, p, h).code != ExceededMaxDepth
  {
    hide SizeValue, FixedWidth, WTexts, AllRepresentable;
    var form := TypedHead(d, p, h);
    if form.Ok? && form.value.Strings? { TextsNotDeep(d, form.pos, form.value.Count()); }
  }

  lemma {:induction false} TextsNotDeep(d: Bytes, p: nat, n: nat)
    requires p <= |d|
    ensures WTexts(Skip, d, p, n).Err? ==> WTexts(Skip, d, p, n).code != ExceededMaxDepth
    decreases n
  {
    if n > 0 {
      var t := WText(Skip, d, p);
      if t.Ok? { TextsNotDeep(d, t.pos, n - 1); }
    }
  }

  lemma ComplexNotDeep(d: Bytes, p: nat)
    ensures WComplex(Skip, d, p).Err? ==> WComplex(Skip, d, p).code != ExceededMaxDepth
  {
    hide SizeValue, FixedWidth;
  }

  /** A scan that refused has a walk that does, or that ends at a matrix. */
  lemma RefusedEnds(d: Bytes, s: Scan, outer: nat, code: ErrorCode)
    requires Fits(d, s) && Stops(d, s, outer, Refused(code))
    ensures code != UnexpectedEnd
    ensures || (Rest(d, s, outer).Err? && Rest(d, s, outer).code == code)
            || (&& code == ExceededMaxDepth && d != [] && d[|d| - 1] == MATRIX && !Overruns(d + [0], s)
                && DeepMatrix(Rest(d, s, outer), Rest(d + [0], s, outer), |d|))
  {
    hide WValue, OwedBy, Owed, ScanHead;
    var depth := outer + |s.stack|;
    var d' := d + [0];
    HeadOpens(d, s.pos, depth);
    if LastMatrix(d, s.pos, depth) { MatrixRefused(d', s.pos, depth); }
    if s.stack != [] {
      var f := Top(s.stack);
      OwedValue(d, s.pos, f, depth);
      OwedValue(d', s.pos, f, depth);
      OwedTop(d, s.pos, s.stack, outer);
      OwedTop(d', s.pos, s.stack, outer);
    }
  }

  lemma MatrixRefused(d: Bytes, p: nat, depth: nat)
    requires p + 1 < |d| && d[p] == MATRIX && depth >= MAX_DEPTH
    ensures WValue(Skip, d, p, depth) == Out.Err(ExceededMaxDepth, p + 2)
  {
    MatrixWalk(d, p, depth);
  }

  // ---------------------------------------------------------------------
  // The scanner's answer
  // ---------------------------------------------------------------------

  /** What the input so far says of the value at `p`, by the walk that sees all of it: where it
      ends, that there is more to come, or why it is refused. */
  function Framed(d: Bytes, p: nat, outer: nat): Answer<nat> {
    match WValue(Skip, d, p, outer)
    case Ok(_, e) => Found(e)
    case Err(code, _) =>
      if code != UnexpectedEnd then Refused(code)
      else if EndsAtDeepMatrix(d, p, outer) then Refused(ExceededMaxDepth)
      else Short
  }

  /** `s` is a scan of the value at `p` that has seen `d`: whatever else arrives, the rest of it
      is the rest of that value. */
  ghost predicate Resumes(d: Bytes, p: nat, s: Scan, outer: nat) {
    && p <= |d| && Fits(d, s)
    && forall more: Bytes :: KeepsOn(d + more, p, s, outer)
  }

  ghost predicate KeepsOn(d: Bytes, p: nat, s: Scan, outer: nat) {
    p <= |d| && Fits(d, s) && Keeps(d, Start(p), s, outer)
  }

  lemma StartResumes(d: Bytes, p: nat, outer: nat)
    requires p <= |d|
    ensures Resumes(d, p, Start(p), outer)
  {
    hide Rest;
  }

  lemma MoreResumes(d: Bytes, more: Bytes, p: nat, s: Scan, outer: nat)
    requires Resumes(d, p, s, outer)
    ensures Resumes(d + more, p, s, outer)
  {
    hide Keeps;
    forall x: Bytes ensures KeepsOn(d + more + x, p, s, outer) {
      assert d + more + x == d + (more + x);
      assert KeepsOn(d + (more + x), p, s, outer);
    }
  }

  lemma AdvanceResumes(d: Bytes, p: nat, s: Scan, outer: nat)
    requires Resumes(d, p, s, outer)
    ensures Resumes(d, p, Advanced(d, s, outer).0, outer)
  {
    hide Rest, Advanced;
    var t := Advanced(d, s, outer).0;
    assert d[..|d|] == d;
    AdvanceKeeps(d, |d|, s, outer);
    AdvanceOwes(d, s, outer);
    forall more: Bytes ensures KeepsOn(d + more, p, t, outer) {
      assert (d + more)[..|d|] == d;
      AdvanceKeeps(d + more, |d|, s, outer);
      assert KeepsOn(d + more, p, s, outer);
    }
  }

  /** A duty met or refused on part of the input is met or refused the same on all of it. */
  lemma MeetStays(d: Bytes, c: nat, s: Scan, outer: nat)
    requires s.pos <= c <= |d| && (s.stack == [] || Top(s.stack).left > 0)
    ensures var r := Meet(d[..c], s, outer); !r.Short? ==> Meet(d, s, outer) == r
  {
    hide ScanHead, SizeField, SizeValue;
    HeadStays(d, s.pos, outer + |s.stack|, c);
    CutSize(d, s.pos, c);
  }

  lemma {:induction false} SettledTwice(stack: seq<Frame>)
    ensures Settled(Settled(stack)) == Settled(stack)
  {
    if stack != [] && Top(stack).left == 0 { SettledTwice(Below(stack)); }
  }

  /** Advancing over part of the input first changes nothing: the walk comes to stand where,
      with the same answer, it would had it begun with all of it. */
  lemma {:induction false} AdvanceAgain(d: Bytes, c: nat, s: Scan, outer: nat)
    requires c <= |d| && Fits(d[..c], s)
    ensures Advanced(d, Advanced(d[..c], s, outer).0, outer) == Advanced(d, s, outer)
    decreases c - s.pos, |s.stack|, DutyOf(s.stack).DueKey?
  {
    hide Meet, Settled;
    var t := Drained(d[..c], s);
    if t.pending > 0 {
      assert Drained(d, t) == Drained(d, s);
      return;
    }
    var u := t.(stack := Settled(t.stack));
    SettledTwice(t.stack);
    assert Drained(d, s) == t && Drained(d, u) == u;
    AgainFromTurn(d, s, u, outer);
    if u.started && u.stack == [] { return; }
    if Meet(d[..c], u, outer).Found? {
      MeetStays(d, c, u, outer);
      MeetKeeps(d, c, u, outer);
      AdvanceAgain(d, c, Meet(d[..c], u, outer).value, outer);
    }
  }

  /** A walk that owes nothing goes on alike with its finished containers left. */
  lemma AgainFromTurn(d: Bytes, s: Scan, u: Scan, outer: nat)
    requires Drained(d, s).pending == 0 && u == Cleared(d, s) && Drained(d, u) == u && Settled(u.stack) == u.stack
    ensures Advanced(d, u, outer) == Advanced(d, s, outer) == TurnedAt(d, u, outer)
  {
    hide Meet, Settled, Advanced, TurnedAt;
    AdvancedTurn(d, s, outer);
    AdvancedTurn(d, u, outer);
  }

  /** `s` is a scan of the value at `p`, as far as some part of the input took it. */
  ghost predicate Continues(d: Bytes, p: nat, s: Scan, outer: nat) {
    Fits(d, s) && forall more: Bytes :: GoesOn(d + more, p, s, outer)
  }

  ghost predicate GoesOn(d: Bytes, p: nat, s: Scan, outer: nat) {
    Advanced(d, s, outer) == Advanced(d, Start(p), outer)
  }

  lemma StartContinues(d: Bytes, p: nat, outer: nat)
    requires p <= |d|
    ensures Continues(d, p, Start(p), outer)
  {
    hide Advanced;
  }

  lemma MoreContinues(d: Bytes, more: Bytes, p: nat, s: Scan, outer: nat)
    requires Continues(d, p, s, outer)
    ensures Continues(d + more, p, s, outer)
  {
    hide GoesOn;
    forall x: Bytes ensures GoesOn(d + more + x, p, s, outer) {
      assert d + more + x == d + (more + x);
      assert GoesOn(d + (more + x), p, s, outer);
    }
  }

  lemma AdvanceContinues(d: Bytes, p: nat, s: Scan, outer: nat)
    requires Continues(d, p, s, outer)
    ensures Continues(d, p, Advanced(d, s, outer).0, outer)
    ensures Advanced(d, s, outer) == Advanced(d, Start(p), outer)
  {
    hide Rest, Advanced;
    assert d[..|d|] == d && d + [] == d;
    assert GoesOn(d + [], p, s, outer);
    AdvanceKeeps(d, |d|, s, outer);
    forall more: Bytes ensures GoesOn(d + more, p, Advanced(d, s, outer).0, outer) {
      assert (d + more)[..|d|] == d;
      AdvanceAgain(d + more, |d|, s, outer);
      assert GoesOn(d + more, p, s, outer);
    }
  }

  /** A payload that runs past the input is still owed after an advance. */
  lemma AdvanceOwes(d: Bytes, s: Scan, outer: nat)
    requires Fits(d, s)
    ensures Overruns(d, s) ==> Advanced(d, s, outer).0 == Drained(d, s)
    ensures s.pos <= Advanced(d, s, outer).0.pos
    decreases |d| - s.pos, |s.stack|, DutyOf(s.stack).DueKey?
  {
    hide Meet, Settled;
    var t := Drained(d, s);
    if t.pending > 0 { return; }
    var u := t.(stack := Settled(t.stack));
    if u.started && u.stack == [] { return; }
    if Meet(d, u, outer).Found? {
      assert d[..|d|] == d;
      MeetKeeps(d, |d|, u, outer);
      AdvanceOwes(d, Meet(d, u, outer).value, outer);
    }
  }

  lemma StartRest(d: Bytes, p: nat, outer: nat)
    requires p <= |d|
    ensures Rest(d, Start(p), outer) == Bare(WValue(Skip, d, p, outer))
  {
    hide WValue;
  }

  lemma EndRest(d: Bytes, e: nat, outer: nat)
    requires e <= |d|
    ensures Rest(d, Scan(e, 0, [], true), outer) == Out.Ok((), e)
  {
  }

  /** The answer is the walk's, from wherever the scan had come to. */
  lemma AdvanceIsFramed(d: Bytes, p: nat, s: Scan, outer: nat)
    requires Resumes(d, p, s, outer)
    ensures Advanced(d, s, outer).1 == Framed(d, p, outer)
  {
    hide Rest, Advanced, WValue, Meet, Owed;
    var (t, r) := Advanced(d, s, outer);
    var d' := d + [0];
    AdvanceResumes(d, p, s, outer);
    AdvanceStops(d, s, outer);
    assert d + [] == d;
    assert KeepsOn(d + [], p, t, outer) && KeepsOn(d', p, t, outer);
    var here, further := Bare(WValue(Skip, d, p, outer)), Bare(WValue(Skip, d', p, outer));
    StartRest(d, p, outer);
    StartRest(d', p, outer);
    match r {
      case Found(e) => EndRest(d, e, outer);
      case Short => ShortEnds(d, t, outer);
      case Refused(code) => RefusedEnds(d, t, outer, code);
    }
  }

  /** A scan of the value at `p` after advancing over more and more of `d`. */
  function Resumed(d: Bytes, cuts: seq<nat>, p: nat, outer: nat): Scan
    requires forall i | 0 <= i < |cuts| :: cuts[i] <= |d|
  {
    if cuts == [] then Start(p)
    else Advanced(d[..cuts[|cuts| - 1]], Resumed(d, cuts[..|cuts| - 1], p, outer), outer).0
  }

  lemma {:induction false} ResumedResumes(d: Bytes, cuts: seq<nat>, p: nat, outer: nat)
    requires forall i | 0 <= i < |cuts| :: p <= cuts[i] <= |d|
    requires forall i | 0 < i < |cuts| :: cuts[i - 1] <= cuts[i]
    requires p <= |d|
    ensures Resumes(if cuts == [] then d[..p] else d[..cuts[|cuts| - 1]], p, Resumed(d, cuts, p, outer), outer)
  {
    hide Resumes, Advanced;
    if cuts == [] {
      StartResumes(d[..p], p, outer);
    } else {
      var n := |cuts| - 1;
      ResumedResumes(d, cuts[..n], p, outer);
      var seen := if n == 0 then p else cuts[n - 1];
      assert d[..cuts[n]] == d[..seen] + d[seen..cuts[n]];
      MoreResumes(d[..seen], d[seen..cuts[n]], p, Resumed(d, cuts[..n], p, outer), outer);
      AdvanceResumes(d[..cuts[n]], p, Resumed(d, cuts[..n], p, outer), outer);
    }
  }

  /** However the input was cut up on its way, and however often it was asked for too soon, the
      scanner answers for all of it what the walk of all of it does. */
  lemma AnyChunking(d: Bytes, cuts: seq<nat>, p: nat, outer: nat)
    requires forall i | 0 <= i < |cuts| :: p <= cuts[i] <= |d|
    requires forall i | 0 < i < |cuts| :: cuts[i - 1] <= cuts[i]
    requires p <= |d|
    ensures Advanced(d, Resumed(d, cuts, p, outer), outer).1 == Framed(d, p, outer)
  {
    hide Resumes, Advanced, Framed;
    ResumedResumes(d, cuts, p, outer);
    var seen := if cuts == [] then p else cuts[|cuts| - 1];
    assert d == d[..seen] + d[seen..];
    MoreResumes(d[..seen], d[seen..], p, Resumed(d, cuts, p, outer), outer);
    AdvanceIsFramed(d, p, Resumed(d, cuts, p, outer), outer);
  }

  // ---------------------------------------------------------------------
  // The input the two differ on
  // ---------------------------------------------------------------------

  /** `n` arrays of one element, one inside another, and in the innermost a matrix's header. */
  function DeepArrays(n: nat): Bytes {
    if n == 0 then [MATRIX] else [GENERIC_ARRAY, 4] + DeepArrays(n - 1)
  }

  lemma {:induction false} DeepArraysEnd(n: nat, tail: Bytes)
    requires n <= MAX_DEPTH && |tail| <= 1
    ensures |DeepArrays(n)| == 2 * n + 1 && DeepArrays(n)[2 * n] == MATRIX
    ensures WValue(Skip, DeepArrays(n) + tail, 0, MAX_DEPTH - n) ==
            Out.Err(if tail == [] then UnexpectedEnd else ExceededMaxDepth, 2 * n + 1 + |tail|)
    decreases n
  {
    hide WValue, WValues, SizeField, SizeValue;
    var d := DeepArrays(n) + tail;
    if n == 0 {
      MatrixWalk(d, 0, MAX_DEPTH);
    } else {
      var inner := DeepArrays(n - 1) + tail;
      var depth := MAX_DEPTH - n;
      DeepArraysEnd(n - 1, tail);
      assert d == [GENERIC_ARRAY, 4] + inner;
      ShiftValue(Skip, [GENERIC_ARRAY, 4], inner, 0, depth + 1);
      ArrayWalk(d, 0, depth);
      SizeOfOne(d, 1);
      OneValue(d, 2, depth + 1);
    }
  }

  lemma SizeOfOne(d: Bytes, p: nat)
    requires p < |d| && d[p] == 4
    ensures SizeField(d, p) == Out.Ok([4], p + 1) && SizeValue([4]) == 1
  {
    assert d[p..p + 1] == [4];
  }

  lemma ArrayWalk(d: Bytes, p: nat, depth: nat)
    requires p < |d| && d[p] == GENERIC_ARRAY
    ensures WValue(Skip, d, p, depth) == WArray(Skip, d, p + 1, depth)
  {
    assert WBody(Skip, d, p + 1, GENERIC_ARRAY, depth) == WArray(Skip, d, p + 1, depth);
  }

  /** The whole input ends early, as a slurping walk says, and exceeds the depth, as a stream
      says. */
  lemma StreamRefusesFirst()
    ensures var d := DeepArrays(MAX_DEPTH);
            && WValue(Skip, d, 0, 0) == Out.Err(UnexpectedEnd, |d|)
            && Advanced(d, Start(0), 0).1 == Refused(ExceededMaxDepth)
  {
    hide WValue, Advanced;
    var d := DeepArrays(MAX_DEPTH);
    DeepArraysEnd(MAX_DEPTH, []);
    DeepArraysEnd(MAX_DEPTH, [0]);
    assert d + [] == d;
    StartResumes(d, 0, 0);
    AdvanceIsFramed(d, 0, Start(0), 0);
  }

  // ---------------------------------------------------------------------
  // Where the buffer stands
  // ---------------------------------------------------------------------

  /** A scan in a buffer with `k` more bytes in front. */
  function Moved(s: Scan, k: nat): Scan { s.(pos := s.pos + k) }

  function MovedAnswer(r: Answer<Scan>, k: nat): Answer<Scan> {
    match r case Found(s) => Found(Moved(s, k)) case _ => r
  }

  lemma ShiftScanHead(b: Bytes, d: Bytes, p: nat, depth: nat)
    ensures ScanHead(b + d, |b| + p, depth) == Shifted(ScanHead(d, p, depth), |b|)
  {
    hide SizeField, SizeValue, FixedWidth, ScanObject, ScanArray, ScanTyped, ScanExtension;
    if p < |d| {
      var h := d[p];
      assert (b + d)[|b| + p] == h;
      if Ty(h) == TY_STRING {
        ShiftSize(b, d, p + 1);
      } else if Ty(h) == TY_OBJECT || Ty(h) == TY_GENERIC_ARRAY {
        ShiftScanSized(b, d, p + 1, h, depth);
      } else if Ty(h) == TY_TYPED_ARRAY {
        ShiftScanTyped(b, d, p + 1, h, depth);
      } else if Ty(h) == TY_EXTENSION {
        ShiftScanExtension(b, d, p + 1, h, depth);
      }
    }
  }

  lemma ShiftScanSized(b: Bytes, d: Bytes, p: nat, h: u8, depth: nat)
    ensures ScanObject(b + d, |b| + p, h, depth) == Shifted(ScanObject(d, p, h, depth), |b|)
    ensures ScanArray(b + d, |b| + p, h, depth) == Shifted(ScanArray(d, p, h, depth), |b|)
  {
    hide SizeField, SizeValue, KeyWidth;
    ShiftSize(b, d, p);
  }

  lemma ShiftScanTyped(b: Bytes, d: Bytes, p: nat, h: u8, depth: nat)
    ensures ScanTyped(b + d, |b| + p, h, depth) == Shifted(ScanTyped(d, p, h, depth), |b|)
  {
    hide TypedHead, SizeValue, FixedWidth;
    ShiftTypedHead(b, d, p, h);
  }

  lemma ShiftScanExtension(b: Bytes, d: Bytes, p: nat, h: u8, depth: nat)
    requires p <= |d|
    ensures ScanExtension(b + d, |b| + p, h, depth) == Shifted(ScanExtension(d, p, h, depth), |b|)
  {
    hide SizeField, ComplexHead, SizeValue, FixedWidth;
    ShiftSize(b, d, p);
    ShiftComplexHead(b, d, p);
  }

  lemma ShiftMeet(b: Bytes, d: Bytes, s: Scan, outer: nat)
    requires s.stack == [] || Top(s.stack).left > 0
    ensures Meet(b + d, Moved(s, |b|), outer) == MovedAnswer(Meet(d, s, outer), |b|)
  {
    hide ScanHead, SizeField, SizeValue;
    ShiftScanHead(b, d, s.pos, outer + |s.stack|);
    ShiftSize(b, d, s.pos);
  }

  lemma {:induction false} ShiftAdvance(b: Bytes, d: Bytes, s: Scan, outer: nat)
    ensures var (t, r) := Advanced(d, s, outer);
            Advanced(b + d, Moved(s, |b|), outer) == (Moved(t, |b|), match r case Found(e) => Answer.Found(e + |b|) case _ => r)
    decreases if s.pos < |d| then |d| - s.pos else 0, |s.stack|, DutyOf(s.stack).DueKey?
  {
    hide Meet, Settled;
    var t := Drained(d, s);
    assert Drained(b + d, Moved(s, |b|)) == Moved(t, |b|);
    if t.pending > 0 { return; }
    var u := t.(stack := Settled(t.stack));
    if u.started && u.stack == [] { return; }
    ShiftMeet(b, d, u, outer);
    if Meet(d, u, outer).Found? { ShiftAdvance(b, d, Meet(d, u, outer).value, outer); }
  }
}

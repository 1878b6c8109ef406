/** The walk that frames one BEVE value in a stream that is still arriving:
    src/beve/stream/split.rs. It can stop anywhere, in the middle of a value too, and goes on
    where it stopped when more bytes turn up, carrying the containers it is inside and how
    much of the current payload is still owed. */
module Scanners {
  import opened Bits
  import opened Wrappers
  import opened Headers
  import opened Wire
  import opened Grammar
  import opened Walks

  /** A container the walk is partway through. */
  datatype Frame =
    | Object(cat: u8, width: nat, left: nat, key: bool)
    | Values(left: nat)
    | Strings(left: nat)

  /** What the walk owes next. */
  datatype Duty = DueValue | DueKey(cat: u8, width: nat) | DueText

  /** What part of the input could settle: an answer, nothing until more of it arrives, or a
      refusal. */
  datatype Answer<+T> = Found(value: T) | Short | Refused(code: ErrorCode)

  datatype Scan = Scan(pos: nat, pending: nat, stack: seq<Frame>, started: bool)

  /** A walk about to begin at `p`. */
  function Start(p: nat): Scan { Scan(p, 0, [], false) }

  function Top(stack: seq<Frame>): Frame
    requires stack != []
  {
    stack[|stack| - 1]
  }

  function Below(stack: seq<Frame>): seq<Frame>
    requires stack != []
  {
    stack[..|stack| - 1]
  }

  /** The stack without the containers whose obligations are all met. */
  function Settled(stack: seq<Frame>): (r: seq<Frame>)
    ensures r == [] || Top(r).left > 0
    ensures r <= stack
  {
    if stack != [] && Top(stack).left == 0 then Settled(Below(stack)) else stack
  }

  function DutyOf(stack: seq<Frame>): Duty {
    if stack == [] then DueValue
    else
      match Top(stack)
      case Object(cat, width, _, key) => if key then DueKey(cat, width) else DueValue
      case Strings(_) => DueText
      case Values(_) => DueValue
  }

  function TakenFrom(f: Frame): Frame
    requires f.left > 0
  {
    match f
    case Object(cat, width, left, key) => if key then Object(cat, width, left, false) else Object(cat, width, left - 1, true)
    case Values(left) => Values(left - 1)
    case Strings(left) => Frame.Strings(left - 1)
  }

  /** The walk once its duty is taken, which for a value is before the value is walked. */
  function Taken(s: Scan): Scan
    requires s.stack == [] || Top(s.stack).left > 0
  {
    if s.stack == [] then s.(started := true)
    else s.(stack := Below(s.stack) + [TakenFrom(Top(s.stack))])
  }

  // ---------------------------------------------------------------------
  // A value's preamble
  // ---------------------------------------------------------------------

  /** How many bytes of payload follow a preamble, and the container it opens. */
  datatype Opening = Opening(skip: nat, frame: Option<Frame>)

  /** The preamble of the value at `p`, `depth` containers being open around it. */
  function ScanHead(d: Bytes, p: nat, depth: nat): (r: Out<Opening>)
    ensures r.Ok? ==> p < r.pos <= |d|
  {
    var (h, p1) :- Head(d, p);
    if Ty(h) == TY_NULL_BOOL then
      if h == NULL || h == FALSE || h == TRUE then Out.Ok(Opening(0, None), p1) else Out.Err(InvalidHeader, p1)
    else if Ty(h) == TY_NUMBER then
      if FixedWidth(h).None? then Out.Err(InvalidHeader, p1) else Out.Ok(Opening(FixedWidth(h).value, None), p1)
    else if Ty(h) == TY_STRING then
      if !BareHeader(h) then Out.Err(InvalidHeader, p1)
      else
        var (z, p2) :- SizeField(d, p1);
        Out.Ok(Opening(SizeValue(z), None), p2)
    else if Ty(h) == TY_OBJECT then ScanObject(d, p1, h, depth)
    else if Ty(h) == TY_GENERIC_ARRAY then ScanArray(d, p1, h, depth)
    else if Ty(h) == TY_TYPED_ARRAY then ScanTyped(d, p1, h, depth)
    else if Ty(h) == TY_EXTENSION then ScanExtension(d, p1, h, depth)
    else Out.Err(InvalidHeader, p1)
  }

  function ScanObject(d: Bytes, p: nat, h: u8, depth: nat): (r: Out<Opening>)
    ensures r.Ok? ==> p < r.pos <= |d|
  {
    if KeyWidth(h).None? then Out.Err(InvalidHeader, p)
    else
      var (z, p1) :- SizeField(d, p);
      Opened(depth, p1, 0, Object(Sub(h), KeyWidth(h).value, SizeValue(z), true))
  }

  function ScanArray(d: Bytes, p: nat, h: u8, depth: nat): (r: Out<Opening>)
    ensures r.Ok? ==> p < r.pos <= |d|
  {
    if !BareHeader(h) then Out.Err(InvalidHeader, p)
    else
      var (z, p1) :- SizeField(d, p);
      Opened(depth, p1, 0, Values(SizeValue(z)))
  }

  function ScanTyped(d: Bytes, p: nat, h: u8, depth: nat): (r: Out<Opening>)
    ensures r.Ok? ==> p < r.pos <= |d|
  {
    if depth >= MAX_DEPTH then Out.Err(ExceededMaxDepth, p)
    else
      var (form, p1) :- TypedHead(d, p, h);
      if form.Bools? then Out.Ok(Opening(DivCeil8(form.Count()), None), p1)
      else if form.Strings? then Out.Ok(Opening(0, Some(Frame.Strings(form.Count()))), p1)
      else Sized(p1, form.Count(), FixedWidth(form.h).value)
  }

  /** Of an extension. A matrix's layout byte is payload, stepped over before its first value
      comes due. */
  function ScanExtension(d: Bytes, p: nat, h: u8, depth: nat): (r: Out<Opening>)
    requires p <= |d|
    ensures r.Ok? ==> p <= r.pos <= |d|
  {
    if ExtId(h) == EXT_DELIMITER then Out.Err(InvalidHeader, p)
    else if ExtId(h) == EXT_TYPE_TAG then
      var (z, p1) :- SizeField(d, p);
      Opened(depth, p1, 0, Values(1))
    else if ExtId(h) == EXT_MATRIX then Opened(depth, p, 1, Values(2))
    else if ExtId(h) == EXT_COMPLEX then
      var (pre, p1) :- ComplexHead(d, p);
      Sized(p1, pre.Pairs(), 2 * FixedWidth(pre.class_).value)
    else Out.Err(UnsupportedFeature, p)
  }

  /** A container opened, at the price of a level. */
  function Opened(depth: nat, p: nat, skip: nat, frame: Frame): Out<Opening> {
    if depth >= MAX_DEPTH then Out.Err(ExceededMaxDepth, p) else Out.Ok(Opening(skip, Some(frame)), p)
  }

  /** A block of `n` elements of `width` bytes. */
  function Sized(p: nat, n: nat, width: nat): Out<Opening> {
    match CheckedMul(n, width)
    case None => Out.Err(UnexpectedEnd, p)
    case Some(bytes) => Out.Ok(Opening(bytes, None), p)
  }

  // ---------------------------------------------------------------------
  // Advancing
  // ---------------------------------------------------------------------

  /** The walk past the payload it owes, as far as the bytes go. */
  function Drained(d: Bytes, s: Scan): (t: Scan)
    ensures t.pos + t.pending == s.pos + s.pending && t.pos >= s.pos && t.stack == s.stack && t.started == s.started
  {
    var there := if s.pos < |d| then |d| - s.pos else 0;
    var take := if s.pending < there then s.pending else there;
    s.(pos := s.pos + take, pending := s.pending - take)
  }

  /** One duty: the walk with it met, none if its bytes have not all arrived. */
  function Meet(d: Bytes, s: Scan, outer: nat): (r: Answer<Scan>)
    requires s.stack == [] || Top(s.stack).left > 0
    ensures r.Found? ==>
      || s.pos < r.value.pos <= |d|
      || (&& DutyOf(s.stack).DueKey? && r.value.pos == s.pos && |r.value.stack| == |s.stack|
          && !DutyOf(r.value.stack).DueKey?)
  {
    match DutyOf(s.stack)
    case DueText => MeetText(d, s)
    case DueKey(cat, width) =>
      if cat == CAT_FLOAT then MeetText(d, s)
      else if s.pos + width > |d| then Short
      else Found(Taken(s.(pos := s.pos + width)))
    case DueValue =>
      match ScanHead(d, s.pos, outer + |s.stack|)
      case Err(code, _) => if code == UnexpectedEnd then Short else Refused(code)
      case Ok(opening, p) =>
        var t := Taken(s.(pos := p, pending := opening.skip));
        Found(if opening.frame.Some? then t.(stack := t.stack + [opening.frame.value]) else t)
  }

  /** A size and its bytes: a string key, or an element of a typed string array. */
  function MeetText(d: Bytes, s: Scan): Answer<Scan>
    requires s.stack == [] || Top(s.stack).left > 0
  {
    match SizeField(d, s.pos)
    case Err(_, _) => Short
    case Ok(z, p) => Found(Taken(s.(pos := p, pending := SizeValue(z))))
  }

  /** The walk from where it last stopped to the end of `d`: the end of the value, or none if
      more bytes are needed. */
  function Advanced(d: Bytes, s: Scan, outer: nat): (r: (Scan, Answer<nat>))
    ensures r.1.Found? ==> r.1.value == r.0.pos
    decreases if s.pos < |d| then |d| - s.pos else 0, |s.stack|, DutyOf(s.stack).DueKey?
  {
    var t := Drained(d, s);
    if t.pending > 0 then (t, Short)
    else
      var u := t.(stack := Settled(t.stack));
      if u.started && u.stack == [] then (u, Found(u.pos))
      else
        match Meet(d, u, outer)
        case Refused(code) => (u, Refused(code))
        case Short => (u, Short)
        case Found(v) => Advanced(d, v, outer)
  }

  /** The walk itself, updating in place. */
  class Scanner {
    var pos: nat
    var pending: nat
    var stack: seq<Frame>
    /** Containers open around the value being walked, charged as if they were its own. */
    const outer: nat
    var started: bool

    function State(): Scan
      reads this
    {
      Scan(pos, pending, stack, started)
    }

    constructor (outer: nat)
      ensures State() == Start(0) && this.outer == outer
    {
      pos := 0;
      pending := 0;
      stack := [];
      this.outer := outer;
      started := false;
    }

    /** Begin a fresh value. */
    method Restart(at: nat)
      modifies this
      ensures State() == Start(at)
    {
      pos := at;
      pending := 0;
      stack := [];
      started := false;
    }

    /** Account for a prefix having been removed from the front. */
    method Rebase(shift: nat)
      modifies this
      ensures State() == Rebased(old(State()), shift)
    {
      pos := if pos > shift then pos - shift else 0;
    }

    /** Step over the payload owed, as far as the bytes go. */
    method Drain(buf: Bytes)
      modifies this
      ensures State() == Drained(buf, old(State()))
    {
      var take := Min(pending, if pos < |buf| then |buf| - pos else 0);
      pos := pos + take;
      pending := pending - take;
    }

    /** Leave the containers that are done. */
    method Settle()
      modifies this
      ensures State() == old(State()).(stack := Settled(old(stack)))
    {
      while stack != [] && Top(stack).left == 0
        invariant Settled(stack) == Settled(old(stack))
        invariant State() == old(State()).(stack := stack)
      {
        stack := Below(stack);
      }
    }

    /** Walk from where the last call stopped to the end of `buf`. */
    method Advance(buf: Bytes) returns (r: Answer<nat>)
      modifies this
      ensures (State(), r) == Advanced(buf, old(State()), outer)
    {
      hide Meet, Advanced, Settled, Drained;
      while true
        invariant Advanced(buf, State(), outer) == Advanced(buf, old(State()), outer)
        decreases if pos < |buf| then |buf| - pos else 0, |stack|, DutyOf(stack).DueKey?
      {
        AdvancedTurn(buf, State(), outer);
        Drain(buf);
        if pending > 0 { return Short; }
        Settle();
        if started && stack == [] { return Found(pos); }
        var met := Meet(buf, State(), outer);
        match met {
          case Refused(code) => return Refused(code);
          case Short => return Short;
          case Found(s) => pos, pending, stack, started := s.pos, s.pending, s.stack, s.started;
        }
      }
    }
  }

  function Min(a: nat, b: nat): nat { if a < b then a else b }

  function Rebased(s: Scan, shift: nat): Scan { s.(pos := if s.pos > shift then s.pos - shift else 0) }

  /** One turn of the loop. */
  lemma {:induction false} AdvancedTurn(d: Bytes, s: Scan, outer: nat)
    ensures Drained(d, s).pending > 0 ==> Advanced(d, s, outer) == (Drained(d, s), Short)
    ensures Drained(d, s).pending == 0 ==> Advanced(d, s, outer) == TurnedAt(d, Cleared(d, s), outer)
  {
  }

  /** The walk past what it owes and out of every container that is done. */
  function Cleared(d: Bytes, s: Scan): Scan {
    Drained(d, s).(stack := Settled(s.stack))
  }

  function TurnedAt(d: Bytes, u: Scan, outer: nat): (Scan, Answer<nat>)
    requires u.stack == [] || Top(u.stack).left > 0
  {
    if u.started && u.stack == [] then (u, Found(u.pos))
    else
      match Meet(d, u, outer)
      case Refused(code) => (u, Refused(code))
      case Short => (u, Short)
      case Found(v) => Advanced(d, v, outer)
  }
}

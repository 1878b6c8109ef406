/** Dividing a stream into BEVE documents: the splitter of src/beve/stream/split.rs over whole
    documents, and what a window makes of it. However its bytes arrive, a stream is cut into
    the documents that walking the whole of it finds. */
module Documents {
  import opened Bits
  import opened Wrappers
  import opened Headers
  import opened Wire
  import opened Grammar
  import opened Walks
  import opened Windows
  import opened Scanners
  import opened ScannerTheorems
  import WalkTheorems

  // ---------------------------------------------------------------------
  // The splitter
  // ---------------------------------------------------------------------

  datatype Where = Between | InItem

  /** Where the splitter is: its walk, whether it is in one, and the first byte not yet
      accounted for. */
  datatype Splitting = Splitting(scan: Scan, state: Where, cursor: nat)

  const AT_START := Splitting(Start(0), Between, 0)

  /** The first byte at or after `at` that is no delimiter. */
  function PastDelimiters(buf: Bytes, at: nat): (r: nat)
    ensures r >= at && (at <= |buf| ==> r <= |buf|)
    ensures r < |buf| ==> buf[r] != DELIMITER
    decreases |buf| - at
  {
    if at < |buf| && buf[at] == DELIMITER then PastDelimiters(buf, at + 1) else at
  }

  function NextItem(s: Splitting, buf: Bytes, eof: bool): (Splitting, Step) {
    if s.state == InItem then Walked(s, buf, eof)
    else
      var at := PastDelimiters(buf, s.cursor);
      if at >= |buf| then (s.(cursor := at), Step.Found(if eof then End else Need))
      else Walked(Splitting(Start(at), InItem, at), buf, eof)
  }

  function Walked(s: Splitting, buf: Bytes, eof: bool): (Splitting, Step) {
    var (scan, r) := Advanced(buf, s.scan, 0);
    match r
    case Found(end) => (Splitting(scan, Between, end), Step.Found(Item(s.cursor, end)))
    case Short => (s.(scan := scan), if eof then Fails(UnexpectedEnd) else Step.Found(Need))
    case Refused(code) => (s.(scan := scan), Fails(code))
  }

  function Trimmed(s: Splitting): Splitting {
    s.(scan := Rebased(s.scan, s.cursor), cursor := 0)
  }

  function Position(s: Splitting): nat {
    if s.cursor < s.scan.pos then s.scan.pos else s.cursor
  }

  function Values(): Framer<Splitting> {
    Framer(NextItem, (s: Splitting) => s.cursor, Trimmed, Position)
  }

  class Splitter {
    const scan: Scanner
    var state: Where
    var cursor: nat

    function State(): Splitting
      reads this, scan
    {
      Splitting(scan.State(), state, cursor)
    }

    constructor ()
      ensures State() == AT_START && scan.outer == 0 && fresh(scan)
    {
      scan := new Scanner(0);
      state := Between;
      cursor := 0;
    }

    method Next(buf: Bytes, eof: bool) returns (r: Step)
      requires scan.outer == 0
      modifies this, scan
      ensures (State(), r) == NextItem(old(State()), buf, eof)
    {
      if state == Between {
        while cursor < |buf| && buf[cursor] == DELIMITER
          invariant PastDelimiters(buf, cursor) == PastDelimiters(buf, old(cursor))
          invariant State() == old(State()).(cursor := cursor)
          decreases |buf| - cursor
        {
          cursor := cursor + 1;
        }
        if cursor >= |buf| { return Step.Found(if eof then End else Need); }
        scan.Restart(cursor);
        state := InItem;
      }
      var end := scan.Advance(buf);
      match end {
        case Short => return if eof then Fails(UnexpectedEnd) else Step.Found(Need);
        case Refused(code) => return Fails(code);
        case Found(e) =>
          var start := cursor;
          cursor := e;
          state := Between;
          return Step.Found(Item(start, e));
      }
    }

    method Rebase()
      modifies this, scan
      ensures State() == Trimmed(old(State()))
    {
      var shift := cursor;
      cursor := 0;
      scan.Rebase(shift);
    }
  }

  // ---------------------------------------------------------------------
  // It meets the window's contract
  // ---------------------------------------------------------------------

  /** A splitter over `buf` as far along as one over a buffer with `k` bytes more in front.
      Between documents the walk's position is left over from the last one, and rebasing may
      have brought it to nothing; inside one it is where the walk stands. */
  predicate Alongside(s: Splitting, t: Splitting, k: nat, buf: Bytes) {
    && s.state == t.state && t.cursor == s.cursor + k && s.cursor <= |buf|
    && match s.state
       case Between => s.scan.pos <= s.cursor && t.scan.pos <= t.cursor
       case InItem => s.cursor <= s.scan.pos && Fits(buf, s.scan) && t.scan == Moved(s.scan, k)
  }

  lemma {:induction false} DelimitersMove(before: Bytes, buf: Bytes, at: nat)
    requires at <= |buf|
    ensures PastDelimiters(before + buf, |before| + at) == |before| + PastDelimiters(buf, at)
    decreases |buf| - at
  {
    if at < |buf| {
      assert (before + buf)[|before| + at] == buf[at];
      if buf[at] == DELIMITER { DelimitersMove(before, buf, at + 1); }
    }
  }

  lemma AdvancedFits(d: Bytes, s: Scan, outer: nat)
    requires Fits(d, s)
    ensures Fits(d, Advanced(d, s, outer).0) && s.pos <= Advanced(d, s, outer).0.pos
  {
    hide Advanced, Rest;
    assert d[..|d|] == d;
    AdvanceKeeps(d, |d|, s, outer);
    AdvanceOwes(d, s, outer);
  }

  lemma WalkedMoves(s: Splitting, t: Splitting, before: Bytes, buf: Bytes, eof: bool)
    requires Alongside(s, t, |before|, buf) && s.state == InItem
    ensures var (s', r) := Walked(s, buf, eof);
            var (t', r') := Walked(t, before + buf, eof);
            && r' == ShiftedStep(r, |before|) && Alongside(s', t', |before|, buf)
            && Position(t') == Position(s') + |before|
            && s.cursor <= s'.cursor
            && (r.Found? && r.split.Item? ==> s.cursor == r.split.start <= r.split.end == s'.cursor)
  {
    hide Advanced;
    AdvancedFits(buf, s.scan, 0);
    ShiftAdvance(before, buf, s.scan, 0);
    AdvancedEnd(buf, s.scan);
  }

  lemma AdvancedEnd(d: Bytes, s: Scan)
    ensures var (t, r) := Advanced(d, s, 0); r.Found? ==> r.value == t.pos
  {
  }

  lemma NextMoves(s: Splitting, t: Splitting, before: Bytes, buf: Bytes, eof: bool)
    requires Alongside(s, t, |before|, buf)
    ensures Steps(Values(), Alongside, s, t, before, buf, eof)
  {
    hide Walked, Advanced;
    if s.state == InItem {
      WalkedMoves(s, t, before, buf, eof);
    } else {
      DelimitersMove(before, buf, s.cursor);
      var at := PastDelimiters(buf, s.cursor);
      if at < |buf| {
        WalkedMoves(Splitting(Start(at), InItem, at), Splitting(Start(at + |before|), InItem, at + |before|), before, buf, eof);
      }
    }
    WalkedEnds(s, buf);
    WalkedEnds(Splitting(Start(PastDelimiters(buf, s.cursor)), InItem, PastDelimiters(buf, s.cursor)), buf);
  }

  lemma WalkedEnds(s: Splitting, buf: Bytes)
    ensures Walked(s, buf, true).1 != Step.Found(Need)
  {
    hide Advanced;
  }

  lemma SplitterIsSound()
    ensures Sound(Values(), Alongside)
    ensures Alongside(AT_START, AT_START, 0, [])
  {
    hide Steps, NextItem;
    forall s: Splitting, t: Splitting, before: Bytes, buf: Bytes, eof: bool | Alongside(s, t, |before|, buf)
      ensures Steps(Values(), Alongside, s, t, before, buf, eof)
    {
      NextMoves(s, t, before, buf, eof);
    }
    forall s: Splitting, t: Splitting, k: nat, buf: Bytes | Alongside(s, t, k, buf)
      ensures Rebases(Values(), Alongside, s, t, k, buf) && Grows(Alongside, s, t, k, buf)
    {
    }
  }

  // ---------------------------------------------------------------------
  // What it answers
  // ---------------------------------------------------------------------

  /** A window that keeps everything, whose splitter has seen no more than there is. */
  ghost predicate OnTrack(w: Ideal<Splitting>) {
    var s := w.split;
    && s.cursor <= |w.stream|
    && (s.state == InItem ==>
          && s.cursor < |w.stream| && w.stream[s.cursor] != DELIMITER
          && Resumes(w.stream, s.cursor, s.scan, 0) && Continues(w.stream, s.cursor, s.scan, 0))
  }

  /** What the walk of the input says of the next document, before the limit. */
  function Expected(d: Bytes, p: nat, eof: bool): Step {
    var at := PastDelimiters(d, p);
    if at >= |d| then Step.Found(if eof then End else Need)
    else
      match Framed(d, at, 0)
      case Found(e) => Step.Found(Item(at, e))
      case Short => if eof then Fails(UnexpectedEnd) else Step.Found(Need)
      case Refused(code) => Fails(code)
  }

  /** Where a walk of the whole input, begun at the document's first byte, comes to a stop. */
  function StoppedAt(d: Bytes, p: nat): nat {
    Advanced(d, Start(PastDelimiters(d, p)), 0).0.pos
  }

  /** The byte of the stream a failure is placed at: a document too large at its first, one
      that does not frame where the walk of it stops. */
  function ErrorAt(why: Failure, d: Bytes, p: nat): nat {
    match why
    case DocumentTooLarge => PastDelimiters(d, p)
    case Framing(_) => StoppedAt(d, p)
  }

  /** What the window makes of that, where it stands on the first byte of the document. */
  function Answered(step: Step, d: Bytes, p: nat, limit: nat): Result<Split, Failure> {
    match step
    case Fails(code) => Result.Err(Framing(code))
    case Found(split) =>
      var extent := match split
        case Item(start, end) => if start <= end then end - start else 0
        case Need => if PastDelimiters(d, p) <= |d| then |d| - PastDelimiters(d, p) else 0
        case End => 0;
      if extent > limit then Result.Err(DocumentTooLarge) else Result.Ok(split)
  }

  /** The splitter's answer is the walk's, however it came to where it is. */
  lemma NextIsWalk(w: Ideal<Splitting>)
    requires OnTrack(w)
    ensures var (s, step) := NextItem(w.split, w.stream, w.eof);
            && step == Expected(w.stream, w.split.cursor, w.eof)
            && OnTrack(w.(split := s))
            && (step == Step.Found(Need) ==> s.cursor == PastDelimiters(w.stream, w.split.cursor))
            && (step.Found? && !step.split.Item? ==> PastDelimiters(w.stream, s.cursor) == PastDelimiters(w.stream, w.split.cursor))
            && (step.Found? && step.split.Item? ==> s.cursor == step.split.end && step.split.start <= step.split.end)
            && (step.Found? && step.split.Item? ==> step.split.start == PastDelimiters(w.stream, w.split.cursor))
            && (step.Fails? ==> Position(s) == StoppedAt(w.stream, w.split.cursor))
  {
    hide Advanced, Framed, Resumes, Continues;
    var p := w.split.cursor;
    var at := PastDelimiters(w.stream, p);
    if w.split.state == InItem {
      WalkedIsWalk(w.split, w.stream, w.eof);
    } else if at < |w.stream| {
      StartResumes(w.stream, at, 0);
      StartContinues(w.stream, at, 0);
      WalkedIsWalk(Splitting(Start(at), InItem, at), w.stream, w.eof);
    }
  }

  lemma WalkedIsWalk(s: Splitting, d: Bytes, eof: bool)
    requires s.state == InItem && s.cursor < |d| && d[s.cursor] != DELIMITER
    requires Resumes(d, s.cursor, s.scan, 0) && Continues(d, s.cursor, s.scan, 0)
    ensures var (t, step) := Walked(s, d, eof);
            && step == Expected(d, s.cursor, eof)
            && OnTrack(Ideal(d, t, eof, false))
            && (step.Found? && step.split.Item? ==> t.cursor == step.split.end && step.split.start <= step.split.end)
            && (t.state == InItem ==> t.cursor == s.cursor)
            && (step == Step.Found(Need) ==> t.state == InItem)
            && (step.Fails? ==> Position(t) == StoppedAt(d, s.cursor))
  {
    hide Advanced, WValue, Resumes, Continues;
    AdvanceIsFramed(d, s.cursor, s.scan, 0);
    AdvanceResumes(d, s.cursor, s.scan, 0);
    AdvanceContinues(d, s.cursor, s.scan, 0);
    StopsPast(d, s.cursor);
  }

  lemma StopsPast(d: Bytes, p: nat)
    requires p <= |d|
    ensures Advanced(d, Start(p), 0).0.pos >= p
  {
    hide Advanced;
    AdvanceOwes(d, Start(p), 0);
  }

  /** The window's answer over the whole stream, limit and all, is what the walk says. */
  lemma AnswerIsWalk(w: Ideal<Splitting>, limit: nat)
    requires !w.failed && OnTrack(w)
    ensures var (w', answer) := IdealNext(Values(), w, limit);
            var expected := Answered(Expected(w.stream, w.split.cursor, w.eof), w.stream, w.split.cursor, limit);
            && OnTrack(w') && w'.stream == w.stream
            && match answer
               case Ok(split) => expected == Result.Ok(split)
               case Err(error) => expected == Result.Err(error.why) && error.at == ErrorAt(error.why, w.stream, w.split.cursor)
  {
    hide NextItem, Expected, OnTrack, StoppedAt;
    NextIsWalk(w);
    var (s, step) := NextItem(w.split, w.stream, w.eof);
    FailedOnTrack(w.(split := s));
  }

  lemma FailedOnTrack(w: Ideal<Splitting>)
    requires OnTrack(w)
    ensures OnTrack(w.(failed := true)) && w.split.cursor <= |w.stream|
  {
    hide Resumes, Continues;
  }

  // ---------------------------------------------------------------------
  // Streamed and slurped
  // ---------------------------------------------------------------------

  /** The spans of the documents from `p` on, as far as there are any. */
  function SpansFrom(d: Bytes, p: nat): seq<(nat, nat)>
    decreases |d| - p
  {
    var at := PastDelimiters(d, p);
    var r := WValue(Skip, d, at, 0);
    if r.Ok? then [(at, r.pos)] + SpansFrom(d, r.pos) else []
  }

  function Items(answers: seq<Result<Split, StreamError>>): seq<(nat, nat)> {
    if answers == [] then []
    else
      (match answers[0] case Ok(Item(start, end)) => [(start, end)] case _ => []) + Items(answers[1..])
  }

  /** A document found in part of a stream is there in all of it. */
  lemma FoundStays(d: Bytes, p: nat, more: Bytes)
    requires WValue(Skip, d, p, 0).Ok?
    ensures WValue(Skip, d + more, p, 0) == WValue(Skip, d, p, 0)
  {
    var e := WValue(Skip, d, p, 0).pos;
    assert (d + more)[p..p + (e - p)] == d[p..p + (e - p)];
    hide WValue;
    WalkTheorems.ExtentIsLocal(Skip, d, p, 0, d + more, p);
  }

  lemma {:induction false} DelimitersStay(d: Bytes, p: nat, more: Bytes)
    requires p <= |d|
    ensures PastDelimiters(d + more, p) == PastDelimiters(d + more, PastDelimiters(d, p))
    ensures PastDelimiters(d, p) < |d| ==> PastDelimiters(d + more, p) == PastDelimiters(d, p)
    decreases |d| - p
  {
    if p < |d| && d[p] == DELIMITER { DelimitersStay(d, p + 1, more); }
  }

  lemma {:induction false} StreamGrows(w: Ideal<Splitting>, limit: nat, ops: seq<Op>)
    ensures w.stream <= Run(Values(), w, limit, ops).0.stream
    decreases |ops|
  {
    hide NextItem;
    if ops != [] {
      var rest := ops[1..];
      match ops[0]
      case Extend(bytes) => StreamGrows(Arrived(w, bytes), limit, rest);
      case Fill(reader, chunk) => StreamGrows(Took(w, reader(Wanted(Values(), w, limit, chunk))), limit, rest);
      case Eof => StreamGrows(w.(eof := true), limit, rest);
      case Next => StreamGrows(IdealNext(Values(), w, limit).0, limit, rest);
    }
  }

  lemma StillOnTrack(w: Ideal<Splitting>, bytes: Bytes, eof: bool)
    requires OnTrack(w)
    ensures OnTrack(w.(stream := w.stream + bytes, eof := eof))
  {
    hide Resumes, Continues;
    if w.split.state == InItem {
      MoreResumes(w.stream, bytes, w.split.cursor, w.split.scan, 0);
      MoreContinues(w.stream, bytes, w.split.cursor, w.split.scan, 0);
    }
  }

  /** However the bytes arrive and however often the next document is asked for, the documents
      found, and those walking the finished stream would find from where the window has come
      to, are together those it would find from where the run began. */
  lemma {:induction false} StreamedIsSlurped(w: Ideal<Splitting>, limit: nat, ops: seq<Op>)
    requires !w.failed && OnTrack(w) && !Run(Values(), w, limit, ops).0.failed
    ensures var (end, answers) := Run(Values(), w, limit, ops);
            && OnTrack(end)
            && Items(answers) + SpansFrom(end.stream, end.split.cursor) == SpansFrom(end.stream, w.split.cursor)
    decreases |ops|
  {
    hide SpansFrom, NextItem, OnTrack, IdealNext;
    if ops != [] {
      var rest := ops[1..];
      match ops[0]
      case Extend(bytes) =>
        StillOnTrack(w, bytes, w.eof);
        StreamedIsSlurped(Arrived(w, bytes), limit, rest);
      case Fill(reader, chunk) =>
        var read := reader(Wanted(Values(), w, limit, chunk));
        StillOnTrack(w, Delivered(read), w.eof || read == Reading.Bytes([]));
        assert w.stream + [] == w.stream;
        StreamedIsSlurped(Took(w, read), limit, rest);
      case Eof =>
        StillOnTrack(w, [], true);
        assert w.stream + [] == w.stream;
        StreamedIsSlurped(w.(eof := true), limit, rest);
      case Next =>
        var (w', answer) := IdealNext(Values(), w, limit);
        var answers := Run(Values(), w', limit, rest).1;
        assert ([answer] + answers)[1..] == answers;
        if w'.failed {
          FailureAbsorbs(Values(), w', limit, rest);
        } else {
          AnswerIsWalk(w, limit);
          StreamedIsSlurped(w', limit, rest);
          StreamGrows(w', limit, rest);
          ItemIsSpan(w, limit, Run(Values(), w', limit, rest).0.stream);
        }
    }
  }

  /** One answer: an item is the first span there, and nothing else passes over a document. */
  lemma ItemIsSpan(w: Ideal<Splitting>, limit: nat, d: Bytes)
    requires !w.failed && OnTrack(w) && w.stream <= d
    ensures var (w', answer) := IdealNext(Values(), w, limit);
            !w'.failed ==>
              match answer
              case Ok(Item(start, end)) => SpansFrom(d, w.split.cursor) == [(start, end)] + SpansFrom(d, w'.split.cursor)
              case _ => SpansFrom(d, w'.split.cursor) == SpansFrom(d, w.split.cursor)
  {
    hide WValue, NextItem, Resumes, Continues;
    var more := d[|w.stream|..];
    assert d == w.stream + more;
    NextIsWalk(w);
    var p := w.split.cursor;
    var at := PastDelimiters(w.stream, p);
    DelimitersStay(w.stream, p, more);
    var s := NextItem(w.split, w.stream, w.eof).0;
    if s.cursor <= |w.stream| { DelimitersStay(w.stream, s.cursor, more); }
    if at < |w.stream| && WValue(Skip, w.stream, at, 0).Ok? { FoundStays(w.stream, at, more); }
  }

  /** A stream read to its end has been cut into exactly the documents walking it finds, and
      nothing but delimiters is after them. */
  lemma FinishedIsSlurped(w: Ideal<Splitting>, limit: nat, ops: seq<Op>)
    requires !w.failed && OnTrack(w) && !Run(Values(), w, limit, ops).0.failed
    requires IdealNext(Values(), Run(Values(), w, limit, ops).0, limit).1 == Result.Ok(End)
    ensures var (end, answers) := Run(Values(), w, limit, ops);
            PastDelimiters(end.stream, end.split.cursor) == |end.stream| && Items(answers) == SpansFrom(end.stream, w.split.cursor)
  {
    hide NextItem, Run;
    StreamedIsSlurped(w, limit, ops);
    var (end, answers) := Run(Values(), w, limit, ops);
    NextIsWalk(end);
    AnswerIsWalk(end, limit);
    NothingPast(end.stream, end.split.cursor);
    assert Items(answers) + [] == Items(answers);
  }

  lemma NothingPast(d: Bytes, p: nat)
    requires PastDelimiters(d, p) >= |d|
    ensures SpansFrom(d, p) == []
  {
  }
}

/** The byte window a streaming reader pulls through: src/stream.rs. The framer is a value
    with a contract, standing for either format's; everything around it is here. */
module Windows {
  import opened Bits
  import opened Wrappers
  import opened Headers

  /** What the framer could determine from the bytes it has. */
  datatype Split =
    | Item(start: nat, end: nat)
    | Need
    | End

  /** A framer's answer, or the code it fails with. */
  datatype Step = Found(split: Split) | Fails(code: ErrorCode)

  /** Divides a growing buffer into values. Offsets are into the caller's buffer. */
  datatype Framer<!S> = Framer(
    next: (S, Bytes, bool) -> (S, Step),
    consumed: S -> nat,
    rebase: S -> S,
    position: S -> nat)

  datatype Failure = DocumentTooLarge | Framing(code: ErrorCode)

  /** A failure placed against the whole stream. */
  datatype StreamError = StreamError(why: Failure, at: nat)

  /** What one read gives: bytes, none meaning the end of the input; nothing, having been
      interrupted; or a failure. */
  datatype Reading = Bytes(bytes: Bytes) | Interrupted | Broken

  const USIZE_MAX: nat := TWO_TO_THE_64 - 1

  function Min(a: nat, b: nat): nat { if a < b then a else b }

  // ---------------------------------------------------------------------
  // The framer's contract
  // ---------------------------------------------------------------------

  function ShiftedSplit(s: Split, k: nat): Split {
    match s case Item(start, end) => Item(start + k, end + k) case _ => s
  }

  function ShiftedStep(s: Step, k: nat): Step {
    match s case Found(split) => Found(ShiftedSplit(split, k)) case Fails(_) => s
  }

  /** The contract is a simulation. `rel(s, t, k, buf)` says that a framer in state `s` over
      `buf` is as far along as one in state `t` over a buffer with `k` bytes more in front,
      whatever those bytes are. Two framers so related stay related as the buffer grows and as
      the first is told its consumed bytes are gone, answer alike, and wait for nothing past
      the end of the input. Nothing is asked of states no window gets into. */
  ghost predicate Sound<S(!new)>(f: Framer<S>, rel: (S, S, nat, Bytes) -> bool) {
    && (forall s, t, k: nat, buf {:trigger Rebases(f, rel, s, t, k, buf)} | rel(s, t, k, buf) :: Rebases(f, rel, s, t, k, buf))
    && (forall s, t, k: nat, buf {:trigger Grows(rel, s, t, k, buf)} | rel(s, t, k, buf) :: Grows(rel, s, t, k, buf))
    && (forall s, t, before: Bytes, buf, eof {:trigger Steps(f, rel, s, t, before, buf, eof)} | rel(s, t, |before|, buf) ::
          Steps(f, rel, s, t, before, buf, eof))
  }

  ghost predicate Grows<S>(rel: (S, S, nat, Bytes) -> bool, s: S, t: S, k: nat, buf: Bytes) {
    forall more: Bytes :: rel(s, t, k, buf + more)
  }

  ghost predicate Rebases<S>(f: Framer<S>, rel: (S, S, nat, Bytes) -> bool, s: S, t: S, k: nat, buf: Bytes) {
    && f.consumed(s) <= |buf|
    && f.consumed(t) == f.consumed(s) + k
    && rel(f.rebase(s), t, k + f.consumed(s), buf[f.consumed(s)..])
  }

  ghost predicate Steps<S>(f: Framer<S>, rel: (S, S, nat, Bytes) -> bool, s: S, t: S, before: Bytes, buf: Bytes, eof: bool) {
    var (s', r) := f.next(s, buf, eof);
    var (t', r') := f.next(t, before + buf, eof);
    && r' == ShiftedStep(r, |before|)
    && f.consumed(t') == f.consumed(s') + |before|
    && (r.Fails? ==> f.position(t') == f.position(s') + |before|)
    && (r.Found? ==> rel(s', t', |before|, buf) && f.consumed(s) <= f.consumed(s'))
    && (r.Found? && r.split.Item? ==> f.consumed(s) <= r.split.start <= r.split.end <= f.consumed(s'))
    && (eof ==> r != Found(Need))
  }

  lemma Rebasing<S(!new)>(f: Framer<S>, rel: (S, S, nat, Bytes) -> bool, s: S, t: S, k: nat, buf: Bytes)
    requires Sound(f, rel) && rel(s, t, k, buf)
    ensures Rebases(f, rel, s, t, k, buf)
  {
  }

  lemma Growing<S(!new)>(f: Framer<S>, rel: (S, S, nat, Bytes) -> bool, s: S, t: S, k: nat, buf: Bytes, more: Bytes)
    requires Sound(f, rel) && rel(s, t, k, buf)
    ensures rel(s, t, k, buf + more)
  {
    assert Grows(rel, s, t, k, buf);
  }

  lemma Stepping<S(!new)>(f: Framer<S>, rel: (S, S, nat, Bytes) -> bool, s: S, t: S, before: Bytes, buf: Bytes, eof: bool)
    requires Sound(f, rel) && rel(s, t, |before|, buf)
    ensures Steps(f, rel, s, t, before, buf, eof)
  {
  }

  // ---------------------------------------------------------------------
  // A window that keeps everything
  // ---------------------------------------------------------------------

  /** The stream as it has arrived, and a framer over all of it: what a window would be if it
      dropped nothing. Every offset of it is an offset in the stream. */
  datatype Ideal<S> = Ideal(stream: Bytes, split: S, eof: bool, failed: bool)

  /** What `try_next` answers over the whole stream, and where it leaves it. */
  function IdealNext<S>(f: Framer<S>, w: Ideal<S>, limit: nat): (r: (Ideal<S>, Result<Split, StreamError>)) {
    if w.failed then (w, Ok(End))
    else
      var (t, step) := f.next(w.split, w.stream, w.eof);
      var w' := w.(split := t);
      match step
      case Fails(code) => (w'.(failed := true), Err(StreamError(Framing(code), f.position(t))))
      case Found(split) =>
        var extent: int := match split
          case Need => |w.stream| - f.consumed(t)
          case Item(start, end) => end - start
          case End => 0;
        if extent > limit then
          (w'.(failed := true), Err(StreamError(DocumentTooLarge, if split.Item? then split.start else f.consumed(t))))
        else (w', Ok(split))
  }

  function Arrived<S>(w: Ideal<S>, bytes: Bytes): Ideal<S> {
    if w.failed then w else w.(stream := w.stream + bytes)
  }

  // ---------------------------------------------------------------------
  // The window
  // ---------------------------------------------------------------------

  class Window<S(!new)> {
    const framer: Framer<S>
    ghost const rel: (S, S, nat, Bytes) -> bool
    var buf: Bytes
    var split: S
    var eof: bool
    var limit: nat
    /** Bytes dropped off the front. */
    var origin: nat
    /** Framing has failed: the window reports the stream over and `extend` gives it nothing. */
    var failed: bool
    /** How much of the allocation is known to be initialised. */
    var inited: nat
    /** What the window has been given, and the framer as it would be had none of it gone. */
    ghost var ideal: Ideal<S>
    /** Bytes moved down by compaction, over the window's life. */
    ghost var moved: nat

    /** The window has moved no more than it dropped, and knows where it is in the stream. */
    ghost predicate Placed()
      reads this
    {
      && Sound(framer, rel)
      && ideal.eof == eof && ideal.failed == failed
      && limit <= USIZE_MAX && |buf| <= inited
      && moved <= origin
      && framer.consumed(ideal.split) == framer.consumed(split) + origin
    }

    /** It holds the stream from `origin` on, and its framer is as far along. */
    ghost predicate InStep()
      reads this
    {
      && origin <= |ideal.stream| && buf == ideal.stream[origin..]
      && rel(split, ideal.split, origin, buf)
    }

    ghost predicate Valid()
      reads this
    {
      Placed() && (!failed ==> InStep())
    }

    /** Bytes the framer has not finished with. */
    ghost function Live(): int
      reads this
    {
      |buf| - framer.consumed(split)
    }

    constructor (framer: Framer<S>, ghost rel: (S, S, nat, Bytes) -> bool, split: S)
      requires Sound(framer, rel) && rel(split, split, 0, [])
      ensures Valid() && this.framer == framer && this.rel == rel && limit == USIZE_MAX
      ensures ideal == Ideal([], split, false, false) && moved == 0
    {
      hide Sound;
      Rebasing(framer, rel, split, split, 0, []);
      this.framer := framer;
      this.rel := rel;
      this.split := split;
      buf := [];
      eof := false;
      limit := USIZE_MAX;
      origin := 0;
      failed := false;
      inited := 0;
      ideal := Ideal([], split, false, false);
      moved := 0;
    }

    method SetLimit(bytes: nat)
      requires Valid() && bytes <= USIZE_MAX
      modifies `limit
      ensures Valid() && limit == bytes
    {
      limit := bytes;
    }

    /** Bytes held but not yet resolved into a value. */
    method Buffered() returns (n: nat)
      requires Valid()
      ensures n == if failed then 0 else |ideal.stream| - framer.consumed(ideal.split)
      ensures !failed ==> n == Live()
    {
      hide Sound;
      if failed { return 0; }
      Rebasing(framer, rel, split, ideal.split, origin, buf);
      return |buf| - framer.consumed(split);
    }

    /** The bytes read but never resolved into a value. */
    method IntoUnread() returns (unread: Bytes)
      requires Valid()
      ensures unread == if failed then [] else ideal.stream[Min(framer.consumed(ideal.split), |ideal.stream|)..]
    {
      hide Sound;
      if failed { return []; }
      Rebasing(framer, rel, split, ideal.split, origin, buf);
      return buf[framer.consumed(split)..];
    }

    /** Offset in the stream of the next unresolved byte. */
    method Offset() returns (at: nat)
      requires Valid()
      ensures at == framer.consumed(ideal.split)
    {
      return origin + framer.consumed(split);
    }

    method SetEof()
      requires Valid()
      modifies `eof, `ideal
      ensures Valid() && ideal == old(ideal).(eof := true)
    {
      hide Sound;
      eof := true;
      ideal := ideal.(eof := true);
    }

    method Extend(bytes: Bytes)
      requires Valid()
      modifies `buf, `inited, `ideal
      ensures Valid() && ideal == Arrived(old(ideal), bytes)
    {
      hide Sound;
      if failed { return; }
      Growing(framer, rel, split, ideal.split, origin, buf, bytes);
      buf := buf + bytes;
      inited := |buf|;
      ideal := Arrived(ideal, bytes);
    }

    /** Drop the bytes the framer is finished with, when they are at least half the window. */
    method Compact()
      requires Valid() && !failed
      modifies `buf, `split, `origin, `moved
      ensures Valid() && moved - old(moved) <= origin - old(origin)
      ensures Live() == old(Live())
      ensures 2 * framer.consumed(split) < |buf| || framer.consumed(split) == 0
    {
      hide Sound;
      var dead := framer.consumed(split);
      Rebasing(framer, rel, split, ideal.split, origin, buf);
      if dead == 0 || dead < |buf| - dead { return; }
      moved := moved + (|buf| - dead);
      Rebasing(framer, rel, framer.rebase(split), ideal.split, origin + dead, buf[dead..]);
      buf := buf[dead..];
      split := framer.rebase(split);
      origin := origin + dead;
    }

    /** Ask the framer for the next value. The answer, moved to its place in the stream, is the
        one a window that keeps everything would give. */
    method TryNext() returns (r: Result<Split, StreamError>)
      requires Valid()
      modifies `buf, `split, `origin, `failed, `inited, `ideal, `moved
      ensures Valid() && moved - old(moved) <= origin - old(origin)
      ensures var (w, answer) := IdealNext(framer, old(ideal), limit);
              && ideal == w
              && (r.Ok? ==> answer == Ok(ShiftedSplit(r.value, origin)))
              && (r.Err? ==> answer == r)
      ensures old(failed) ==> failed && r == Ok(End) && ideal == old(ideal) && buf == old(buf)
      ensures r.Err? <==> failed && !old(failed)
      ensures r.Ok? && r.value.Item? ==> r.value.end <= |buf| && r.value.end - r.value.start <= limit
      ensures r == Ok(Need) ==> !failed && Live() <= limit && !eof
      ensures !failed ==> Live() <= old(Live())
    {
      hide Sound;
      if failed { return Ok(End); }
      r := Locate();
      if r.Err? {
        failed := true;
        buf := [];
        inited := 0;
        ideal := ideal.(failed := true);
      }
    }

    method Locate() returns (r: Result<Split, StreamError>)
      requires Valid() && !failed
      modifies `buf, `split, `origin, `ideal, `moved
      ensures Placed() && (r.Ok? ==> InStep()) && moved - old(moved) <= origin - old(origin)
      ensures var (w, answer) := IdealNext(framer, old(ideal), limit);
              && ideal == w.(failed := false)
              && w.failed == r.Err?
              && (r.Ok? ==> answer == Ok(ShiftedSplit(r.value, origin)))
              && (r.Err? ==> answer == r)
      ensures r.Ok? && r.value.Item? ==> r.value.end <= |buf| && r.value.end - r.value.start <= limit
      ensures r == Ok(Need) ==> Live() <= limit && !eof
      ensures r.Ok? ==> Live() <= old(Live())
    {
      hide Sound;
      var step := Ask();
      match step {
        case Fails(code) => return Err(StreamError(Framing(code), origin + framer.position(split)));
        case Found(found) =>
          var extent, at := 0, framer.consumed(split);
          match found {
            case Need => extent := |buf| - framer.consumed(split);
            case Item(start, end) => extent, at := end - start, start;
            case End =>
          }
          if extent > limit { return Err(StreamError(DocumentTooLarge, origin + at)); }
          return Ok(found);
      }
    }

    /** Drop what can be dropped and put the question to the framer. */
    method Ask() returns (step: Step)
      requires Valid() && !failed
      modifies `buf, `split, `origin, `ideal, `moved
      ensures Placed() && (step.Found? ==> InStep()) && moved - old(moved) <= origin - old(origin)
      ensures var (t, r) := framer.next(old(ideal.split), old(ideal.stream), eof);
              && ideal == old(ideal).(split := t) && r == ShiftedStep(step, origin)
              && (step.Fails? ==> framer.position(t) == framer.position(split) + origin)
      ensures step.Found? ==> 0 <= Live() <= old(Live())
      ensures step.Found? && step.split.Item? ==> step.split.start <= step.split.end <= |buf|
      ensures step == Found(Need) ==> !eof
    {
      hide Sound;
      Compact();
      ghost var before := ideal.stream[..origin];
      Stepping(framer, rel, split, ideal.split, before, buf, eof);
      assert ideal.stream == before + buf;
      ghost var t := framer.next(ideal.split, ideal.stream, eof).0;
      var (s, r) := framer.next(split, buf, eof);
      split, step := s, r;
      ideal := ideal.(split := t);
      if step.Found? { Rebasing(framer, rel, split, ideal.split, origin, buf); }
    }

    /** Read one chunk, asking for no more than takes the unresolved bytes one past the limit.
        There is no test for a failed window: the bytes then join a buffer nothing reads, and the
        stream does not grow. */
    method Fill(reader: nat -> Reading, chunk: nat) returns (ok: bool)
      requires Valid()
      requires Honest(reader)
      modifies `buf, `eof, `inited, `ideal
      ensures Valid()
      ensures ok == !reader(Wanted(framer, old(ideal), limit, chunk)).Broken?
      ensures ideal == Took(old(ideal), reader(Wanted(framer, old(ideal), limit, chunk)))
      ensures buf == old(buf) + Delivered(reader(Wanted(framer, old(ideal), limit, chunk)))
      ensures !failed ==> Live() <= Max(old(Live()), limit) + 1
    {
      hide Sound;
      var len := |buf|;
      var live := Buffered();
      var room := Room(limit, live);
      var want := len + Clamp(chunk, 1, room);
      if want > inited { inited := want; }
      var read := reader(want - len);
      assert read.Bytes? ==> |read.bytes| <= want - len;
      Take(read);
      return !read.Broken?;
    }

    /** What a read gave: bytes at the end of the buffer, or none and the input is over. */
    method Take(read: Reading)
      requires Valid() && |buf| + |Delivered(read)| <= inited
      modifies `buf, `eof, `ideal
      ensures Valid() && ideal == Took(old(ideal), read) && buf == old(buf) + Delivered(read)
    {
      hide Sound;
      ideal := Took(ideal, read);
      match read {
        case Bytes(bytes) =>
          if !failed { Growing(framer, rel, split, ideal.split, origin, buf, bytes); }
          if bytes == [] { eof := true; } else { buf := buf + bytes; }
        case Interrupted =>
        case Broken =>
      }
    }

    /** Read until the framer can name a whole value, or the stream ends, or the readers run out.
        A window that starts with at most one unresolved byte past its limit keeps to that, and
        never reads into a failed window or past the end of the input. */
    method Pull(readers: seq<nat -> Reading>, chunk: nat) returns (r: Pulled)
      requires Valid() && (!failed ==> Live() <= limit + 1)
      requires forall i | 0 <= i < |readers| :: Honest(readers[i])
      modifies this
      ensures Valid() && limit == old(limit) && (!failed ==> Live() <= limit + 1)
      ensures var (w, pulled) := IdealPull(framer, old(ideal), limit, readers, chunk);
              ideal == w && pulled == if r.Got? then Got(r.start + origin, r.end + origin) else r
      ensures r.Got? ==> r.end <= |buf| && r.end - r.start <= limit
      ensures old(failed) ==> r == Over && buf == old(buf)
    {
      hide Sound, IdealNext, Took, Wanted, Placed, InStep;
      var i := 0;
      assert readers[0..] == readers;
      while true
        invariant 0 <= i <= |readers| && Valid() && limit == old(limit) && (!failed ==> Live() <= limit + 1)
        invariant IdealPull(framer, ideal, limit, readers[i..], chunk) == IdealPull(framer, old(ideal), limit, readers, chunk)
        invariant old(failed) ==> failed && buf == old(buf)
        decreases |readers| - i
      {
        ghost var left := readers[i..];
        var next := TryNext();
        match next {
          case Err(error) => return Failed(error);
          case Ok(End) => return Over;
          case Ok(Item(start, end)) => return Got(start, end);
          case Ok(Need) =>
            assert !failed && !eof;
            if i == |readers| { return Waiting; }
            assert left[0] == readers[i] && left[1..] == readers[i + 1..];
            var ok := Fill(readers[i], chunk);
            if !ok { return Unread; }
            i := i + 1;
        }
      }
    }

    /** Any interleaving of extends, fills and requests for the next value, answered in the
        stream's own offsets: the window answers what one that keeps everything would. */
    method Replay(ops: seq<Op>) returns (answers: seq<Result<Split, StreamError>>)
      requires Valid() && AllHonest(ops)
      modifies this
      ensures Valid() && limit == old(limit)
      ensures ideal == Run(framer, old(ideal), limit, ops).0 && answers == Run(framer, old(ideal), limit, ops).1
    {
      hide Sound, IdealNext, Took, Arrived, Wanted, Placed, InStep;
      answers := [];
      ghost var all := Run(framer, ideal, limit, ops);
      assert ops[0..] == ops;
      for i := 0 to |ops|
        invariant Valid() && limit == old(limit)
        invariant var rest := Run(framer, ideal, limit, ops[i..]); all.0 == rest.0 && all.1 == answers + rest.1
      {
        ghost var left := ops[i..];
        assert left[0] == ops[i] && left[1..] == ops[i + 1..];
        match ops[i] {
          case Extend(bytes) => Extend(bytes);
          case Fill(reader, chunk) => var _ := Fill(reader, chunk);
          case Eof => SetEof();
          case Next =>
            var r := TryNext();
            var answer := if r.Ok? then Ok(ShiftedSplit(r.value, origin)) else r;
            answers := answers + [answer];
        }
      }
    }
  }

  // ---------------------------------------------------------------------
  // Runs
  // ---------------------------------------------------------------------

  datatype Op =
    | Extend(bytes: Bytes)
    | Fill(reader: nat -> Reading, chunk: nat)
    | Eof
    | Next

  /** What pulling the next value comes to: its span, the end of the stream, a failure of the
      stream or of a read, or no more reads to make. */
  datatype Pulled = Got(start: nat, end: nat) | Over | Failed(error: StreamError) | Unread | Waiting

  function IdealPull<S>(f: Framer<S>, w: Ideal<S>, limit: nat, readers: seq<nat -> Reading>, chunk: nat): (Ideal<S>, Pulled)
    decreases |readers|
  {
    var (w', answer) := IdealNext(f, w, limit);
    match answer
    case Err(error) => (w', Failed(error))
    case Ok(Item(start, end)) => (w', Got(start, end))
    case Ok(End) => (w', Over)
    case Ok(Need) =>
      if readers == [] then (w', Waiting)
      else
        var read := readers[0](Wanted(f, w', limit, chunk));
        if read.Broken? then (Took(w', read), Unread) else IdealPull(f, Took(w', read), limit, readers[1..], chunk)
  }

  ghost predicate Honest(reader: nat -> Reading) {
    forall n :: reader(n).Bytes? ==> |reader(n).bytes| <= n
  }

  ghost predicate AllHonest(ops: seq<Op>) {
    forall i | 0 <= i < |ops| :: ops[i].Fill? ==> Honest(ops[i].reader)
  }

  /** The run of a script over a window that keeps everything: where it ends, and what each
      request was answered. */
  function Run<S>(f: Framer<S>, w: Ideal<S>, limit: nat, ops: seq<Op>): (r: (Ideal<S>, seq<Result<Split, StreamError>>))
    decreases |ops|
  {
    if ops == [] then (w, [])
    else
      match ops[0]
      case Extend(bytes) => Run(f, Arrived(w, bytes), limit, ops[1..])
      case Fill(reader, chunk) => Run(f, Took(w, reader(Wanted(f, w, limit, chunk))), limit, ops[1..])
      case Eof => Run(f, w.(eof := true), limit, ops[1..])
      case Next =>
        var (w', answer) := IdealNext(f, w, limit);
        var (end, answers) := Run(f, w', limit, ops[1..]);
        (end, [answer] + answers)
  }

  /** Items come in stream order, none overlapping another and none past the limit, and
      nothing but the end of the stream follows a failure. */
  predicate InOrder(answers: seq<Result<Split, StreamError>>, at: nat, limit: nat) {
    if answers == [] then true
    else
      match answers[0]
      case Err(_) => forall i | 0 < i < |answers| :: answers[i] == Ok(End)
      case Ok(Item(start, end)) => at <= start <= end <= start + limit && InOrder(answers[1..], end, limit)
      case Ok(_) => InOrder(answers[1..], at, limit)
  }

  lemma {:induction false} FailureAbsorbs<S>(f: Framer<S>, w: Ideal<S>, limit: nat, ops: seq<Op>)
    requires w.failed
    ensures forall i | 0 <= i < |Run(f, w, limit, ops).1| :: Run(f, w, limit, ops).1[i] == Ok(End)
    ensures Run(f, w, limit, ops).0.failed && Run(f, w, limit, ops).0.stream == w.stream
    decreases |ops|
  {
    if ops != [] {
      match ops[0]
      case Extend(bytes) => FailureAbsorbs(f, Arrived(w, bytes), limit, ops[1..]);
      case Fill(reader, chunk) => FailureAbsorbs(f, Took(w, reader(Wanted(f, w, limit, chunk))), limit, ops[1..]);
      case Eof => FailureAbsorbs(f, w.(eof := true), limit, ops[1..]);
      case Next => FailureAbsorbs(f, w, limit, ops[1..]);
    }
  }

  lemma {:induction false} OrderFrom(answers: seq<Result<Split, StreamError>>, a: nat, b: nat, limit: nat)
    requires InOrder(answers, b, limit) && a <= b
    ensures InOrder(answers, a, limit)
  {
    if answers != [] && answers[0].Ok? && !answers[0].value.Item? { OrderFrom(answers[1..], a, b, limit); }
  }

  lemma {:induction false} ItemsInOrder<S(!new)>(f: Framer<S>, rel: (S, S, nat, Bytes) -> bool, w: Ideal<S>, limit: nat, ops: seq<Op>)
    requires Sound(f, rel) && (!w.failed ==> rel(w.split, w.split, 0, w.stream))
    ensures InOrder(Run(f, w, limit, ops).1, if w.failed then 0 else f.consumed(w.split), limit)
    decreases |ops|
  {
    hide Sound;
    if w.failed {
      FailureAbsorbs(f, w, limit, ops);
      AllEnds(Run(f, w, limit, ops).1, limit);
    } else if ops != [] {
      var rest := ops[1..];
      match ops[0]
      case Extend(bytes) =>
        Growing(f, rel, w.split, w.split, 0, w.stream, bytes);
        ItemsInOrder(f, rel, Arrived(w, bytes), limit, rest);
      case Fill(reader, chunk) =>
        Growing(f, rel, w.split, w.split, 0, w.stream, Delivered(reader(Wanted(f, w, limit, chunk))));
        ItemsInOrder(f, rel, Took(w, reader(Wanted(f, w, limit, chunk))), limit, rest);
      case Eof => ItemsInOrder(f, rel, w.(eof := true), limit, rest);
      case Next =>
        Stepping(f, rel, w.split, w.split, [], w.stream, w.eof);
        assert [] + w.stream == w.stream;
        var (w', answer) := IdealNext(f, w, limit);
        var answers := Run(f, w', limit, rest).1;
        assert ([answer] + answers)[1..] == answers;
        if w'.failed {
          FailureAbsorbs(f, w', limit, rest);
        } else {
          ItemsInOrder(f, rel, w', limit, rest);
          OrderFrom(answers, if answer.value.Item? then answer.value.end else f.consumed(w.split), f.consumed(w'.split), limit);
        }
    }
  }

  lemma {:induction false} AllEnds(answers: seq<Result<Split, StreamError>>, limit: nat)
    requires forall i | 0 <= i < |answers| :: answers[i] == Ok(End)
    ensures InOrder(answers, 0, limit)
  {
    if answers != [] { AllEnds(answers[1..], limit); }
  }

  // ---------------------------------------------------------------------
  // Reading
  // ---------------------------------------------------------------------

  function Max(a: int, b: int): int { if a < b then b else a }

  function Clamp(n: nat, low: nat, high: nat): nat
    requires low <= high
  {
    if n < low then low else if n > high then high else n
  }

  /** Bytes that may still be asked for: one past the limit, so that passing it is noticed. */
  function Room(limit: nat, live: nat): (room: nat)
    ensures room >= 1
  {
    Min((if limit > live then limit - live else 0) + 1, USIZE_MAX)
  }

  /** How many bytes a fill asks for. */
  function Wanted<S>(f: Framer<S>, w: Ideal<S>, limit: nat, chunk: nat): nat {
    var live := |w.stream| - f.consumed(w.split);
    Clamp(chunk, 1, Room(limit, if w.failed || live < 0 then 0 else live))
  }

  /** A fill asks for what was asked of it, but for something and for no more than brings what
      is unresolved one byte past the limit; once it is past it, for one byte. */
  lemma WantedIs<S>(f: Framer<S>, w: Ideal<S>, limit: nat, chunk: nat)
    requires !w.failed && f.consumed(w.split) <= |w.stream| && limit < USIZE_MAX
    ensures var live, n := |w.stream| - f.consumed(w.split), Wanted(f, w, limit, chunk);
            && n >= 1
            && (live <= limit ==> live + n <= limit + 1)
            && (live > limit ==> n == 1)
            && (chunk >= 1 && live + chunk <= limit + 1 ==> n == chunk)
            && (chunk >= 1 && live <= limit && live + chunk > limit + 1 ==> live + n == limit + 1)
  {
  }

  function Delivered(read: Reading): Bytes {
    if read.Bytes? then read.bytes else []
  }

  /** What a read does to the stream: bytes arrive, or the end of it. */
  function Took<S>(w: Ideal<S>, read: Reading): Ideal<S> {
    match read
    case Bytes(bytes) => if bytes == [] then w.(eof := true) else Arrived(w, bytes)
    case _ => w
  }
}

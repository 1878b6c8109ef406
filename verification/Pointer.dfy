/** JSON Pointer tokens: the pointer half of src/beve/reader.rs, `unescape_token` and
    `Value::pointer` of src/value.rs, and `parse_int_text` of src/num/atoi.rs. */
module Pointers {
  import opened Bits
  import opened Wrappers
  import opened Headers
  import AssocLists
  import Trees

  const TILDE: u8 := '~' as int
  const SLASH: u8 := '/' as int
  const ZERO: u8 := '0' as int
  const ONE: u8 := '1' as int
  const NINE: u8 := '9' as int
  const PLUS: u8 := '+' as int
  const MINUS: u8 := '-' as int

  // ---------------------------------------------------------------------
  // Escapes: section 4 of RFC 6901
  // ---------------------------------------------------------------------

  /** Every `~` in the token begins `~0` or `~1`. */
  predicate Escaped(t: Bytes) {
    || t == []
    || if t[0] == TILDE then |t| >= 2 && (t[1] == ZERO || t[1] == ONE) && Escaped(t[2..]) else Escaped(t[1..])
  }

  /** The name a token spells, read left to right. */
  function Unescape(t: Bytes): Bytes {
    if t == [] then []
    else if t[0] == TILDE && |t| >= 2 && t[1] == ZERO then [TILDE] + Unescape(t[2..])
    else if t[0] == TILDE && |t| >= 2 && t[1] == ONE then [SLASH] + Unescape(t[2..])
    else [t[0]] + Unescape(t[1..])
  }

  /** The token that spells a name. */
  function Escape(name: Bytes): Bytes {
    if name == [] then []
    else (if name[0] == TILDE then [TILDE, ZERO] else if name[0] == SLASH then [TILDE, ONE] else [name[0]]) + Escape(name[1..])
  }

  lemma {:induction false} EscapeRoundTrip(name: Bytes)
    ensures Unescape(Escape(name)) == name && Escaped(Escape(name)) && SLASH !in Escape(name)
  {
    if name != [] {
      EscapeRoundTrip(name[1..]);
      var t := Escape(name);
      if name[0] == TILDE || name[0] == SLASH {
        assert t[2..] == Escape(name[1..]);
      } else {
        assert t[1..] == Escape(name[1..]);
      }
    }
  }

  /** Reject a token holding a `~` that begins no escape. */
  method CheckEscapes(t: Bytes) returns (r: Result<(), ErrorCode>)
    ensures r == if Escaped(t) then Result.Ok(()) else Result.Err(InvalidPointer)
  {
    var i := 0;
    while i < |t|
      invariant 0 <= i <= |t| && Escaped(t) == Escaped(t[i..])
    {
      if t[i] == TILDE {
        if i + 1 < |t| && (t[i + 1] == ZERO || t[i + 1] == ONE) {
          assert t[i..][2..] == t[i + 2..];
          i := i + 1;
        } else {
          return Result.Err(InvalidPointer);
        }
      } else {
        assert t[i..][1..] == t[i + 1..];
      }
      i := i + 1;
    }
    return Result.Ok(());
  }

  lemma UnescapeStep(t: Bytes, want: u8, step: nat, key: Bytes)
    requires t != []
    requires if t[0] == TILDE && |t| >= 2 && t[1] == ZERO then want == TILDE && step == 2
             else if t[0] == TILDE && |t| >= 2 && t[1] == ONE then want == SLASH && step == 2
             else want == t[0] && step == 1
    ensures step <= |t| && Unescape(t) == [want] + Unescape(t[step..])
    ensures Unescape(t) == key <==> key != [] && key[0] == want && Unescape(t[step..]) == key[1..]
  {
    if key != [] && key[0] == want && Unescape(t[step..]) == key[1..] {
      assert key == [key[0]] + key[1..];
    }
  }

  /** Compare a token against a raw key, undoing the escapes as it goes. */
  method TokenEq(t: Bytes, key: Bytes) returns (eq: bool)
    ensures eq == (Unescape(t) == key)
  {
    var i, j := 0, 0;
    while i < |t|
      invariant 0 <= i <= |t| && 0 <= j <= |key|
      invariant (Unescape(t) == key) == (Unescape(t[i..]) == key[j..])
      decreases |t| - i
    {
      hide Unescape;
      var want, step := t[i], 1;
      if t[i] == TILDE && i + 1 < |t| && t[i + 1] == ZERO {
        want, step := TILDE, 2;
      } else if t[i] == TILDE && i + 1 < |t| && t[i + 1] == ONE {
        want, step := SLASH, 2;
      }
      ghost var rest, name := t[i..], key[j..];
      UnescapeStep(rest, want, step, name);
      if j >= |key| || key[j] != want { return false; }
      assert rest[step..] == t[i + step..] && name[1..] == key[j + 1..];
      i := i + step;
      j := j + 1;
    }
    return j == |key|;
  }

  // ---------------------------------------------------------------------
  // The two-pass form
  // ---------------------------------------------------------------------

  /** Every `~` followed by `second` replaced, left to right. */
  function Replaced(t: Bytes, second: u8, to: u8): Bytes {
    if t == [] then []
    else if t[0] == TILDE && |t| >= 2 && t[1] == second then [to] + Replaced(t[2..], second, to)
    else [t[0]] + Replaced(t[1..], second, to)
  }

  function UnescapeToken(t: Bytes): Bytes {
    Replaced(Replaced(t, ONE, SLASH), ZERO, TILDE)
  }

  /** Both orders of undoing a token's escapes spell the same name, whatever the token. */
  lemma {:induction false} TwoPassesAgree(t: Bytes)
    ensures UnescapeToken(t) == Unescape(t)
  {
    if t != [] {
      var first := Replaced(t, ONE, SLASH);
      if t[0] == TILDE && |t| >= 2 && t[1] == ONE {
        TwoPassesAgree(t[2..]);
        assert first[1..] == Replaced(t[2..], ONE, SLASH);
      } else if t[0] == TILDE && |t| >= 2 && t[1] == ZERO {
        TwoPassesAgree(t[2..]);
        assert t[1..][1..] == t[2..];
        assert Replaced(t[1..], ONE, SLASH) == [ZERO] + Replaced(t[2..], ONE, SLASH);
        assert first[2..] == Replaced(t[2..], ONE, SLASH);
      } else {
        TwoPassesAgree(t[1..]);
        assert first[1..] == Replaced(t[1..], ONE, SLASH);
        assert |t| >= 2 ==> first[1] == t[1] || first[1] == SLASH;
      }
    }
  }

  // ---------------------------------------------------------------------
  // Tokens of a pointer
  // ---------------------------------------------------------------------

  /** The text between slashes. */
  function Split(s: Bytes): (r: seq<Bytes>)
    ensures |r| >= 1
  {
    if s == [] then [[]]
    else
      var rest := Split(s[1..]);
      if s[0] == SLASH then [[]] + rest else [[s[0]] + rest[0]] + rest[1..]
  }

  function Joined(tokens: seq<Bytes>): Bytes {
    if tokens == [] then [] else [SLASH] + tokens[0] + Joined(tokens[1..])
  }

  /** Splitting takes out the slashes and nothing else. */
  lemma {:induction false} SplitIsExact(s: Bytes)
    ensures Joined(Split(s)) == [SLASH] + s
    ensures forall t | t in Split(s) :: SLASH !in t
  {
    if s != [] {
      var rest, tail := Split(s[1..]), s[1..];
      SplitIsExact(tail);
      JoinedStep(rest);
      JoinedStep(Split(s));
      assert s == [s[0]] + tail;
      assert Split(s)[1..] == if s[0] == SLASH then rest else rest[1..];
      hide Joined, Split;
      Respelled(s[0], rest[0], Joined(rest[1..]), tail);
    }
  }

  /** `tail` is `a` and `b` joined; so is the same with one byte more in front. */
  lemma Respelled(c: u8, a: Bytes, b: Bytes, tail: Bytes)
    requires [SLASH] + a + b == [SLASH] + tail
    ensures [SLASH] + ([c] + a) + b == [SLASH] + ([c] + tail)
    ensures [SLASH] + [] + ([SLASH] + a + b) == [SLASH] + ([SLASH] + tail)
  {
    assert a + b == ([SLASH] + a + b)[1..] == ([SLASH] + tail)[1..] == tail;
    assert [SLASH] + ([c] + a) + b == [SLASH] + ([c] + (a + b));
  }

  lemma JoinedStep(tokens: seq<Bytes>)
    requires tokens != []
    ensures Joined(tokens) == [SLASH] + tokens[0] + Joined(tokens[1..])
  {
  }

  /** A pointer's tokens, if it is a pointer. */
  function Tokens(pointer: Bytes): Option<seq<Bytes>> {
    if pointer == [] then Some([])
    else if pointer[0] == SLASH then Some(Split(pointer[1..]))
    else None
  }

  // ---------------------------------------------------------------------
  // Integers in text
  // ---------------------------------------------------------------------

  predicate AllDigits(t: Bytes) {
    forall i | 0 <= i < |t| :: ZERO <= t[i] <= NINE
  }

  function DigitsValue(t: Bytes): nat
    requires AllDigits(t)
  {
    if t == [] then 0 else 10 * DigitsValue(t[..|t| - 1]) + (t[|t| - 1] - ZERO)
  }

  function ParseNat(t: Bytes): Option<nat> {
    if t != [] && AllDigits(t) then Some(DigitsValue(t)) else None
  }

  /** An integer as text: an optional sign and digits. */
  function ParseInt(t: Bytes): Option<int> {
    var signed := t != [] && (t[0] == PLUS || t[0] == MINUS);
    var n := ParseNat(if signed then t[1..] else t);
    if n.None? then None
    else
      var v: int := n.value;
      var w: int := if signed && t[0] == MINUS then -v else v;
      Some(w)
  }

  const TWO_TO_THE_127: int := 0x8000_0000_0000_0000_0000_0000_0000_0000

  function ParseI128(t: Bytes): Option<int> {
    var v := ParseInt(t);
    if v.Some? && -TWO_TO_THE_127 <= v.value < TWO_TO_THE_127 then v else None
  }

  /** Minus nothing is zero; any other minus is out of range. */
  function ParseU128(t: Bytes): Option<int> {
    var v := ParseInt(t);
    if v.Some? && 0 <= v.value < 2 * TWO_TO_THE_127 then v else None
  }

  /** `str::parse::<usize>`, which takes a plus and no minus. */
  function ParseUsize(t: Bytes): Option<nat> {
    match ParseNat(if t != [] && t[0] == PLUS then t[1..] else t)
    case Some(v) => if v < TWO_TO_THE_64 then Some(v) else None
    case None => None
  }

  lemma {:induction false} DigitsParse(n: nat)
    ensures var t := Trees.Digits(n); t != [] && AllDigits(t) && DigitsValue(t) == n && (n > 0 ==> t[0] != ZERO) && (n == 0 ==> |t| == 1)
  {
    var t := Trees.Digits(n);
    if n >= 10 {
      DigitsParse(n / 10);
      assert t[..|t| - 1] == Trees.Digits(n / 10);
      assert t[0] == Trees.Digits(n / 10)[0];
    }
  }

  lemma DecimalParses(v: int)
    ensures ParseInt(Trees.Decimal(v)) == Some(v)
    ensures forall i | 0 <= i < |Trees.Decimal(v)| :: Trees.Decimal(v)[i] == MINUS || ZERO <= Trees.Decimal(v)[i] <= NINE
  {
    DigitsParse(if v < 0 then -v else v);
    if v < 0 { assert Trees.Decimal(v)[1..] == Trees.Digits(-v); }
  }

  /** Digits with no leading zero. */
  predicate IndexShaped(t: Bytes) {
    t != [] && AllDigits(t) && !(t[0] == ZERO && |t| > 1)
  }

  /** Decode an array index token. */
  function Index(t: Bytes): Result<nat, ErrorCode> {
    if t == [MINUS] then Result.Err(NoSuchValue)
    else if !IndexShaped(t) then Result.Err(InvalidPointer)
    else match ParseUsize(t) case Some(i) => Result.Ok(i) case None => Result.Err(NoSuchValue)
  }

  lemma {:induction false} PlainUnescape(t: Bytes)
    requires TILDE !in t
    ensures Unescape(t) == t && Escaped(t)
  {
    if t != [] { PlainUnescape(t[1..]); }
  }

  lemma {:induction false} TildeStays(t: Bytes)
    ensures TILDE in t ==> TILDE in Unescape(t) || SLASH in Unescape(t)
  {
    if t != [] {
      if t[0] == TILDE && |t| >= 2 && (t[1] == ZERO || t[1] == ONE) {
        assert Unescape(t)[0] == TILDE || Unescape(t)[0] == SLASH;
      } else {
        TildeStays(t[1..]);
      }
    }
  }

  /** A token spells an integer as one is written exactly when it is written so itself. */
  lemma DecimalToken(t: Bytes, v: int)
    ensures Unescape(t) == Trees.Decimal(v) <==> t == Trees.Decimal(v)
  {
    DecimalParses(v);
    TildeStays(t);
    if TILDE !in t { PlainUnescape(t); }
  }

  lemma DecimalIsOne(a: int, b: int)
    requires Trees.Decimal(a) == Trees.Decimal(b)
    ensures a == b
  {
    DecimalParses(a);
    DecimalParses(b);
  }

  /** A tree takes every index a reader takes, and of the others it takes, `+1` and `01` among
      them, none is spelled as an index is written. */
  lemma IndexToken(t: Bytes)
    ensures Index(t).Ok? ==> ParseUsize(Unescape(t)) == Some(Index(t).value)
    ensures ParseUsize(Unescape(t)).Some? ==>
              && Unescape(t) == t && Escaped(t)
              && (Index(t).Ok? <==> t == Trees.Digits(ParseUsize(t).value))
  {
    TildeStays(t);
    if TILDE in t { return; }
    PlainUnescape(t);
    if ParseUsize(t).Some? {
      var v := ParseUsize(t).value;
      DigitsParse(v);
      if Index(t).Ok? { DigitsAreOne(t, v); }
    }
  }

  /** A token is refused as no index at all exactly when it is not a dash and is not how any
      number is written, and as the index of nothing when it is the dash or a number too
      large. */
  lemma IndexRefused(t: Bytes)
    ensures Index(t) == Result.Err(InvalidPointer) <==> t != ['-' as int] && forall v: nat :: t != Trees.Digits(v)
    ensures Index(t) == Result.Err(NoSuchValue) <==> t == ['-' as int] || exists v: nat :: v >= TWO_TO_THE_64 && t == Trees.Digits(v)
    ensures Index(t).Err? ==> Index(t).error in {InvalidPointer, NoSuchValue}
  {
    hide Trees.Digits, DigitsValue;
    forall v: nat | t == Trees.Digits(v) ensures IndexShaped(t) && DigitsValue(t) == v {
      DigitsParse(v);
    }
    if IndexShaped(t) { DigitsAreOne(t, DigitsValue(t)); }
  }

  /** Without a leading zero, the digits of a number are the ones it is written with. */
  lemma {:induction false} DigitsAreOne(t: Bytes, v: nat)
    requires IndexShaped(t) && DigitsValue(t) == v
    ensures t == Trees.Digits(v)
  {
    var n := |t| - 1;
    if n > 0 {
      var front := t[..n];
      assert front[0] == t[0];
      DigitsAreOne(front, DigitsValue(front));
      LeadingDigit(front);
      assert v / 10 == DigitsValue(front) && v % 10 == t[n] - ZERO;
    }
    assert t == t[..n] + [t[n]];
  }

  lemma {:induction false} LeadingDigit(t: Bytes)
    requires t != [] && AllDigits(t) && t[0] != ZERO
    ensures DigitsValue(t) > 0
  {
    if |t| > 1 { LeadingDigit(t[..|t| - 1]); }
  }

  // ---------------------------------------------------------------------
  // Pointers into a tree
  // ---------------------------------------------------------------------

  function Child(v: Trees.Value, token: Bytes): Option<Trees.Value> {
    match v
    case Object(members) => AssocLists.Lookup(members, UnescapeToken(token))
    case Array(items) =>
      (match ParseUsize(UnescapeToken(token))
       case Some(i) => if i < |items| then Some(items[i]) else None
       case None => None)
    case _ => None
  }

  function At(v: Trees.Value, tokens: seq<Bytes>): Option<Trees.Value> {
    if tokens == [] then Some(v)
    else match Child(v, tokens[0]) case Some(w) => At(w, tokens[1..]) case None => None
  }

  /** `Value::pointer`. */
  function PointerInto(v: Trees.Value, pointer: Bytes): Option<Trees.Value> {
    match Tokens(pointer) case Some(tokens) => At(v, tokens) case None => None
  }
}
